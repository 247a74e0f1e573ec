/** Who holds or awaits which permit of the traffic system. */
module Permits {
  import opened Semaphore
  import opened Traffic

  function Bit(b: bool): int {
    if b then 1 else 0
  }

  // ---------- what each place in the program has asked for and not given back ----------

  /** Between `down(empty)` and counting the car. */
  predicate TakesSlot(at: ProducerAt) {
    at.DownMutex? || at.CountCar? || at.StoreCar? || at.AdvanceIn? || at.CountUp?
  }

  /** Between counting the car and `up(full)`. */
  predicate OwesFull(at: ProducerAt) {
    at.HonkCheck? || at.UpMutex? || at.UpFull?
  }

  /** Between counting the car and `up(cum_sem)`. */
  predicate OwesCum(at: ProducerAt) {
    OwesFull(at) || at.UpCum?
  }

  /** Between `down(mutex)` and `up(mutex)`. */
  predicate InRegion(at: ProducerAt) {
    at.CountCar? || at.StoreCar? || at.AdvanceIn? || at.CountUp? || at.HonkCheck? || at.UpMutex?
  }

  predicate FlagInRegion(flag: FlagAt) {
    || flag.SleepCheck? || flag.UpMutexFirst?
    || flag.Choose? || flag.DownFull? || flag.ReadCar? || flag.CountDown? || flag.AdvanceOut? || flag.UpMutexAgain?
  }

  /** Between `down(cum_sem)` and counting the car down. */
  predicate TakesToken(flag: FlagAt) {
    flag.DownMutexAgain? || flag.Choose? || flag.DownFull? || flag.ReadCar? || flag.CountDown?
  }

  /** Between `down(full)` and counting the car down. */
  predicate TakesFull(flag: FlagAt, d: Direction) {
    flag == ReadCar(d) || flag == CountDown(d)
  }

  /** Between counting the car down and `up(empty)`. */
  predicate OwesEmpty(flag: FlagAt, d: Direction) {
    flag == AdvanceOut(d) || flag == UpMutexAgain(d) || flag == Announce(d) || flag == UpEmpty(d)
  }

  // ---------- the values and queues of the six semaphores ----------

  /** Only `p` can be waiting, and only where `there` says it stands behind the `down` concerned. */
  ghost predicate AtMost(gate: Gate, p: Process, there: bool) {
    Balanced(gate) && (gate.waiting == [] || (gate.waiting == [p] && there))
  }

  ghost predicate EmptyOk(side: Side, flag: FlagAt, d: Direction) {
    && side.empty.value == BUFFER_SIZE - side.count - Bit(TakesSlot(side.at)) - Bit(OwesEmpty(flag, d))
    && AtMost(side.empty, Producer(d), side.at.DownMutex?)
  }

  ghost predicate FullOk(side: Side, flag: FlagAt, d: Direction) {
    && side.full.value == side.count - Bit(OwesFull(side.at)) - Bit(TakesFull(flag, d))
    && AtMost(side.full, Flagperson, flag == ReadCar(d))
  }

  ghost predicate CumOk(cum: Gate, north: Side, south: Side, flag: FlagAt) {
    && cum.value == north.count + south.count - Bit(OwesCum(north.at)) - Bit(OwesCum(south.at)) - Bit(TakesToken(flag))
    && AtMost(cum, Flagperson, flag.DownMutexAgain?)
  }

  ghost predicate DistinctQueue(queue: seq<Process>) {
    forall i, j :: 0 <= i < j < |queue| ==> queue[i] != queue[j]
  }

  ghost predicate MutexOk(mutex: Gate, north: ProducerAt, south: ProducerAt, flag: FlagAt) {
    && mutex.value == 1 - Bit(InRegion(north)) - Bit(InRegion(south)) - Bit(FlagInRegion(flag))
    && Balanced(mutex)
    && DistinctQueue(mutex.waiting)
    && (Producer(North) in mutex.waiting ==> north.CountCar?)
    && (Producer(South) in mutex.waiting ==> south.CountCar?)
    && (Flagperson in mutex.waiting ==> flag.SleepCheck? || flag.Choose?)
  }

  // ---------- every statement keeps them ----------

  lemma DownMutexQueue(mutex: Gate, p: Process)
    requires Balanced(mutex) && DistinctQueue(mutex.waiting) && p !in mutex.waiting
    ensures Balanced(Down(mutex, p)) && DistinctQueue(Down(mutex, p).waiting)
    ensures forall q :: q in Down(mutex, p).waiting ==> q in mutex.waiting || q == p
  {
  }

  lemma UpMutexQueue(mutex: Gate)
    requires Balanced(mutex) && DistinctQueue(mutex.waiting)
    ensures Balanced(Up(mutex)) && DistinctQueue(Up(mutex).waiting)
    ensures forall q :: q in Up(mutex).waiting ==> q in mutex.waiting
  {
  }

  lemma ProducerKeepsEmpty(state: State, d: Direction, e: Direction)
    requires EmptyOk(state.Side(e), state.flag, e) && Producer(d) !in state.Side(d).empty.waiting
    ensures EmptyOk(ProducerStep(state, d).Side(e), state.flag, e)
  {
  }

  lemma ProducerKeepsFull(state: State, d: Direction, e: Direction)
    requires FullOk(state.Side(e), state.flag, e)
    ensures FullOk(ProducerStep(state, d).Side(e), state.flag, e)
  {
  }

  lemma ProducerKeepsCum(state: State, d: Direction)
    requires CumOk(state.cum, state.north, state.south, state.flag)
    ensures var after := ProducerStep(state, d);
      CumOk(after.cum, after.north, after.south, after.flag)
  {
    if state.Side(d).at.CountUp? || state.Side(d).at.UpCum? {
      CountKeepsCum(state, d);
    } else {
      OtherwiseKeepsCum(state, d);
    }
  }

  lemma CountKeepsCum(state: State, d: Direction)
    requires CumOk(state.cum, state.north, state.south, state.flag)
    requires state.Side(d).at.CountUp? || state.Side(d).at.UpCum?
    ensures var after := ProducerStep(state, d);
      CumOk(after.cum, after.north, after.south, after.flag)
  {
  }

  lemma OtherwiseKeepsCum(state: State, d: Direction)
    requires CumOk(state.cum, state.north, state.south, state.flag)
    requires !state.Side(d).at.CountUp? && !state.Side(d).at.UpCum?
    ensures var after := ProducerStep(state, d);
      CumOk(after.cum, after.north, after.south, after.flag)
  {
  }

  lemma ProducerKeepsMutex(state: State, d: Direction)
    requires MutexOk(state.mutex, state.north.at, state.south.at, state.flag) && Producer(d) !in state.mutex.waiting
    ensures var after := ProducerStep(state, d);
      MutexOk(after.mutex, after.north.at, after.south.at, after.flag)
  {
    if state.Side(d).at.DownMutex? || state.Side(d).at.UpMutex? {
      DownMutexQueue(state.mutex, Producer(d));
      UpMutexQueue(state.mutex);
    } else {
      OtherwiseKeepsMutex(state, d);
    }
  }

  lemma OtherwiseKeepsMutex(state: State, d: Direction)
    requires MutexOk(state.mutex, state.north.at, state.south.at, state.flag) && Producer(d) !in state.mutex.waiting
    requires !state.Side(d).at.DownMutex? && !state.Side(d).at.UpMutex?
    ensures var after := ProducerStep(state, d);
      MutexOk(after.mutex, after.north.at, after.south.at, after.flag)
  {
  }

  lemma FlagKeepsEmpty(state: State, e: Direction)
    requires EmptyOk(state.Side(e), state.flag, e)
    ensures EmptyOk(FlagStep(state).Side(e), FlagStep(state).flag, e)
  {
    if state.flag.CountDown? || state.flag.UpEmpty? {
      SlotKeepsEmpty(state, e);
    } else {
      OtherwiseKeepsEmpty(state, e);
    }
  }

  lemma SlotKeepsEmpty(state: State, e: Direction)
    requires EmptyOk(state.Side(e), state.flag, e) && (state.flag.CountDown? || state.flag.UpEmpty?)
    ensures EmptyOk(FlagStep(state).Side(e), FlagStep(state).flag, e)
  {
  }

  lemma OtherwiseKeepsEmpty(state: State, e: Direction)
    requires EmptyOk(state.Side(e), state.flag, e) && !state.flag.CountDown? && !state.flag.UpEmpty?
    ensures EmptyOk(FlagStep(state).Side(e), FlagStep(state).flag, e)
  {
  }

  lemma FlagKeepsFull(state: State, e: Direction)
    requires FullOk(state.Side(e), state.flag, e) && Flagperson !in state.Side(e).full.waiting
    ensures FullOk(FlagStep(state).Side(e), FlagStep(state).flag, e)
  {
  }

  lemma FlagKeepsCum(state: State)
    requires CumOk(state.cum, state.north, state.south, state.flag) && Flagperson !in state.cum.waiting
    requires state.flag.DownFull? ==> state.direction == 'N' || state.direction == 'S'
    ensures var after := FlagStep(state);
      CumOk(after.cum, after.north, after.south, after.flag)
  {
  }

  lemma FlagKeepsMutex(state: State)
    requires MutexOk(state.mutex, state.north.at, state.south.at, state.flag) && Flagperson !in state.mutex.waiting
    requires state.flag.DownFull? ==> state.direction == 'N' || state.direction == 'S'
    ensures var after := FlagStep(state);
      MutexOk(after.mutex, after.north.at, after.south.at, after.flag)
  {
    if state.flag.DownMutexFirst? || state.flag.DownMutexAgain? {
      DownMutexQueue(state.mutex, Flagperson);
    } else if state.flag.UpMutexFirst? || state.flag.UpMutexAgain? {
      UpMutexQueue(state.mutex);
    } else {
      FlagLeavesMutex(state);
    }
  }

  lemma FlagLeavesMutex(state: State)
    requires MutexOk(state.mutex, state.north.at, state.south.at, state.flag) && Flagperson !in state.mutex.waiting
    requires !state.flag.DownMutexFirst? && !state.flag.DownMutexAgain?
    requires !state.flag.UpMutexFirst? && !state.flag.UpMutexAgain?
    requires state.flag.DownFull? ==> state.direction == 'N' || state.direction == 'S'
    ensures var after := FlagStep(state);
      MutexOk(after.mutex, after.north.at, after.south.at, after.flag)
  {
  }
}
