/** What every interleaving of the traffic system keeps. */
module TrafficInvariant {
  import opened Traffic
  import opened Permits

  // ---------- consequences of the permits ----------

  /** The process is inside its critical region: past `down(mutex)`, not waiting for it, and not yet past
      `up(mutex)`. */
  predicate Inside(state: State, p: Process) {
    && p !in state.mutex.waiting
    && match p
       case Producer(d) => InRegion(state.Side(d).at)
       case Flagperson => FlagInRegion(state.flag)
  }

  /** Mutual exclusion. */
  lemma OnlyOneInside(state: State, p: Process, q: Process)
    requires MutexOk(state.mutex, state.north.at, state.south.at, state.flag)
    requires Inside(state, p) && Inside(state, q)
    ensures p == q
  {
    var waiting := state.mutex.waiting;
    if |waiting| > 0 {
      OneOfThree(waiting[0]);
      assert waiting[0] in waiting;
    }
    if |waiting| > 1 {
      OneOfThree(waiting[1]);
      assert waiting[1] in waiting;
    }
    OneOfThree(p);
    OneOfThree(q);
  }

  lemma OneOfThree(p: Process)
    ensures p == Producer(North) || p == Producer(South) || p == Flagperson
  {
    match p
    case Producer(North) =>
    case Producer(South) =>
    case Flagperson =>
  }

  lemma CountBounds(side: Side, flag: FlagAt, d: Direction)
    requires EmptyOk(side, flag, d) && FullOk(side, flag, d)
    ensures 0 <= side.count <= BUFFER_SIZE
    ensures TakesFull(flag, d) && side.full.waiting == [] ==> side.count >= 1
    ensures TakesSlot(side.at) && side.empty.waiting == [] ==> side.count + Bit(OwesEmpty(flag, d)) <= BUFFER_SIZE - 1
  {
  }

  // ---------- the rings ----------

  /** How far the ring has got, and that what has left is what arrived first. */
  ghost predicate RingCounts(side: Side, flag: FlagAt, d: Direction) {
    && 0 <= side.output <= |side.arrived|
    && side.count == |side.arrived| - Bit(side.at.AdvanceIn? || side.at.CountUp?) - side.output
                     - Bit(flag == AdvanceOut(d))
    && (side.at.AdvanceIn? ==> |side.arrived| > 0)
    && side.input == (|side.arrived| - Bit(side.at.AdvanceIn?)) % BUFFER_SIZE
  }

  /** Unread cars are in the ring in order of arrival. */
  ghost predicate RingUnread(side: Side) {
    && 0 <= side.output
    && forall i :: side.output <= i < |side.arrived| ==> side.buffer[i % BUFFER_SIZE] == side.arrived[i]
  }

  /** What has left is what arrived first, and the car in hand is the next to leave. */
  ghost predicate RingLeft(side: Side, flag: FlagAt, car: int, d: Direction) {
    && 0 <= side.output <= |side.arrived|
    && |side.left| == side.output - Bit(flag == UpMutexAgain(d) || flag == Announce(d))
    && side.left <= side.arrived
    && (flag == CountDown(d) || flag == AdvanceOut(d) ==>
          side.output < |side.arrived| && car == side.arrived[side.output])
    && (flag == UpMutexAgain(d) || flag == Announce(d) ==> side.output > 0 && car == side.arrived[side.output - 1])
  }

  ghost predicate RingOk(side: Side, flag: FlagAt, car: int, d: Direction) {
    RingCounts(side, flag, d) && RingUnread(side) && RingLeft(side, flag, car, d)
  }

  lemma DifferentSlots(i: nat, n: nat)
    requires i < n < i + BUFFER_SIZE
    ensures i % BUFFER_SIZE != n % BUFFER_SIZE
  {
  }

  /** The slot about to be filled holds no unread car. */
  lemma FreeSlot(side: Side, flag: FlagAt, d: Direction)
    requires RingCounts(side, flag, d) && EmptyOk(side, flag, d) && FullOk(side, flag, d) && side.at.StoreCar?
    ensures 0 <= side.input < BUFFER_SIZE
    ensures forall i :: side.output <= i < |side.arrived| ==> i % BUFFER_SIZE != side.input
  {
    CountBounds(side, flag, d);
    forall i | side.output <= i < |side.arrived|
      ensures i % BUFFER_SIZE != side.input
    {
      DifferentSlots(i, |side.arrived|);
    }
  }

  /** Storing a car overwrites no unread one. */
  lemma StoreKeepsUnread(side: Side, flag: FlagAt, d: Direction, stored: int)
    requires RingCounts(side, flag, d) && RingUnread(side)
    requires EmptyOk(side, flag, d) && FullOk(side, flag, d) && side.at.StoreCar?
    ensures 0 <= side.input < BUFFER_SIZE
    ensures RingUnread(side.(buffer := side.buffer[side.input := stored], arrived := side.arrived + [stored]))
  {
    FreeSlot(side, flag, d);
  }

  lemma ProducerKeepsCounts(state: State, d: Direction, e: Direction)
    requires RingCounts(state.Side(e), state.flag, e)
    ensures RingCounts(ProducerStep(state, d).Side(e), state.flag, e)
  {
    if d == e {
      ProducerKeepsOwnCounts(state, d);
    } else {
      ProducerLeavesOther(state, d, e);
    }
  }

  lemma ProducerKeepsOwnCounts(state: State, d: Direction)
    requires RingCounts(state.Side(d), state.flag, d)
    ensures RingCounts(ProducerStep(state, d).Side(d), state.flag, d)
  {
  }

  lemma ProducerLeavesOther(state: State, d: Direction, e: Direction)
    requires d != e
    ensures ProducerStep(state, d).Side(e) == state.Side(e)
  {
  }

  lemma ProducerKeepsUnread(state: State, d: Direction, e: Direction)
    requires RingCounts(state.Side(e), state.flag, e) && RingUnread(state.Side(e))
    requires EmptyOk(state.Side(e), state.flag, e) && FullOk(state.Side(e), state.flag, e)
    ensures RingUnread(ProducerStep(state, d).Side(e))
  {
    if d == e && state.Side(d).at.StoreCar? {
      StoreKeepsUnread(state.Side(d), state.flag, d, state.totalCars);
      assert ProducerStep(state, d).Side(e).at.AdvanceIn?;
    }
  }

  lemma ProducerKeepsLeft(state: State, d: Direction, e: Direction)
    requires RingLeft(state.Side(e), state.flag, state.car, e)
    ensures RingLeft(ProducerStep(state, d).Side(e), state.flag, state.car, e)
  {
  }

  lemma FlagKeepsCounts(state: State, e: Direction)
    requires RingCounts(state.Side(e), state.flag, e)
    requires state.flag == AdvanceOut(e) ==> state.Side(e).output < |state.Side(e).arrived|
    ensures RingCounts(FlagStep(state).Side(e), FlagStep(state).flag, e)
  {
    if state.flag.CountDown? || state.flag.AdvanceOut? {
      CarTakenKeepsCounts(state, e);
    } else {
      OtherwiseKeepsCounts(state, e);
    }
  }

  lemma CarTakenKeepsCounts(state: State, e: Direction)
    requires RingCounts(state.Side(e), state.flag, e) && (state.flag.CountDown? || state.flag.AdvanceOut?)
    requires state.flag == AdvanceOut(e) ==> state.Side(e).output < |state.Side(e).arrived|
    ensures RingCounts(FlagStep(state).Side(e), FlagStep(state).flag, e)
  {
  }

  lemma OtherwiseKeepsCounts(state: State, e: Direction)
    requires RingCounts(state.Side(e), state.flag, e) && !state.flag.CountDown? && !state.flag.AdvanceOut?
    ensures RingCounts(FlagStep(state).Side(e), FlagStep(state).flag, e)
  {
  }

  lemma FlagKeepsUnread(state: State, e: Direction)
    requires RingUnread(state.Side(e))
    ensures RingUnread(FlagStep(state).Side(e))
  {
  }

  /** The car read is the oldest one unread. */
  lemma ReadCarKeepsLeft(state: State, d: Direction, e: Direction)
    requires RingOk(state.Side(e), state.flag, state.car, e) && state.flag == ReadCar(d)
    requires EmptyOk(state.Side(e), state.flag, e) && FullOk(state.Side(e), state.flag, e)
    requires Flagperson !in state.Side(e).full.waiting
    ensures var after := FlagStep(state);
      RingLeft(after.Side(e), after.flag, after.car, e)
  {
    if d == e {
      CountBounds(state.Side(e), state.flag, e);
      assert FlagStep(state).car == state.Side(e).arrived[state.Side(e).output];
    }
  }

  /** Statements that touch neither the car in hand nor how far the ring has got. */
  lemma OtherwiseKeepsLeft(state: State, e: Direction)
    requires RingLeft(state.Side(e), state.flag, state.car, e)
    requires !state.flag.ReadCar? && !state.flag.AdvanceOut? && !state.flag.Announce?
    ensures var after := FlagStep(state);
      RingLeft(after.Side(e), after.flag, after.car, e)
  {
  }

  lemma AdvanceKeepsLeft(state: State, e: Direction)
    requires RingLeft(state.Side(e), state.flag, state.car, e) && (state.flag.AdvanceOut? || state.flag.Announce?)
    ensures var after := FlagStep(state);
      RingLeft(after.Side(e), after.flag, after.car, e)
  {
    var side := state.Side(e);
    if state.flag == Announce(e) {
      assert side.left + [state.car] == side.arrived[..|side.left| + 1];
    }
  }

  lemma FlagKeepsLeft(state: State, e: Direction)
    requires RingOk(state.Side(e), state.flag, state.car, e)
    requires EmptyOk(state.Side(e), state.flag, e) && FullOk(state.Side(e), state.flag, e)
    requires Flagperson !in state.Side(e).full.waiting
    ensures var after := FlagStep(state);
      RingLeft(after.Side(e), after.flag, after.car, e)
  {
    if state.flag.ReadCar? {
      ReadCarKeepsLeft(state, state.flag.serving, e);
    } else if state.flag.AdvanceOut? || state.flag.Announce? {
      AdvanceKeepsLeft(state, e);
    } else {
      OtherwiseKeepsLeft(state, e);
    }
  }

  // ---------- car numbers ----------

  /** The numbers drawn for one direction, in order; the `k`-th draw is car number `k + 1`. */
  function Numbers(drawn: seq<Direction>, d: Direction): seq<int> {
    if drawn == [] then []
    else
      var last := |drawn| - 1;
      Numbers(drawn[..last], d) + if drawn[last] == d then [|drawn|] else []
  }

  lemma NumbersAppend(drawn: seq<Direction>, d: Direction, e: Direction)
    ensures Numbers(drawn + [d], e) == Numbers(drawn, e) + if d == e then [|drawn| + 1] else []
  {
    assert (drawn + [d])[..|drawn|] == drawn;
  }

  /** A number drawn and not yet stored is the last one drawn. */
  ghost predicate NumbersOk(side: Side, drawn: seq<Direction>, totalCars: int, d: Direction) {
    && |drawn| == totalCars
    && Numbers(drawn, d) == side.arrived + if side.at.StoreCar? then [totalCars] else []
  }

  lemma DrawKeepsNumbers(state: State, d: Direction, e: Direction)
    requires NumbersOk(state.Side(e), state.drawn, state.totalCars, e) && state.Side(d).at.CountCar?
    requires MutexOk(state.mutex, state.north.at, state.south.at, state.flag) && Producer(d) !in state.mutex.waiting
    ensures var after := ProducerStep(state, d);
      NumbersOk(after.Side(e), after.drawn, after.totalCars, e)
  {
    NumbersAppend(state.drawn, d, e);
    if state.Side(e).at.StoreCar? {
      OnlyOneInside(state, Producer(d), Producer(e));
    }
  }

  lemma ProducerKeepsNumbers(state: State, d: Direction, e: Direction)
    requires NumbersOk(state.Side(e), state.drawn, state.totalCars, e)
    requires RingCounts(state.Side(d), state.flag, d)
    requires MutexOk(state.mutex, state.north.at, state.south.at, state.flag) && Producer(d) !in state.mutex.waiting
    ensures var after := ProducerStep(state, d);
      NumbersOk(after.Side(e), after.drawn, after.totalCars, e)
  {
    if state.Side(d).at.CountCar? {
      DrawKeepsNumbers(state, d, e);
    }
  }

  lemma FlagLeavesArrivals(state: State, e: Direction)
    ensures var after := FlagStep(state);
      && after.Side(e).arrived == state.Side(e).arrived && after.Side(e).at == state.Side(e).at
      && after.drawn == state.drawn && after.totalCars == state.totalCars
  {
  }

  lemma FlagKeepsNumbers(state: State, e: Direction)
    requires NumbersOk(state.Side(e), state.drawn, state.totalCars, e)
    ensures var after := FlagStep(state);
      NumbersOk(after.Side(e), after.drawn, after.totalCars, e)
  {
    FlagLeavesArrivals(state, e);
  }

  // ---------- honking and falling asleep ----------

  ghost predicate Alternates(events: seq<Event>) {
    forall i :: 0 <= i < |events| - 1 ==> events[i].Honk? != events[i + 1].Honk?
  }

  /** Where the flagperson is while the next car has to honk: before the first round, or from the announcement of
      falling asleep up to waking. */
  ghost predicate Quiet(flag: FlagAt, cum: Gate, events: seq<Event>) {
    || ((flag.DownMutexFirst? || flag.SleepCheck?) && events == [])
    || ((flag.UpMutexFirst? || flag.DownCum? || (flag.DownMutexAgain? && cum.waiting != [])) &&
        events != [] && events[|events| - 1].FallsAsleep?)
  }

  /** Nobody is queued, but for a car counted a moment ago that is about to honk. */
  ghost predicate NobodyQueued(side: Side) {
    side.count == Bit(side.at.HonkCheck?)
  }

  ghost predicate HonkOk(state: State) {
    && (state.honked == 'Y' || state.honked == 'N')
    && Alternates(state.events)
    && (state.honked == 'Y' ==>
          && (state.direction == 'N' || state.direction == 'S')
          && state.events != [] && state.events[|state.events| - 1].Honk?)
    && (state.honked == 'N' ==>
          Quiet(state.flag, state.cum, state.events) && NobodyQueued(state.north) && NobodyQueued(state.south))
  }

  /** While the next car has to honk, the flagperson cannot be woken. */
  lemma NoCarWhileQuiet(state: State, d: Direction)
    requires CumOk(state.cum, state.north, state.south, state.flag) && state.honked == 'N' && HonkOk(state)
    ensures !state.Side(d).at.UpCum?
    ensures state.flag.DownCum? ==> state.cum.value <= 0
  {
  }

  lemma ProducerKeepsHonk(state: State, d: Direction)
    requires HonkOk(state) && CumOk(state.cum, state.north, state.south, state.flag)
    ensures HonkOk(ProducerStep(state, d))
  {
    if state.Side(d).at.HonkCheck? {
      HonkCheckKeepsHonk(state, d);
    } else {
      if state.honked == 'N' {
        NoCarWhileQuiet(state, d);
      }
      OtherwiseKeepsHonk(state, d);
    }
  }

  lemma HonkCheckKeepsHonk(state: State, d: Direction)
    requires HonkOk(state) && state.Side(d).at.HonkCheck?
    ensures HonkOk(ProducerStep(state, d))
  {
  }

  lemma OtherwiseKeepsHonk(state: State, d: Direction)
    requires HonkOk(state) && !state.Side(d).at.HonkCheck? && (state.honked == 'N' ==> !state.Side(d).at.UpCum?)
    ensures HonkOk(ProducerStep(state, d))
  {
  }

  lemma SleepCheckKeepsHonk(state: State)
    requires HonkOk(state) && state.flag.SleepCheck? && Flagperson !in state.mutex.waiting
    requires MutexOk(state.mutex, state.north.at, state.south.at, state.flag)
    ensures HonkOk(FlagStep(state))
  {
    if state.north.at.HonkCheck? && Producer(North) !in state.mutex.waiting {
      OnlyOneInside(state, Flagperson, Producer(North));
    }
    if state.south.at.HonkCheck? && Producer(South) !in state.mutex.waiting {
      OnlyOneInside(state, Flagperson, Producer(South));
    }
  }

  lemma FlagKeepsHonk(state: State)
    requires HonkOk(state) && CumOk(state.cum, state.north, state.south, state.flag)
    requires MutexOk(state.mutex, state.north.at, state.south.at, state.flag)
    requires Flagperson !in state.mutex.waiting && Flagperson !in state.cum.waiting
    ensures HonkOk(FlagStep(state))
  {
    if state.flag.SleepCheck? {
      SleepCheckKeepsHonk(state);
    } else if state.honked == 'N' {
      NoCarWhileQuiet(state, North);
    }
  }

  // ---------- whom the flagperson serves ----------

  /** The direction chosen had a car waiting; and if the other one had 8 or more, that one is chosen next. */
  ghost predicate Fair(selections: seq<Selection>) {
    && (forall i :: 0 <= i < |selections| ==> SoundChoice(selections[i]))
    && forall i :: 0 <= i < |selections| - 1 && Bypasses(selections[i]) ==>
         selections[i + 1].chosen != selections[i].chosen
  }

  predicate SoundChoice(s: Selection) {
    (s.chosen == 'N' && s.northCount >= 1) || (s.chosen == 'S' && s.southCount >= 1)
  }

  /** The choice passes over a direction with 8 or more cars waiting. */
  predicate Bypasses(s: Selection) {
    (s.chosen == 'N' && s.southCount >= 8) || (s.chosen == 'S' && s.northCount >= 8)
  }

  /** Since a bypass the flagperson has not turned, and the direction passed over still has 8 or more waiting. */
  ghost predicate StillBypassed(state: State, last: Selection) {
    && (last.chosen == 'N' && last.southCount >= 8 ==> state.direction == 'N' && state.south.count >= 8)
    && (last.chosen == 'S' && last.northCount >= 8 ==> state.direction == 'S' && state.north.count >= 8)
  }

  /** The branch the flagperson is in is that of the last choice, and its queue is not empty. */
  ghost predicate Serving(state: State, last: Selection) {
    && (state.flag.DownFull? ==>
          && state.honked == 'Y' && state.direction == last.chosen
          && (state.direction == 'N' ==> state.north.count >= 1) && (state.direction == 'S' ==> state.south.count >= 1))
    && (state.flag.ReadCar? || state.flag.CountDown? ==>
          && state.honked == 'Y' && last.chosen == Letter(state.flag.serving)
          && state.Side(state.flag.serving).count >= 1)
  }

  ghost predicate ServeOk(state: State) {
    && Fair(state.selections)
    && (state.flag.DownFull? || state.flag.ReadCar? || state.flag.CountDown? ==> state.selections != [])
    && (state.selections != [] ==>
          var last := state.selections[|state.selections| - 1];
          StillBypassed(state, last) && Serving(state, last))
  }

  /** What a producer's statement leaves alone, as far as the flagperson's choices go. */
  ghost predicate OnlyAddsCars(before: State, after: State) {
    && after.flag == before.flag && after.selections == before.selections
    && after.north.count >= before.north.count && after.south.count >= before.south.count
    && (before.honked == 'Y' ==> after.honked == 'Y' && after.direction == before.direction)
  }

  lemma ProducerOnlyAddsCars(state: State, d: Direction)
    ensures OnlyAddsCars(state, ProducerStep(state, d))
  {
  }

  lemma AddedCarsKeepServe(before: State, after: State)
    requires ServeOk(before) && HonkOk(before) && OnlyAddsCars(before, after)
    ensures ServeOk(after)
  {
  }

  lemma ProducerKeepsServe(state: State, d: Direction)
    requires ServeOk(state) && HonkOk(state)
    ensures ServeOk(ProducerStep(state, d))
  {
    ProducerOnlyAddsCars(state, d);
    AddedCarsKeepServe(state, ProducerStep(state, d));
  }

  /** At every choice some queue is not empty, and the direction in force is a real one. */
  lemma SomebodyQueued(state: State)
    requires state.flag.Choose? && HonkOk(state) && CumOk(state.cum, state.north, state.south, state.flag)
    ensures state.north.count + state.south.count >= 1
    ensures state.honked == 'Y' && (state.direction == 'N' || state.direction == 'S')
  {
  }

  lemma ChooseKeepsServe(state: State)
    requires ServeOk(state) && HonkOk(state) && CumOk(state.cum, state.north, state.south, state.flag)
    requires state.north.count >= 0 && state.south.count >= 0 && state.flag.Choose?
    ensures ServeOk(FlagStep(state))
  {
    SomebodyQueued(state);
    var after := FlagStep(state);
    var n := |state.selections|;
    assert SoundChoice(after.selections[n]);
    if n > 0 && Bypasses(state.selections[n - 1]) {
      assert after.selections[n].chosen != state.selections[n - 1].chosen;
    }
  }

  lemma FlagKeepsServe(state: State)
    requires ServeOk(state) && HonkOk(state) && CumOk(state.cum, state.north, state.south, state.flag)
    requires state.north.count >= 0 && state.south.count >= 0
    ensures ServeOk(FlagStep(state))
  {
    if state.flag.Choose? {
      ChooseKeepsServe(state);
    } else if state.flag.DownFull? || state.flag.ReadCar? || state.flag.CountDown? {
      BranchKeepsServe(state);
    } else {
      OtherwiseKeepsServe(state);
    }
  }

  /** Inside the branch of one direction only that direction's count falls, by one. */
  lemma BranchKeepsServe(state: State)
    requires ServeOk(state) && (state.flag.DownFull? || state.flag.ReadCar? || state.flag.CountDown?)
    ensures ServeOk(FlagStep(state))
  {
  }

  lemma OtherwiseKeepsServe(state: State)
    requires ServeOk(state)
    requires !state.flag.Choose? && !state.flag.DownFull? && !state.flag.ReadCar? && !state.flag.CountDown?
    ensures ServeOk(FlagStep(state))
  {
  }
}
