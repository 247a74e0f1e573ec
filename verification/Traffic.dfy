/** Two producers of cars and a flagperson, interleaved statement by statement over six semaphores and two rings. */
module Traffic {
  import opened Semaphore

  datatype Direction = North | South

  /** The three processes; a producer is named after its direction. */
  datatype Process = Producer(direction: Direction) | Flagperson

  type Gate = Sem<Process>

  const BUFFER_SIZE := 24

  const ZEROS: seq<int> :=
    [0, 0, 0, 0, 0, 0, 0, 0, 0, 0, 0, 0, 0, 0, 0, 0, 0, 0, 0, 0, 0, 0, 0, 0]

  type Ring = buffer: seq<int> | |buffer| == BUFFER_SIZE witness ZEROS

  /** The statement a producer is about to run. */
  datatype ProducerAt = DownEmpty | DownMutex | CountCar | StoreCar | AdvanceIn | CountUp | HonkCheck | UpMutex | UpFull
                      | UpCum

  /** The statement the flagperson is about to run; from `ReadCar` on, inside the branch of one direction. */
  datatype FlagAt = DownMutexFirst | SleepCheck | UpMutexFirst | DownCum | DownMutexAgain | Choose | DownFull
                  | ReadCar(serving: Direction) | CountDown(serving: Direction) | AdvanceOut(serving: Direction)
                  | UpMutexAgain(serving: Direction) | Announce(serving: Direction) | UpEmpty(serving: Direction)

  /** What the shared memory holds for one direction, with its producer's place. `arrived` and `left` are the car
      numbers stored and announced as gone so far. */
  datatype Side = Side(at: ProducerAt, empty: Gate, full: Gate, count: int, buffer: Ring, input: int,
                       output: int, arrived: seq<int>, left: seq<int>)

  datatype Event = Honk(car: int) | FallsAsleep

  /** A choice of direction, with the counts it was made on. */
  datatype Selection = Selection(chosen: char, northCount: int, southCount: int)

  /** `drawn` lists the direction each car number was drawn for, `events` the announcements, and `selections` the
      flagperson's choices so far. */
  datatype State = State(north: Side, south: Side, mutex: Gate, cum: Gate, totalCars: int, direction: char,
                         honked: char, flag: FlagAt, car: int, drawn: seq<Direction>, events: seq<Event>,
                         selections: seq<Selection>)
  {
    function Side(d: Direction): Side {
      if d == North then north else south
    }

    function WithSide(d: Direction, side: Side): State {
      if d == North then this.(north := side) else this.(south := side)
    }
  }

  function Letter(d: Direction): char {
    if d == North then 'N' else 'S'
  }

  function Other(d: Direction): Direction {
    if d == North then South else North
  }

  const START_SIDE := Side(DownEmpty, Sem(BUFFER_SIZE, []), Sem(0, []), 0, ZEROS, 0, 0, [], [])

  const START := State(START_SIDE, START_SIDE, Sem(1, []), Sem(0, []), 0, ' ', 'N', DownMutexFirst, 0, [], [], [])

  // ---------- the statements ----------

  function ProducerStep(state: State, d: Direction): State
  {
    var me, side := Producer(d), state.Side(d);
    match side.at
    case DownEmpty => state.WithSide(d, side.(at := DownMutex, empty := Down(side.empty, me)))
    case DownMutex => state.WithSide(d, side.(at := CountCar)).(mutex := Down(state.mutex, me))
    case CountCar =>
      state.WithSide(d, side.(at := StoreCar)).(totalCars := state.totalCars + 1, drawn := state.drawn + [d])
    case StoreCar =>
      if 0 <= side.input < BUFFER_SIZE then
        state.WithSide(d, side.(at := AdvanceIn, buffer := side.buffer[side.input := state.totalCars],
                                arrived := side.arrived + [state.totalCars]))
      else state
    case AdvanceIn => state.WithSide(d, side.(at := CountUp, input := (side.input + 1) % BUFFER_SIZE))
    case CountUp => state.WithSide(d, side.(at := HonkCheck, count := side.count + 1))
    case HonkCheck =>
      var next := state.WithSide(d, side.(at := UpMutex));
      if state.honked == 'N' then
        next.(honked := 'Y', direction := Letter(d), events := state.events + [Honk(state.totalCars)])
      else next
    case UpMutex => state.WithSide(d, side.(at := UpFull)).(mutex := Up(state.mutex))
    case UpFull => state.WithSide(d, side.(at := UpCum, full := Up(side.full)))
    case UpCum => state.WithSide(d, side.(at := DownEmpty)).(cum := Up(state.cum))
  }

  /** The direction to serve, given the direction in force. */
  function Switched(direction: char, northCount: int, southCount: int): char {
    if (northCount == 0 && direction == 'N') || (southCount == 0 && direction == 'S') ||
       (direction == 'N' && southCount >= 8) || (direction == 'S' && northCount >= 8)
    then if direction == 'N' then 'S' else 'N'
    else direction
  }

  function FlagStep(state: State): State
  {
    match state.flag
    case DownMutexFirst => state.(flag := SleepCheck, mutex := Down(state.mutex, Flagperson))
    case SleepCheck =>
      if state.north.count == 0 && state.south.count == 0 then
        state.(flag := UpMutexFirst, honked := 'N', events := state.events + [FallsAsleep])
      else state.(flag := UpMutexFirst)
    case UpMutexFirst => state.(flag := DownCum, mutex := Up(state.mutex))
    case DownCum => state.(flag := DownMutexAgain, cum := Down(state.cum, Flagperson))
    case DownMutexAgain => state.(flag := Choose, mutex := Down(state.mutex, Flagperson))
    case Choose =>
      var direction := Switched(state.direction, state.north.count, state.south.count);
      state.(flag := DownFull, direction := direction,
             selections := state.selections + [Selection(direction, state.north.count, state.south.count)])
    case DownFull =>
      if state.direction == 'N' then
        state.WithSide(North, state.north.(full := Down(state.north.full, Flagperson))).(flag := ReadCar(North))
      else if state.direction == 'S' then
        state.WithSide(South, state.south.(full := Down(state.south.full, Flagperson))).(flag := ReadCar(South))
      else state.(flag := DownMutexFirst)
    case ReadCar(d) =>
      state.(flag := CountDown(d), car := state.Side(d).buffer[state.Side(d).output % BUFFER_SIZE])
    case CountDown(d) =>
      state.WithSide(d, state.Side(d).(count := state.Side(d).count - 1)).(flag := AdvanceOut(d))
    case AdvanceOut(d) =>
      state.WithSide(d, state.Side(d).(output := state.Side(d).output + 1)).(flag := UpMutexAgain(d))
    case UpMutexAgain(d) => state.(flag := Announce(d), mutex := Up(state.mutex))
    case Announce(d) =>
      state.WithSide(d, state.Side(d).(left := state.Side(d).left + [state.car])).(flag := UpEmpty(d))
    case UpEmpty(d) =>
      state.WithSide(d, state.Side(d).(empty := Up(state.Side(d).empty))).(flag := DownMutexFirst)
  }

  /** A process waiting in some semaphore's queue runs no statement until it is woken. */
  predicate Waits(state: State, p: Process) {
    || p in state.mutex.waiting || p in state.cum.waiting
    || p in state.north.empty.waiting || p in state.north.full.waiting
    || p in state.south.empty.waiting || p in state.south.full.waiting
  }

  /** One statement of a process that is not waiting. */
  function Step(state: State, p: Process): State
  {
    match p
    case Producer(d) => ProducerStep(state, d)
    case Flagperson => FlagStep(state)
  }

  ghost predicate IsRun(run: seq<State>, schedule: seq<Process>) {
    && |run| == |schedule| + 1
    && run[0] == START
    && forall k :: 0 <= k < |schedule| ==>
         !Waits(run[k], schedule[k]) && run[k + 1] == Step(run[k], schedule[k])
  }
}
