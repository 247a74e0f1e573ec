/** How the flagperson chooses, what a honk and the announcement of falling asleep say, and how many cars can queue. */
module TrafficChoices {
  import opened Traffic
  import opened Permits
  import opened TrafficInvariant
  import opened TrafficTheorems
  import opened TrafficProgress

  // ---------- when the flagperson turns ----------

  /** At every choice the flagperson turns exactly if the direction in force has no car queued or the other one has 8 or
      more; the choice is logged with the counts it was made on. */
  lemma TurnsExactlyWhen(run: seq<State>, schedule: seq<Process>, k: nat)
    requires IsRun(run, schedule) && k < |schedule| && schedule[k] == Flagperson && run[k].flag.Choose?
    ensures var before, after := run[k], run[k + 1];
      && (before.direction == 'N' || before.direction == 'S')
      && (after.direction == 'N' || after.direction == 'S')
      && after.selections ==
         before.selections + [Selection(after.direction, before.north.count, before.south.count)]
      && (before.direction == 'N' ==>
            (after.direction == 'S' <==> before.north.count == 0 || before.south.count >= 8))
      && (before.direction == 'S' ==>
            (after.direction == 'N' <==> before.south.count == 0 || before.north.count >= 8))
  {
    AlwaysInvariant(run, schedule, k);
    SomebodyQueued(run[k]);
  }

  // ---------- between two choices ----------

  function Honks(events: seq<Event>): nat {
    if events == [] then 0
    else
      var last := |events| - 1;
      Honks(events[..last]) + if events[last].Honk? then 1 else 0
  }

  lemma HonksAppend(events: seq<Event>, e: Event)
    ensures Honks(events + [e]) == Honks(events) + if e.Honk? then 1 else 0
  {
    assert (events + [e])[..|events|] == events;
  }

  /** Choices and honks so far. */
  function Turns(state: State): nat {
    |state.selections| + Honks(state.events)
  }

  lemma ProducerTurns(state: State, d: Direction)
    ensures TurnsOrHolds(state, ProducerStep(state, d))
  {
    HonksAppend(state.events, Honk(state.totalCars));
  }

  lemma FlagTurns(state: State)
    ensures TurnsOrHolds(state, FlagStep(state))
  {
    HonksAppend(state.events, FallsAsleep);
  }

  /** A statement adds a choice or a honk, or leaves the direction alone. */
  ghost predicate TurnsOrHolds(before: State, after: State) {
    Turns(after) > Turns(before) || (Turns(after) == Turns(before) && after.direction == before.direction)
  }

  lemma StepTurns(state: State, p: Process)
    ensures TurnsOrHolds(state, Step(state, p))
  {
    match p {
      case Producer(d) => ProducerTurns(state, d);
      case Flagperson => FlagTurns(state);
    }
  }

  lemma {:induction false} HoldsThroughout(run: seq<State>, j: nat, k: nat)
    requires j <= k < |run| && forall i :: 0 <= i < |run| - 1 ==> TurnsOrHolds(run[i], run[i + 1])
    ensures Turns(run[j]) <= Turns(run[k])
    ensures Turns(run[j]) == Turns(run[k]) ==> run[k].direction == run[j].direction
  {
    if j < k {
      HoldsThroughout(run, j, k - 1);
      assert TurnsOrHolds(run[k - 1], run[k]);
    }
  }

  /** The direction in force is that of the last choice or honk. */
  lemma DirectionHolds(run: seq<State>, schedule: seq<Process>, j: nat, k: nat)
    requires IsRun(run, schedule) && j <= k <= |schedule|
    ensures Turns(run[j]) == Turns(run[k]) ==> run[k].direction == run[j].direction
  {
    forall i | 0 <= i < |run| - 1
      ensures TurnsOrHolds(run[i], run[i + 1])
    {
      StepTurns(run[i], schedule[i]);
    }
    HoldsThroughout(run, j, k);
  }

  /** Before the first honk no direction is in force. */
  lemma BlankBeforeHonk(run: seq<State>, schedule: seq<Process>, k: nat)
    requires IsRun(run, schedule) && k <= |schedule| && run[k].selections == [] && Honks(run[k].events) == 0
    ensures run[k].direction == ' '
  {
    HoldsFromStart(run, schedule, k);
  }

  lemma HoldsFromStart(run: seq<State>, schedule: seq<Process>, k: nat)
    requires IsRun(run, schedule) && k <= |schedule|
    ensures Turns(run[k]) == 0 ==> run[k].direction == ' '
  {
    DirectionHolds(run, schedule, 0, k);
    StartTurns(run[0]);
  }

  lemma StartTurns(state: State)
    requires state == START
    ensures Turns(state) == 0 && state.direction == ' '
  {
  }

  // ---------- honks ----------

  /** The process inside its region drew the last car number. */
  ghost predicate DrewLast(state: State, d: Direction) {
    InRegion(state.Side(d).at) && !state.Side(d).at.CountCar? ==>
      state.drawn != [] && state.drawn[|state.drawn| - 1] == d
  }

  lemma ProducerKeepsDrewLast(state: State, d: Direction, e: Direction)
    requires DrewLast(state, e) && RingCounts(state.Side(d), state.flag, d) && Producer(d) !in state.mutex.waiting
    requires MutexOk(state.mutex, state.north.at, state.south.at, state.flag)
    ensures DrewLast(ProducerStep(state, d), e)
  {
    if d == e {
      OwnDrewLast(state, d);
    } else {
      ProducerLeavesOther(state, d, e);
      if state.Side(d).at.CountCar? && InRegion(state.Side(e).at) && !state.Side(e).at.CountCar? {
        OnlyOneInside(state, Producer(d), Producer(e));
      }
    }
  }

  lemma OwnDrewLast(state: State, d: Direction)
    requires DrewLast(state, d) && RingCounts(state.Side(d), state.flag, d)
    ensures DrewLast(ProducerStep(state, d), d)
  {
  }

  lemma {:induction false} AlwaysDrewLast(run: seq<State>, schedule: seq<Process>, k: nat, e: Direction)
    requires IsRun(run, schedule) && k <= |schedule|
    ensures DrewLast(run[k], e)
  {
    if k == 0 {
      StartIsFresh(run[0]);
    } else {
      AlwaysDrewLast(run, schedule, k - 1, e);
      AlwaysInvariant(run, schedule, k - 1);
      match schedule[k - 1] {
        case Producer(d) =>
          assert SideOk(run[k - 1], d);
          ProducerKeepsDrewLast(run[k - 1], d, e);
        case Flagperson => FlagLeavesArrivals(run[k - 1], e);
      }
    }
  }

  /** The car that has just arrived is the last one drawn. */
  lemma ArrivedIsLast(state: State, d: Direction)
    requires DrewLast(state, d) && state.Side(d).at.HonkCheck?
    requires NumbersOk(state.Side(d), state.drawn, state.totalCars, d)
    ensures var arrived := state.Side(d).arrived;
      arrived != [] && arrived[|arrived| - 1] == state.totalCars
  {
    var arrived := state.Side(d).arrived;
    assert Numbers(state.drawn, d) == arrived + [] == arrived;
    assert Numbers(state.drawn, d) == Numbers(state.drawn[..|state.drawn| - 1], d) + [|state.drawn|];
  }

  lemma HonkStep(state: State, d: Direction)
    requires state.Side(d).at.HonkCheck? && HonkOk(state)
    ensures var after := ProducerStep(state, d);
      if state.honked == 'N' then
        after.events == state.events + [Honk(state.totalCars)] && after.direction == Letter(d) && after.honked == 'Y'
      else
        after.events == state.events && after.direction == state.direction && after.honked == state.honked == 'Y'
  {
  }

  /** A car honks exactly if it finds the flagperson asleep; the honk is that of the car that has just arrived, and
      makes its direction the one in force. */
  lemma HonkIsFromArrival(run: seq<State>, schedule: seq<Process>, j: nat, d: Direction)
    requires IsRun(run, schedule) && j < |schedule| && schedule[j] == Producer(d) && run[j].Side(d).at.HonkCheck?
    ensures var before, after, arrived := run[j], run[j + 1], run[j].Side(d).arrived;
      if before.honked == 'N' then
        && arrived != [] && after.events == before.events + [Honk(arrived[|arrived| - 1])]
        && after.direction == Letter(d) && after.honked == 'Y'
      else
        after.events == before.events && after.direction == before.direction && after.honked == before.honked == 'Y'
  {
    AlwaysInvariant(run, schedule, j);
    AlwaysDrewLast(run, schedule, j, d);
    assert SideOk(run[j], d);
    ArrivedIsLast(run[j], d);
    HonkStep(run[j], d);
  }

  /** From a honk up to the next choice the honking direction stays in force, with a car queued. */
  ghost predicate HonkHeld(state: State, d: Direction, choices: nat) {
    && state.honked == 'Y' && state.direction == Letter(d)
    && state.Side(d).count >= 1
    && |state.selections| == choices
    && (state.flag.DownMutexFirst? || state.flag.SleepCheck? || state.flag.UpMutexFirst? || state.flag.DownCum? ||
        state.flag.DownMutexAgain? || state.flag.Choose?)
  }

  lemma ProducerKeepsHonkHeld(state: State, p: Direction, d: Direction, choices: nat)
    requires HonkHeld(state, d, choices)
    ensures HonkHeld(ProducerStep(state, p), d, choices)
  {
    ProducerOnlyAddsCars(state, p);
  }

  lemma FlagKeepsHonkHeld(state: State, d: Direction, choices: nat)
    requires HonkHeld(state, d, choices) && state.north.count >= 0 && state.south.count >= 0
    ensures HonkHeld(FlagStep(state), d, choices) || |FlagStep(state).selections| > choices
  {
  }

  lemma HonkStartsHolding(state: State, d: Direction)
    requires Invariant(state) && state.Side(d).at.HonkCheck? && state.honked == 'N'
    ensures HonkHeld(ProducerStep(state, d), d, |state.selections|)
  {
    assert SideOk(state, d);
  }

  /** The direction is held until there is one more choice. */
  ghost predicate HeldSoFar(state: State, d: Direction, choices: nat) {
    HonkHeld(state, d, choices) || |state.selections| > choices
  }

  lemma HonkHeldStep(state: State, p: Process, d: Direction, choices: nat)
    requires Invariant(state) && HeldSoFar(state, d, choices)
    ensures HeldSoFar(Step(state, p), d, choices)
  {
    match p {
      case Producer(e) =>
        ProducerOnlyAddsCars(state, e);
        if HonkHeld(state, d, choices) {
          ProducerKeepsHonkHeld(state, e, d, choices);
        }
      case Flagperson =>
        assert SideOk(state, North) && SideOk(state, South);
        CountBounds(state.north, state.flag, North);
        CountBounds(state.south, state.flag, South);
        if HonkHeld(state, d, choices) {
          FlagKeepsHonkHeld(state, d, choices);
        } else {
          FlagAddsChoices(state);
        }
    }
  }

  lemma FlagAddsChoices(state: State)
    ensures |FlagStep(state).selections| >= |state.selections|
  {
  }

  lemma {:induction false} HeldThroughout(run: seq<State>, j: nat, k: nat, d: Direction, choices: nat)
    requires j <= k < |run| && HeldSoFar(run[j], d, choices)
    requires forall i :: 0 <= i < |run| - 1 && HeldSoFar(run[i], d, choices) ==> HeldSoFar(run[i + 1], d, choices)
    ensures HeldSoFar(run[k], d, choices)
  {
    if j < k {
      HeldThroughout(run, j, k - 1, d, choices);
    }
  }

  lemma HonkStaysHeld(run: seq<State>, schedule: seq<Process>, j: nat, k: nat, d: Direction, choices: nat)
    requires IsRun(run, schedule) && j <= k <= |schedule| && HeldSoFar(run[j], d, choices)
    ensures HeldSoFar(run[k], d, choices)
  {
    forall i | 0 <= i < |run| - 1 && HeldSoFar(run[i], d, choices)
      ensures HeldSoFar(run[i + 1], d, choices)
    {
      AlwaysInvariant(run, schedule, i);
      HonkHeldStep(run[i], schedule[i], d, choices);
    }
    HeldThroughout(run, j, k, d, choices);
  }

  /** The first choice after a honk starts from the honking direction, which has a car queued. */
  lemma HonkIsServed(run: seq<State>, schedule: seq<Process>, j: nat, k: nat, d: Direction)
    requires IsRun(run, schedule) && j < k <= |schedule|
    requires schedule[j] == Producer(d) && run[j].Side(d).at.HonkCheck? && run[j].honked == 'N'
    requires run[k].flag.Choose? && |run[k].selections| == |run[j].selections|
    ensures run[k].direction == Letter(d) && run[k].Side(d).count >= 1
  {
    AlwaysInvariant(run, schedule, j);
    HonkStartsHolding(run[j], d);
    HonkStaysHeld(run, schedule, j + 1, k, d, |run[j].selections|);
  }

  // ---------- falling asleep ----------

  /** Past the check for sleep and before the next choice, with nobody queued, the flagperson has announced sleep. */
  ghost predicate AnnouncedOk(state: State) {
    (state.flag.UpMutexFirst? || state.flag.DownCum? || state.flag.DownMutexAgain?) &&
    state.north.count == 0 && state.south.count == 0 ==>
      state.honked == 'N' && state.events != [] && state.events[|state.events| - 1].FallsAsleep?
  }

  lemma CountedAtHonkCheck(state: State, d: Direction)
    requires FullOk(state.Side(d), state.flag, d) && state.Side(d).at.HonkCheck? && !TakesFull(state.flag, d)
    ensures state.Side(d).count >= 1
  {
  }

  lemma ProducerKeepsAnnounced(state: State, d: Direction)
    requires AnnouncedOk(state) && FullOk(state.Side(d), state.flag, d)
    requires state.north.count >= 0 && state.south.count >= 0
    ensures AnnouncedOk(ProducerStep(state, d))
  {
    ProducerOnlyAddsCars(state, d);
    if state.Side(d).at.HonkCheck? && !TakesFull(state.flag, d) {
      CountedAtHonkCheck(state, d);
    }
  }

  lemma FlagKeepsAnnounced(state: State)
    requires AnnouncedOk(state)
    ensures AnnouncedOk(FlagStep(state))
  {
  }

  lemma {:induction false} AlwaysAnnounced(run: seq<State>, schedule: seq<Process>, k: nat)
    requires IsRun(run, schedule) && k <= |schedule|
    ensures AnnouncedOk(run[k])
  {
    if k == 0 {
      StartIsFresh(run[0]);
    } else {
      AlwaysAnnounced(run, schedule, k - 1);
      AlwaysInvariant(run, schedule, k - 1);
      AnnouncedStep(run[k - 1], schedule[k - 1]);
    }
  }

  lemma AnnouncedStep(state: State, p: Process)
    requires Invariant(state) && AnnouncedOk(state)
    ensures AnnouncedOk(Step(state, p))
  {
    match p {
      case Producer(d) =>
        assert SideOk(state, North) && SideOk(state, South);
        CountBounds(state.north, state.flag, North);
        CountBounds(state.south, state.flag, South);
        ProducerKeepsAnnounced(state, d);
      case Flagperson => FlagKeepsAnnounced(state);
    }
  }

  /** Whenever the flagperson sleeps on `cum_sem` with nobody queued, sleep has been announced and the next car has to
      honk. */
  lemma SleepIsAnnounced(run: seq<State>, schedule: seq<Process>, k: nat)
    requires IsRun(run, schedule) && k <= |schedule| && Flagperson in run[k].cum.waiting
    requires run[k].north.count == 0 && run[k].south.count == 0
    ensures run[k].honked == 'N' && run[k].events != [] && run[k].events[|run[k].events| - 1].FallsAsleep?
  {
    AlwaysInvariant(run, schedule, k);
    AlwaysAnnounced(run, schedule, k);
  }

  // ---------- a full queue ----------

  /** Only the producer of direction `d` has run since it last was at its first statement. */
  ghost predicate Alone(state: State, d: Direction) {
    Invariant(state) && state.flag.DownMutexFirst? && state.Side(Other(d)).at.DownEmpty?
  }

  lemma AloneRuns(state: State, d: Direction)
    requires Alone(state, d) && Producer(d) !in state.Side(d).empty.waiting
    ensures !Waits(state, Producer(d))
  {
    assert SideOk(state, North) && SideOk(state, South);
  }

  lemma StaysAlone(state: State, d: Direction)
    requires Alone(state, d) && !Waits(state, Producer(d))
    ensures Alone(ProducerStep(state, d), d)
  {
    ProducerKeepsInvariant(state, d);
    ProducerLeavesOther(state, d, Other(d));
    ProducerLeavesFlag(state, d);
  }

  lemma RunsDown(state: State, d: Direction)
    requires Alone(state, d)
    ensures 0 <= SideRank(state.Side(d))
    ensures SideRank(ProducerStep(state, d).Side(d)) < SideRank(state.Side(d))
  {
    assert SideOk(state, d);
    SideRankBounds(state, d);
    ProducerAdvances(state, d);
  }

  lemma RunLonger(run: seq<State>, schedule: seq<Process>, p: Process, after: State)
    requires IsRun(run, schedule) && !Waits(run[|schedule|], p) && after == Step(run[|schedule|], p)
    ensures IsRun(run + [after], schedule + [p])
  {
  }

  lemma {:induction false} RunAlone(run: seq<State>, schedule: seq<Process>, d: Direction)
    returns (run': seq<State>, schedule': seq<Process>)
    requires IsRun(run, schedule) && Alone(run[|schedule|], d)
    ensures IsRun(run', schedule') && Alone(run'[|schedule'|], d)
    ensures Producer(d) in run'[|schedule'|].Side(d).empty.waiting
    decreases SideRank(run[|schedule|].Side(d))
  {
    var state := run[|schedule|];
    if Producer(d) in state.Side(d).empty.waiting {
      return run, schedule;
    }
    AloneRuns(state, d);
    StaysAlone(state, d);
    RunsDown(state, d);
    var after := ProducerStep(state, d);
    RunLonger(run, schedule, Producer(d), after);
    run', schedule' := RunAlone(run + [after], schedule + [Producer(d)], d);
  }

  lemma FullWhenWaiting(state: State, d: Direction)
    requires Alone(state, d) && Producer(d) in state.Side(d).empty.waiting
    ensures state.Side(d).count == 24
  {
    assert SideOk(state, d);
  }

  lemma FreshIsAlone(state: State, d: Direction)
    requires Fresh(state)
    ensures Alone(state, d)
  {
    FreshInvariant(state);
    assert state.Side(Other(d)).at.DownEmpty?;
  }

  lemma NoSteps() returns (run: seq<State>)
    ensures IsRun(run, []) && Fresh(run[0])
  {
    run := [START];
    StartIsFresh(run[0]);
  }

  /** As many as 24 cars of one direction can queue, and the next one has to wait. */
  lemma QueueCanFill(d: Direction) returns (run: seq<State>, schedule: seq<Process>)
    ensures IsRun(run, schedule)
    ensures run[|schedule|].Side(d).count == 24 && Producer(d) in run[|schedule|].Side(d).empty.waiting
  {
    var start := NoSteps();
    FreshIsAlone(start[0], d);
    run, schedule := RunAlone(start, [], d);
    FullWhenWaiting(run[|schedule|], d);
  }
}
