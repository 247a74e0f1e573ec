/** How the traffic moves: one car for each choice of the flagperson, and a car at least every so many statements. */
module TrafficProgress {
  import opened Traffic
  import opened Permits
  import opened TrafficInvariant
  import opened TrafficTheorems

  // ---------- one car for each choice ----------

  /** How often direction `c` has been chosen. */
  function Chosen(selections: seq<Selection>, c: char): nat {
    if selections == [] then 0
    else
      var last := |selections| - 1;
      Chosen(selections[..last], c) + if selections[last].chosen == c then 1 else 0
  }

  lemma ChosenAppend(selections: seq<Selection>, s: Selection, c: char)
    ensures Chosen(selections + [s], c) == Chosen(selections, c) + if s.chosen == c then 1 else 0
  {
    assert (selections + [s])[..|selections|] == selections;
  }

  /** Direction `d` has been chosen, and its car is not gone yet. */
  predicate UnderWay(flag: FlagAt, direction: char, d: Direction) {
    || (flag.DownFull? && direction == Letter(d))
    || flag == ReadCar(d) || flag == CountDown(d) || flag == AdvanceOut(d) || flag == UpMutexAgain(d)
    || flag == Announce(d)
  }

  ghost predicate TurnsOk(state: State, d: Direction) {
    |state.Side(d).left| + Bit(UnderWay(state.flag, state.direction, d)) == Chosen(state.selections, Letter(d))
  }

  lemma ProducerKeepsTurns(state: State, d: Direction, e: Direction)
    requires TurnsOk(state, e) && ServeOk(state)
    ensures TurnsOk(ProducerStep(state, d), e)
  {
    ProducerOnlyAddsCars(state, d);
  }

  lemma FlagKeepsTurns(state: State, e: Direction)
    requires TurnsOk(state, e) && ServeOk(state) && HonkOk(state)
    ensures TurnsOk(FlagStep(state), e)
  {
    if state.flag.Choose? {
      ChooseKeepsTurns(state, e);
    } else if state.flag.DownFull? {
      RealDirection(state);
      DownFullKeepsTurns(state, e);
    } else {
      OtherwiseKeepsTurns(state, e);
    }
  }

  lemma ChooseKeepsTurns(state: State, e: Direction)
    requires TurnsOk(state, e) && state.flag.Choose?
    ensures TurnsOk(FlagStep(state), e)
  {
    var n := |state.selections|;
    ChosenAppend(state.selections, FlagStep(state).selections[n], Letter(e));
  }

  lemma DownFullKeepsTurns(state: State, e: Direction)
    requires TurnsOk(state, e) && state.flag.DownFull? && (state.direction == 'N' || state.direction == 'S')
    ensures TurnsOk(FlagStep(state), e)
  {
  }

  lemma OtherwiseKeepsTurns(state: State, e: Direction)
    requires TurnsOk(state, e) && !state.flag.Choose? && !state.flag.DownFull?
    ensures TurnsOk(FlagStep(state), e)
  {
  }

  lemma {:induction false} AlwaysTurns(run: seq<State>, schedule: seq<Process>, k: nat, e: Direction)
    requires IsRun(run, schedule) && k <= |schedule|
    ensures TurnsOk(run[k], e)
  {
    if k == 0 {
      StartIsFresh(run[0]);
    } else {
      AlwaysTurns(run, schedule, k - 1, e);
      AlwaysInvariant(run, schedule, k - 1);
      match schedule[k - 1] {
        case Producer(d) => ProducerKeepsTurns(run[k - 1], d, e);
        case Flagperson => FlagKeepsTurns(run[k - 1], e);
      }
    }
  }

  /** What is history only grows. */
  ghost predicate Continues(before: State, after: State, e: Direction) {
    before.selections <= after.selections && before.Side(e).left <= after.Side(e).left
  }

  lemma {:induction false} ContinuesThroughout(run: seq<State>, j: nat, k: nat, e: Direction)
    requires j <= k < |run| && forall i :: 0 <= i < |run| - 1 ==> Continues(run[i], run[i + 1], e)
    ensures Continues(run[j], run[k], e)
  {
    if j < k {
      ContinuesThroughout(run, j, k - 1, e);
      ContinuesThrough(run[j], run[k - 1], run[k], e);
    }
  }

  lemma HistoryGrows(run: seq<State>, schedule: seq<Process>, j: nat, k: nat, e: Direction)
    requires IsRun(run, schedule) && j <= k <= |schedule|
    ensures Continues(run[j], run[k], e)
  {
    forall i | 0 <= i < |run| - 1
      ensures Continues(run[i], run[i + 1], e)
    {
      StepContinues(run[i], schedule[i], e);
    }
    ContinuesThroughout(run, j, k, e);
  }

  lemma StepContinues(state: State, p: Process, e: Direction)
    ensures Continues(state, Step(state, p), e)
  {
    match p {
      case Producer(d) =>
        ProducerLeavesHistory(state, d, e);
      case Flagperson =>
        FlagContinues(state, e);
    }
  }

  lemma ProducerLeavesHistory(state: State, d: Direction, e: Direction)
    ensures var after := ProducerStep(state, d);
      after.selections == state.selections && after.Side(e).left == state.Side(e).left
  {
  }

  lemma FlagContinues(state: State, e: Direction)
    ensures Continues(state, FlagStep(state), e)
  {
  }

  lemma ContinuesThrough(a: State, b: State, c: State, e: Direction)
    requires Continues(a, b, e) && Continues(b, c, e)
    ensures Continues(a, c, e)
  {
  }

  /** From one choice to the next exactly one car leaves: the oldest of the direction chosen first. */
  lemma OneCarPerChoice(run: seq<State>, schedule: seq<Process>, j: nat, k: nat, d: Direction)
    requires IsRun(run, schedule) && j <= k <= |schedule|
    requires run[j].flag.Choose? && run[k].flag.Choose? && |run[k].selections| == |run[j].selections| + 1
    ensures var chosen := run[k].selections[|run[j].selections|].chosen;
      var before, after := run[j].Side(d).left, run[k].Side(d).left;
      if chosen == Letter(d) then
        |before| < |run[k].Side(d).arrived| && after == before + [run[k].Side(d).arrived[|before|]]
      else after == before
  {
    AlwaysTurns(run, schedule, j, d);
    AlwaysTurns(run, schedule, k, d);
    HistoryGrows(run, schedule, j, k, d);
    CarsLeaveInOrder(run, schedule, k, d);
    var n := |run[j].selections|;
    assert run[k].selections == run[j].selections + [run[k].selections[n]];
    ChosenAppend(run[j].selections, run[k].selections[n], Letter(d));
    PrefixMembers(run[k].Side(d).left, run[k].Side(d).arrived);
  }

  /** A direction with 8 or more queued waits for at most one car of the other direction: over two choices, each of
      the two lets exactly one car leave. */
  lemma LongQueueWaitsForOneCar(run: seq<State>, schedule: seq<Process>, j: nat, k: nat, d: Direction)
    requires IsRun(run, schedule) && j <= k <= |schedule|
    requires run[j].flag.Choose? && run[k].flag.Choose? && |run[k].selections| == |run[j].selections| + 2
    requires var s := run[k].selections[|run[j].selections|];
      s.chosen == Letter(Other(d)) && (if d == North then s.northCount else s.southCount) >= 8
    ensures |run[k].Side(d).left| == |run[j].Side(d).left| + 1
    ensures |run[k].Side(Other(d)).left| == |run[j].Side(Other(d)).left| + 1
  {
    var n := |run[j].selections|;
    FlagpersonIsFair(run, schedule, k);
    forall e: Direction
      ensures |run[k].Side(e).left| == |run[j].Side(e).left| + 1
    {
      AlwaysTurns(run, schedule, j, e);
      AlwaysTurns(run, schedule, k, e);
      HistoryGrows(run, schedule, j, k, e);
      var once := run[j].selections + [run[k].selections[n]];
      assert run[k].selections == once + [run[k].selections[n + 1]];
      ChosenAppend(run[j].selections, run[k].selections[n], Letter(e));
      ChosenAppend(once, run[k].selections[n + 1], Letter(e));
    }
  }

  // ---------- a car at least every so many statements ----------

  /** How many statements a producer has left in its round. */
  function ProducerLeft(at: ProducerAt): nat {
    match at
    case DownEmpty => 0
    case DownMutex => 9
    case CountCar => 8
    case StoreCar => 7
    case AdvanceIn => 6
    case CountUp => 5
    case HonkCheck => 4
    case UpMutex => 3
    case UpFull => 2
    case UpCum => 1
  }

  /** How far the flagperson is from announcing a car; giving back an empty slot is worth a producer's whole round. */
  function FlagLeft(flag: FlagAt): nat {
    match flag
    case UpEmpty(_) => 22
    case DownMutexFirst => 11
    case SleepCheck => 10
    case UpMutexFirst => 9
    case DownCum => 8
    case DownMutexAgain => 7
    case Choose => 6
    case DownFull => 5
    case ReadCar(_) => 4
    case CountDown(_) => 3
    case AdvanceOut(_) => 2
    case UpMutexAgain(_) => 1
    case Announce(_) => 0
  }

  /** A bound on the statements that can be run before a car leaves: each producer can start a round for every empty
      slot, and one more that gets stuck. */
  function Rank(state: State): int {
    SideRank(state.north) + SideRank(state.south) + FlagLeft(state.flag)
  }

  function SideRank(side: Side): int {
    10 * (side.empty.value + 1) + ProducerLeft(side.at)
  }

  const MOST_STATEMENTS := 540

  function Departures(state: State): nat {
    |state.north.left| + |state.south.left|
  }

  lemma RankBounds(state: State)
    requires Invariant(state)
    ensures 0 <= Rank(state) <= MOST_STATEMENTS
  {
    SideRankBounds(state, North);
    SideRankBounds(state, South);
    assert FlagLeft(state.flag) <= 22;
  }

  lemma SideRankBounds(state: State, d: Direction)
    requires SideOk(state, d)
    ensures 0 <= SideRank(state.Side(d)) <= 259
  {
    CountBounds(state.Side(d), state.flag, d);
  }

  /** Each statement brings the next departure nearer, or is one. */
  lemma StepLowersRank(state: State, p: Process)
    requires Invariant(state) && !Waits(state, p)
    ensures var after := Step(state, p);
      if p == Flagperson && state.flag.Announce? then Departures(after) == Departures(state) + 1
      else Departures(after) == Departures(state) && Rank(after) < Rank(state)
  {
    match p {
      case Producer(d) =>
        assert SideOk(state, d);
        ProducerLowersRank(state, d);
      case Flagperson =>
        if state.flag.DownFull? {
          RealDirection(state);
        }
        FlagLowersRank(state);
    }
  }

  lemma ProducerLowersRank(state: State, d: Direction)
    requires RingCounts(state.Side(d), state.flag, d)
    ensures var after := ProducerStep(state, d);
      Departures(after) == Departures(state) && Rank(after) < Rank(state)
  {
    ProducerAdvances(state, d);
    ProducerLeavesOther(state, d, Other(d));
    ProducerLeavesFlag(state, d);
  }

  lemma ProducerAdvances(state: State, d: Direction)
    requires RingCounts(state.Side(d), state.flag, d)
    ensures var side, side' := state.Side(d), ProducerStep(state, d).Side(d);
      side'.left == side.left && SideRank(side') < SideRank(side)
  {
  }

  lemma FlagLowersRank(state: State)
    requires state.flag.DownFull? ==> state.direction == 'N' || state.direction == 'S'
    ensures var after := FlagStep(state);
      if state.flag.Announce? then Departures(after) == Departures(state) + 1
      else Departures(after) == Departures(state) && Rank(after) < Rank(state)
  {
  }

  /** At each step the count grows, or stays while the rank falls. */
  ghost predicate Falls(ranks: seq<int>, counts: seq<nat>) {
    && |ranks| == |counts|
    && forall i :: 0 <= i < |ranks| - 1 ==>
         counts[i + 1] > counts[i] || (counts[i + 1] == counts[i] && ranks[i + 1] < ranks[i])
  }

  lemma {:induction false} RanksRunOut(ranks: seq<int>, counts: seq<nat>, j: nat, k: nat)
    requires Falls(ranks, counts) && j <= k < |ranks|
    ensures counts[j] <= counts[k]
    ensures counts[j] == counts[k] ==> ranks[k] <= ranks[j] - (k - j)
  {
    if j < k {
      RanksRunOut(ranks, counts, j, k - 1);
    }
  }

  lemma RunFalls(run: seq<State>, schedule: seq<Process>) returns (ranks: seq<int>, counts: seq<nat>)
    requires IsRun(run, schedule)
    ensures Falls(ranks, counts) && |ranks| == |run|
    ensures forall i :: 0 <= i < |run| ==> ranks[i] == Rank(run[i]) && counts[i] == Departures(run[i])
  {
    ranks := seq(|run|, i requires 0 <= i < |run| => Rank(run[i]));
    counts := seq(|run|, i requires 0 <= i < |run| => Departures(run[i]));
    forall i | 0 <= i < |run| - 1
      ensures counts[i + 1] > counts[i] || (counts[i + 1] == counts[i] && ranks[i + 1] < ranks[i])
    {
      AlwaysInvariant(run, schedule, i);
      StepLowersRank(run[i], schedule[i]);
    }
  }

  /** Among any 541 consecutive statements of any run, whatever the schedule, a car leaves. As some process can always
      run its next statement, the traffic never stops. */
  lemma TrafficMoves(run: seq<State>, schedule: seq<Process>, j: nat, k: nat)
    requires IsRun(run, schedule) && j + MOST_STATEMENTS < k <= |schedule|
    ensures Departures(run[k]) > Departures(run[j])
    ensures exists p :: !Waits(run[k], p)
  {
    var ranks, counts := RunFalls(run, schedule);
    RanksRunOut(ranks, counts, j, k);
    AlwaysInvariant(run, schedule, j);
    AlwaysInvariant(run, schedule, k);
    RankBounds(run[j]);
    RankBounds(run[k]);
    NoDeadlock(run, schedule, k);
  }
}
