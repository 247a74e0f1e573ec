/** What holds of the traffic system in every interleaving of its three processes. */
module TrafficTheorems {
  import opened Semaphore
  import opened Traffic
  import opened Permits
  import opened TrafficInvariant

  ghost predicate SideOk(state: State, d: Direction) {
    && EmptyOk(state.Side(d), state.flag, d)
    && FullOk(state.Side(d), state.flag, d)
    && RingOk(state.Side(d), state.flag, state.car, d)
    && NumbersOk(state.Side(d), state.drawn, state.totalCars, d)
  }

  ghost predicate Invariant(state: State) {
    && SideOk(state, North) && SideOk(state, South)
    && CumOk(state.cum, state.north, state.south, state.flag)
    && MutexOk(state.mutex, state.north.at, state.south.at, state.flag)
    && HonkOk(state)
    && ServeOk(state)
  }

  lemma ProducerKeepsSide(state: State, d: Direction, e: Direction)
    requires SideOk(state, e) && RingOk(state.Side(d), state.flag, state.car, d) && !Waits(state, Producer(d))
    requires MutexOk(state.mutex, state.north.at, state.south.at, state.flag)
    ensures SideOk(ProducerStep(state, d), e)
  {
    ProducerKeepsEmpty(state, d, e);
    ProducerKeepsFull(state, d, e);
    ProducerKeepsCounts(state, d, e);
    ProducerKeepsUnread(state, d, e);
    ProducerKeepsLeft(state, d, e);
    ProducerKeepsNumbers(state, d, e);
    ProducerLeavesFlag(state, d);
  }

  lemma ProducerLeavesFlag(state: State, d: Direction)
    ensures ProducerStep(state, d).flag == state.flag && ProducerStep(state, d).car == state.car
  {
  }

  lemma FlagKeepsSide(state: State, e: Direction)
    requires SideOk(state, e) && !Waits(state, Flagperson)
    ensures SideOk(FlagStep(state), e)
  {
    FlagKeepsEmpty(state, e);
    FlagKeepsFull(state, e);
    FlagKeepsCounts(state, e);
    FlagKeepsUnread(state, e);
    FlagKeepsLeft(state, e);
    FlagKeepsNumbers(state, e);
  }

  lemma ProducerKeepsInvariant(state: State, d: Direction)
    requires Invariant(state) && !Waits(state, Producer(d))
    ensures Invariant(ProducerStep(state, d))
  {
    ProducerKeepsSide(state, d, North);
    ProducerKeepsSide(state, d, South);
    ProducerKeepsCum(state, d);
    ProducerKeepsMutex(state, d);
    ProducerKeepsHonk(state, d);
    ProducerKeepsServe(state, d);
  }

  lemma RealDirection(state: State)
    requires ServeOk(state) && HonkOk(state) && state.flag.DownFull?
    ensures state.direction == 'N' || state.direction == 'S'
  {
  }

  lemma FlagKeepsInvariant(state: State)
    requires Invariant(state) && !Waits(state, Flagperson)
    ensures Invariant(FlagStep(state))
  {
    FlagKeepsSide(state, North);
    FlagKeepsSide(state, South);
    if state.flag.DownFull? {
      RealDirection(state);
    }
    FlagKeepsCum(state);
    FlagKeepsMutex(state);
    FlagKeepsHonk(state);
    CountBounds(state.north, state.flag, North);
    CountBounds(state.south, state.flag, South);
    FlagKeepsServe(state);
  }

  lemma {:induction false} AlwaysInvariant(run: seq<State>, schedule: seq<Process>, k: nat)
    requires IsRun(run, schedule) && k <= |schedule|
    ensures Invariant(run[k])
  {
    if k == 0 {
      StartIsFresh(run[0]);
      FreshInvariant(run[0]);
    } else {
      AlwaysInvariant(run, schedule, k - 1);
      match schedule[k - 1] {
        case Producer(d) => ProducerKeepsInvariant(run[k - 1], d);
        case Flagperson => FlagKeepsInvariant(run[k - 1]);
      }
    }
  }

  ghost predicate FreshSide(side: Side) {
    && side.at == DownEmpty && side.empty == Sem(BUFFER_SIZE, []) && side.full == Sem(0, [])
    && side.count == side.input == side.output == 0 && side.arrived == side.left == []
  }

  lemma FreshSideOk(side: Side, d: Direction)
    requires FreshSide(side)
    ensures EmptyOk(side, DownMutexFirst, d) && FullOk(side, DownMutexFirst, d)
    ensures RingOk(side, DownMutexFirst, 0, d) && NumbersOk(side, [], 0, d)
  {
  }

  ghost predicate Fresh(state: State) {
    && FreshSide(state.north) && FreshSide(state.south)
    && state.flag == DownMutexFirst && state.honked == 'N' && state.car == state.totalCars == 0
    && state.mutex == Sem(1, []) && state.cum == Sem(0, [])
    && state.drawn == [] && state.events == [] && state.selections == []
  }

  lemma StartIsFresh(state: State)
    requires state == START
    ensures Fresh(state)
  {
  }

  lemma FreshInvariant(state: State)
    requires Fresh(state)
    ensures Invariant(state)
  {
    FreshSideOk(state.north, North);
    FreshSideOk(state.south, South);
  }

  // ---------- safety ----------

  /** At most one process is inside its critical region. */
  lemma MutualExclusion(run: seq<State>, schedule: seq<Process>, k: nat, p: Process, q: Process)
    requires IsRun(run, schedule) && k <= |schedule|
    requires Inside(run[k], p) && Inside(run[k], q)
    ensures p == q
  {
    AlwaysInvariant(run, schedule, k);
    OnlyOneInside(run[k], p, q);
  }

  /** Each direction is a loss-free queue: cars leave in the order they arrived, never more than 24 are counted, and
      those not yet gone are the ones counted, in a critical region, or being waved through. */
  lemma CarsLeaveInOrder(run: seq<State>, schedule: seq<Process>, k: nat, d: Direction)
    requires IsRun(run, schedule) && k <= |schedule|
    ensures var state, side := run[k], run[k].Side(d);
      && side.left <= side.arrived
      && 0 <= side.count <= BUFFER_SIZE
      && |side.arrived| == |side.left| + side.count + Bit(side.at.AdvanceIn? || side.at.CountUp?)
                           + Bit(state.flag == AdvanceOut(d) || state.flag == UpMutexAgain(d) ||
                                 state.flag == Announce(d))
  {
    AlwaysInvariant(run, schedule, k);
    assert SideOk(run[k], d);
    CountBounds(run[k].Side(d), run[k].flag, d);
  }

  /** A producer never stores outside its ring or over a car not yet read. */
  lemma StoresAreSafe(run: seq<State>, schedule: seq<Process>, k: nat, d: Direction)
    requires IsRun(run, schedule) && k <= |schedule| && run[k].Side(d).at.StoreCar?
    ensures var side := run[k].Side(d);
      && 0 <= side.input < BUFFER_SIZE
      && forall i :: side.output <= i < |side.arrived| ==> i % BUFFER_SIZE != side.input
  {
    AlwaysInvariant(run, schedule, k);
    assert SideOk(run[k], d);
    FreeSlot(run[k].Side(d), run[k].flag, d);
  }

  lemma {:induction false} NumbersMembers(drawn: seq<Direction>, d: Direction, c: int)
    ensures c in Numbers(drawn, d) <==> 1 <= c <= |drawn| && drawn[c - 1] == d
  {
    if drawn != [] {
      NumbersMembers(drawn[..|drawn| - 1], d, c);
    }
  }

  lemma {:induction false} NumbersIncrease(drawn: seq<Direction>, d: Direction)
    ensures var numbers := Numbers(drawn, d);
      forall i, j :: 0 <= i < j < |numbers| ==> numbers[i] < numbers[j]
  {
    if drawn != [] {
      var shorter := drawn[..|drawn| - 1];
      NumbersIncrease(shorter, d);
      forall i | 0 <= i < |Numbers(shorter, d)|
        ensures Numbers(shorter, d)[i] < |drawn|
      {
        NumbersMembers(shorter, d, Numbers(shorter, d)[i]);
      }
      var numbers := Numbers(drawn, d);
      forall i, j | 0 <= i < j < |numbers|
        ensures numbers[i] < numbers[j]
      {
        assert numbers[i] == Numbers(shorter, d)[i];
      }
    }
  }

  lemma PrefixMembers(a: seq<int>, b: seq<int>)
    requires a <= b
    ensures forall c :: c in a ==> c in b
    ensures forall i :: 0 <= i < |a| ==> a[i] == b[i]
  {
    assert a == b[..|a|];
  }

  /** Car numbers are unique: they increase along each direction, no number arrives in both, and all lie between 1 and
      the number of cars so far. */
  lemma CarNumbersAreUnique(run: seq<State>, schedule: seq<Process>, k: nat, d: Direction)
    requires IsRun(run, schedule) && k <= |schedule|
    ensures var arrived := run[k].Side(d).arrived;
      && (forall i, j :: 0 <= i < j < |arrived| ==> arrived[i] < arrived[j])
      && (forall c :: c in arrived ==> 1 <= c <= run[k].totalCars && c !in run[k].Side(Other(d)).arrived)
  {
    AlwaysInvariant(run, schedule, k);
    var state := run[k];
    assert SideOk(state, d) && SideOk(state, Other(d));
    NumbersIncrease(state.drawn, d);
    var arrived, others := state.Side(d).arrived, state.Side(Other(d)).arrived;
    PrefixMembers(arrived, Numbers(state.drawn, d));
    PrefixMembers(others, Numbers(state.drawn, Other(d)));
    forall i, j | 0 <= i < j < |arrived|
      ensures arrived[i] < arrived[j]
    {
      assert arrived[i] == Numbers(state.drawn, d)[i] && arrived[j] == Numbers(state.drawn, d)[j];
    }
    forall c | c in arrived
      ensures 1 <= c <= state.totalCars && c !in others
    {
      NumbersMembers(state.drawn, d, c);
      NumbersMembers(state.drawn, Other(d), c);
    }
  }

  /** Honks and announcements of falling asleep alternate strictly. */
  lemma HonksAndSleepAlternate(run: seq<State>, schedule: seq<Process>, k: nat)
    requires IsRun(run, schedule) && k <= |schedule|
    ensures forall i :: 0 <= i < |run[k].events| - 1 ==> run[k].events[i].Honk? != run[k].events[i + 1].Honk?
  {
    AlwaysInvariant(run, schedule, k);
  }

  /** The flagperson only ever chooses a direction with a car queued, and after passing over a direction with 8 or more
      queued chooses that one next. */
  lemma FlagpersonIsFair(run: seq<State>, schedule: seq<Process>, k: nat)
    requires IsRun(run, schedule) && k <= |schedule|
    ensures var selections := run[k].selections;
      && (forall i :: 0 <= i < |selections| ==> SoundChoice(selections[i]))
      && (forall i :: 0 <= i < |selections| - 1 ==>
            && (selections[i].chosen == 'N' && selections[i].southCount >= 8 ==> selections[i + 1].chosen == 'S')
            && (selections[i].chosen == 'S' && selections[i].northCount >= 8 ==> selections[i + 1].chosen == 'N'))
  {
    AlwaysInvariant(run, schedule, k);
    var selections := run[k].selections;
    forall i | 0 <= i < |selections| - 1
      ensures selections[i].chosen == 'N' && selections[i].southCount >= 8 ==> selections[i + 1].chosen == 'S'
      ensures selections[i].chosen == 'S' && selections[i].northCount >= 8 ==> selections[i + 1].chosen == 'N'
    {
      assert SoundChoice(selections[i]) && SoundChoice(selections[i + 1]);
      assert Bypasses(selections[i]) ==> selections[i + 1].chosen != selections[i].chosen;
    }
  }

  // ---------- progress ----------

  /** The flagperson may wait for `full` while holding `mutex`; the producer concerned has then released `mutex` and is
      about to raise `full`, waiting for nothing. */
  lemma FullIsOwed(run: seq<State>, schedule: seq<Process>, k: nat, d: Direction)
    requires IsRun(run, schedule) && k <= |schedule|
    requires Flagperson in run[k].Side(d).full.waiting
    ensures Inside(run[k], Flagperson)
    ensures run[k].Side(d).at == UpFull && !Waits(run[k], Producer(d))
  {
    AlwaysInvariant(run, schedule, k);
    FullIsOwedIn(run[k], d);
  }

  lemma FullIsOwedIn(state: State, d: Direction)
    requires Invariant(state) && Flagperson in state.Side(d).full.waiting
    ensures Inside(state, Flagperson)
    ensures state.Side(d).at == UpFull && !Waits(state, Producer(d))
  {
    assert SideOk(state, d);
    assert state.flag == ReadCar(d) && Flagperson !in state.mutex.waiting;
    assert OwesFull(state.Side(d).at);
    if InRegion(state.Side(d).at) {
      OnlyOneInside(state, Flagperson, Producer(d));
    }
  }

  /** While the flagperson sleeps on `cum_sem`, the only cars queued are those whose producer is still to wake it. */
  lemma SleepsOnlyWhileEmpty(run: seq<State>, schedule: seq<Process>, k: nat)
    requires IsRun(run, schedule) && k <= |schedule| && Flagperson in run[k].cum.waiting
    ensures run[k].north.count + run[k].south.count == Bit(OwesCum(run[k].north.at)) + Bit(OwesCum(run[k].south.at))
  {
    AlwaysInvariant(run, schedule, k);
  }

  /** In no reachable state do all three processes wait. */
  lemma NoDeadlock(run: seq<State>, schedule: seq<Process>, k: nat)
    requires IsRun(run, schedule) && k <= |schedule|
    ensures exists p :: !Waits(run[k], p)
  {
    AlwaysInvariant(run, schedule, k);
    SomebodyRuns(run[k]);
  }

  /** Somebody waiting for `mutex` means that somebody else is inside and not waiting for anything but `full`. */
  lemma HolderRuns(state: State)
    requires Invariant(state) && state.mutex.waiting != []
    requires Waits(state, Producer(North)) && Waits(state, Producer(South))
    ensures !Waits(state, Flagperson)
  {
    var waiting := state.mutex.waiting;
    OneOfThree(waiting[0]);
    if |waiting| > 1 {
      OneOfThree(waiting[1]);
      assert waiting[1] in waiting;
    }
    assert waiting[0] in waiting;
    assert SideOk(state, North) && SideOk(state, South);
    if Flagperson in state.north.full.waiting {
      FullIsOwedIn(state, North);
    }
    if Flagperson in state.south.full.waiting {
      FullIsOwedIn(state, South);
    }
  }

  lemma SomebodyRuns(state: State)
    requires Invariant(state)
    ensures exists p :: !Waits(state, p)
  {
    if !Waits(state, Producer(North)) || !Waits(state, Producer(South)) {
      return;
    }
    assert SideOk(state, North) && SideOk(state, South);
    if state.mutex.waiting != [] {
      HolderRuns(state);
    } else if Flagperson in state.north.full.waiting {
      FullIsOwedIn(state, North);
    } else if Flagperson in state.south.full.waiting {
      FullIsOwedIn(state, South);
    } else {
      assert Flagperson !in state.cum.waiting;
      assert !Waits(state, Flagperson);
    }
  }
}
