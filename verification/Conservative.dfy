/** CLOCK is conservative, and so faults at most `n` times as often as any schedule in `n` frames. */
module Conservative {
  import opened Trace
  import opened VirtualMemory
  import opened Schedules
  import opened SecondChance
  import opened Belady

  // ---------- what protects the pages loaded inside a window ----------

  /** Of the queued pages, `touched` were used in the window and `loaded` came in during it. A page not touched can
      stand behind a loaded one only once its bit is gone, and must stand in front of it once the bit of the loaded
      one is gone too. */
  ghost predicate Protected(queue: Queue, touched: set<Page>, loaded: set<Page>) {
    forall i, j :: 0 <= i < |queue| && 0 <= j < |queue| && queue[i].page in loaded && queue[j].page !in touched ==>
      if queue[i].bit then i < j ==> !queue[j].bit else j < i && !queue[j].bit
  }

  lemma RotateKeepsProtected(queue: Queue, touched: set<Page>, loaded: set<Page>)
    requires queue != [] && queue[0].bit && loaded <= touched
    requires Protected(queue, touched, loaded)
    ensures Protected(Rotate(queue), touched, loaded)
  {
    var after, last := Rotate(queue), |queue| - 1;
    forall i, j | 0 <= i <= last && 0 <= j <= last && after[i].page in loaded && after[j].page !in touched
      ensures if after[i].bit then i < j ==> !after[j].bit else j < i && !after[j].bit
    {
      var i0, j0 := if i == last then 0 else i + 1, if j == last then 0 else j + 1;
      assert queue[i0].page == after[i].page && queue[j0].page == after[j].page;
    }
  }

  lemma {:induction false} SearchKeepsProtected(queue: Queue, touched: set<Page>, loaded: set<Page>)
    requires queue != [] && loaded <= touched
    requires Protected(queue, touched, loaded)
    ensures Protected(Search(queue), touched, loaded)
    decreases Chances(queue)
  {
    SearchSpins(queue);
    if queue[0].bit {
      RotateSpendsAChance(queue);
      RotateKeepsProtected(queue, touched, loaded);
      SearchKeepsProtected(Rotate(queue), touched, loaded);
    }
  }

  lemma RotateKeepsPages(queue: Queue, p: Page)
    requires queue != []
    ensures Queued(Rotate(queue), p) <==> Queued(queue, p)
  {
    var after, last := Rotate(queue), |queue| - 1;
    if Queued(queue, p) {
      var i :| 0 <= i < |queue| && queue[i].page == p;
      assert after[if i == 0 then last else i - 1].page == p;
    }
    if Queued(after, p) {
      var i :| 0 <= i < |after| && after[i].page == p;
      assert queue[if i == last then 0 else i + 1].page == p;
    }
  }

  lemma {:induction false} SearchKeepsPages(queue: Queue, p: Page)
    requires queue != []
    ensures Queued(Search(queue), p) <==> Queued(queue, p)
    decreases Chances(queue)
  {
    SearchSpins(queue);
    if queue[0].bit {
      RotateSpendsAChance(queue);
      RotateKeepsPages(queue, p);
      SearchKeepsPages(Rotate(queue), p);
    }
  }

  lemma MarkKeepsProtected(queue: Queue, touched: set<Page>, loaded: set<Page>, p: Page)
    requires Protected(queue, touched, loaded)
    ensures Protected(Mark(queue, p), touched + {p}, loaded)
  {
    var after := Mark(queue, p);
    forall i, j | 0 <= i < |after| && 0 <= j < |after| && after[i].page in loaded && after[j].page !in touched + {p}
      ensures if after[i].bit then i < j ==> !after[j].bit else j < i && !after[j].bit
    {
      assert queue[i].page == after[i].page && queue[j].page == after[j].page;
    }
  }

  lemma JoinKeepsProtected(queue: Queue, touched: set<Page>, loaded: set<Page>, p: Page)
    requires Protected(queue, touched, loaded) && !Queued(queue, p)
    ensures Protected(queue + [Slot(p, true)], touched + {p}, loaded + {p})
  {
    var after := queue + [Slot(p, true)];
    forall i, j | 0 <= i < |after| && 0 <= j < |after| && after[i].page in loaded + {p} &&
                  after[j].page !in touched + {p}
      ensures if after[i].bit then i < j ==> !after[j].bit else j < i && !after[j].bit
    {
      assert j < |queue|;
    }
  }

  lemma LeaveKeepsProtected(queue: Queue, touched: set<Page>, loaded: set<Page>)
    requires queue != [] && Protected(queue, touched, loaded)
    ensures Protected(queue[1..], touched, loaded)
  {
    forall i, j | 0 <= i < |queue| - 1 && 0 <= j < |queue| - 1 && queue[1..][i].page in loaded &&
                  queue[1..][j].page !in touched
      ensures if queue[1..][i].bit then i < j ==> !queue[1..][j].bit else j < i && !queue[1..][j].bit
    {
      assert queue[1..][i] == queue[i + 1] && queue[1..][j] == queue[j + 1];
    }
  }

  lemma LeaveKeepsAbsence(queue: Queue, p: Page)
    requires queue != []
    ensures Queued(queue[1..], p) ==> Queued(queue, p)
  {
    if Queued(queue[1..], p) {
      var i :| 0 <= i < |queue| - 1 && queue[1..][i].page == p;
      assert queue[i + 1].page == p;
    }
  }

  /** What holds of the queue throughout a window. */
  ghost predicate InWindow(queue: Queue, touched: set<Page>, loaded: set<Page>) {
    && loaded <= touched
    && Protected(queue, touched, loaded)
    && forall p :: p in loaded ==> Queued(queue, p)
  }

  lemma MarkInWindow(queue: Queue, touched: set<Page>, loaded: set<Page>, p: Page)
    requires InWindow(queue, touched, loaded)
    ensures InWindow(Mark(queue, p), touched + {p}, loaded)
  {
    MarkKeepsProtected(queue, touched, loaded, p);
    forall q | q in loaded
      ensures Queued(Mark(queue, p), q)
    {
      var i :| 0 <= i < |queue| && queue[i].page == q;
      assert Mark(queue, p)[i].page == q;
    }
  }

  lemma JoinInWindow(queue: Queue, touched: set<Page>, loaded: set<Page>, p: Page)
    requires InWindow(queue, touched, loaded) && !Queued(queue, p)
    ensures InWindow(queue + [Slot(p, true)], touched + {p}, loaded + {p})
  {
    var after := queue + [Slot(p, true)];
    JoinKeepsProtected(queue, touched, loaded, p);
    forall q | q in loaded + {p}
      ensures Queued(after, q)
    {
      if q == p {
        assert after[|queue|].page == p;
      } else {
        var i :| 0 <= i < |queue| && queue[i].page == q;
        assert after[i].page == q;
      }
    }
  }

  /** The search never settles on a page loaded in the window while some queued page is untouched. */
  lemma EvictInWindow(queue: Queue, touched: set<Page>, loaded: set<Page>, untouched: Page)
    requires queue != [] && InWindow(queue, touched, loaded)
    requires Queued(queue, untouched) && untouched !in touched
    ensures InWindow(Search(queue)[1..], touched, loaded)
  {
    var found := Search(queue);
    SearchKeepsProtected(queue, touched, loaded);
    SearchKeepsPages(queue, untouched);
    LeaveKeepsProtected(found, touched, loaded);
    var j :| 0 <= j < |found| && found[j].page == untouched;
    assert found[0].page !in loaded;
    forall q | q in loaded
      ensures Queued(found[1..], q)
    {
      SearchKeepsPages(queue, q);
      var i :| 0 <= i < |found| && found[i].page == q;
      assert found[1..][i - 1].page == q;
    }
  }

  // ---------- windows of a run ----------

  predicate FaultsAt(run: QueueRun, k: nat)
    requires k + 1 < |run.faults|
  {
    run.faults[k + 1] != run.faults[k]
  }

  /** The pages that fault from line `from` up to line `to`. */
  function FaultedPages(lines: seq<Line>, run: QueueRun, from: nat, to: nat): set<Page>
    requires from <= to <= |lines| < |run.faults|
  {
    if from == to then {}
    else FaultedPages(lines, run, from, to - 1) + (if FaultsAt(run, to - 1) then {lines[to - 1].page} else {})
  }

  /** A full queue without `p` holds a page untouched in a window of at most `n` pages that has just used `p`. */
  lemma UntouchedIsQueued(n: Positive, queue: Queue, touched: set<Page>, p: Page) returns (q: Page)
    requires |QueuedPages(queue)| == n
    requires !Queued(queue, p) && |touched + {p}| <= n
    ensures Queued(queue, q) && q !in touched
  {
    var held := QueuedPages(queue);
    if held <= touched {
      assert held + {p} <= touched + {p};
      SubsetSize(held + {p}, touched + {p});
    }
    q :| q in held && q !in touched;
  }

  lemma WindowStep(n: Positive, queue: Queue, touched: set<Page>, loaded: set<Page>, p: Page, demanded: bool)
    requires |QueuedPages(queue)| == |queue| <= n && |touched + {p}| <= n
    requires InWindow(queue, touched, loaded)
    ensures var faulted := demanded && !Queued(queue, p);
      && InWindow(QueueStep(queue, n, p, demanded), touched + {p}, loaded + if faulted then {p} else {})
      && (faulted ==> p !in loaded)
  {
    if Queued(queue, p) || !demanded {
      MarkInWindow(queue, touched, loaded, p);
      assert loaded + {} == loaded;
    } else if |queue| < n {
      JoinInWindow(queue, touched, loaded, p);
    } else {
      var untouched := UntouchedIsQueued(n, queue, touched, p);
      EvictInWindow(queue, touched, loaded, untouched);
      SearchKeepsPages(queue, p);
      LeaveKeepsAbsence(Search(queue), p);
      JoinInWindow(Search(queue)[1..], touched, loaded, p);
    }
  }

  ghost predicate WindowFacts(lines: seq<Line>, run: QueueRun, from: nat, to: nat)
    requires from <= to <= |lines| < |run.queues| == |run.faults|
  {
    var loaded := FaultedPages(lines, run, from, to);
    && InWindow(run.queues[to], Used(Listed(lines), from, to), loaded)
    && run.faults[to] == run.faults[from] + |loaded|
  }

  lemma WindowGrows(n: Positive, lines: seq<Line>, run: QueueRun, from: nat, k: nat)
    requires IsQueueRun(n, lines, run)
    requires from <= k < |lines| && |Used(Listed(lines), from, k + 1)| <= n
    requires WindowFacts(lines, run, from, k)
    ensures WindowFacts(lines, run, from, k + 1)
  {
    var requests, demanded := Listed(lines), Demands(LettersAfter(lines, k + 1));
    var loaded := FaultedPages(lines, run, from, k);
    UsedExtends(requests, from, k);
    assert RunsLine(n, lines, run, k);
    WindowStep(n, run.queues[k], Used(requests, from, k), loaded, lines[k].page, demanded);
    assert FaultedPages(lines, run, from, k + 1) == loaded + if FaultsAt(run, k) then {lines[k].page} else {};
  }

  /** Throughout a window of at most `n` pages, the pages that have faulted in it are still queued. */
  lemma {:induction false} WindowHolds(n: Positive, lines: seq<Line>, run: QueueRun, from: nat, to: nat)
    requires IsQueueRun(n, lines, run)
    requires from <= to <= |lines| && |Used(Listed(lines), from, to)| <= n
    ensures WindowFacts(lines, run, from, to)
  {
    if from == to {
      WindowStarts(lines, run, from);
    } else {
      UsedShrinks(Listed(lines), from, to - 1);
      WindowHolds(n, lines, run, from, to - 1);
      WindowGrows(n, lines, run, from, to - 1);
    }
  }

  lemma WindowStarts(lines: seq<Line>, run: QueueRun, from: nat)
    requires from <= |lines| < |run.queues| == |run.faults|
    ensures WindowFacts(lines, run, from, from)
  {
    assert FaultedPages(lines, run, from, from) == {};
  }

  lemma UsedShrinks(requests: Requests, from: nat, to: nat)
    requires from <= to < |requests|
    ensures |Used(requests, from, to)| <= |Used(requests, from, to + 1)|
  {
    UsedExtends(requests, from, to);
    SubsetSize(Used(requests, from, to), Used(requests, from, to + 1));
  }

  lemma {:induction false} FaultedPagesGrow(lines: seq<Line>, run: QueueRun, from: nat, i: nat, j: nat)
    requires from <= i < j <= |lines| < |run.faults| && FaultsAt(run, i)
    ensures lines[i].page in FaultedPages(lines, run, from, j)
  {
    if i + 1 < j {
      FaultedPagesGrow(lines, run, from, i, j - 1);
    }
  }

  lemma {:induction false} UsedGrows(requests: Requests, from: nat, i: nat, j: nat)
    requires from <= i <= j <= |requests|
    ensures Used(requests, from, i) <= Used(requests, from, j)
  {
    if i < j {
      UsedGrows(requests, from, i, j - 1);
      UsedExtends(requests, from, j - 1);
    }
  }

  lemma FaultsOnNewPage(n: Positive, lines: seq<Line>, run: QueueRun, from: nat, i: nat, j: nat, to: nat)
    requires IsQueueRun(n, lines, run)
    requires from <= i < j < to <= |lines| && |Used(Listed(lines), from, to)| <= n
    requires FaultsAt(run, i) && FaultsAt(run, j)
    ensures lines[i].page != lines[j].page
  {
    UsedGrows(Listed(lines), from, j, to);
    SubsetSize(Used(Listed(lines), from, j), Used(Listed(lines), from, to));
    WindowHolds(n, lines, run, from, j);
    FaultedPagesGrow(lines, run, from, i, j);
    assert RunsLine(n, lines, run, j);
  }

  /** In any stretch of the trace that uses at most `n` pages, no page faults twice under CLOCK, so that there are
      no more faults than pages. */
  lemma ClockIsConservative(n: Positive, lines: seq<Line>, from: nat, to: nat)
    requires from <= to <= |lines| && |Used(Listed(lines), from, to)| <= n
    ensures After(Clock, n, lines, to).faults - After(Clock, n, lines, from).faults <= |Used(Listed(lines), from, to)|
    ensures var run := ClockQueues(n, lines);
      forall i, j :: from <= i < j < to && FaultsAt(run, i) && FaultsAt(run, j) ==> lines[i].page != lines[j].page
  {
    var run := ClockQueues(n, lines);
    ClockIsQueueRun(n, lines);
    WindowHolds(n, lines, run, from, to);
    SubsetSize(FaultedPages(lines, run, from, to), Used(Listed(lines), from, to));
    forall i, j | from <= i < j < to && FaultsAt(run, i) && FaultsAt(run, j)
      ensures lines[i].page != lines[j].page
    {
      FaultsOnNewPage(n, lines, run, from, i, j, to);
    }
  }

  // ---------- phases ----------

  /** Without a fault from line `from` up to line `to`, every page used there was resident at the start. */
  lemma {:induction false} NoFaultMeansHeld(requests: Requests, n: nat, schedule: Schedule, from: nat, to: nat)
    requires IsSchedule(requests, n, schedule) && from <= to <= |requests|
    requires ScheduleFaults(requests, schedule, from, to) == 0
    ensures Used(requests, from, to) <= schedule[from] && schedule[to] <= schedule[from]
  {
    if from < to {
      NoFaultMeansHeld(requests, n, schedule, from, to - 1);
      UsedExtends(requests, from, to - 1);
    }
  }

  lemma {:induction false} FaultsSplit(requests: Requests, schedule: Schedule, from: nat, mid: nat, to: nat)
    requires from <= mid <= to <= |requests| < |schedule|
    ensures ScheduleFaults(requests, schedule, from, to) ==
            ScheduleFaults(requests, schedule, from, mid) + ScheduleFaults(requests, schedule, mid, to)
  {
    if mid < to {
      FaultsSplit(requests, schedule, from, mid, to - 1);
    }
  }

  /** After serving line `from`, `n` more pages cannot all be resident. */
  lemma PhaseCostsAFault(requests: Requests, n: Positive, schedule: Schedule, from: nat, to: nat)
    requires IsSchedule(requests, n, schedule) && from < to <= |requests|
    requires |Used(requests, from, to)| > n
    ensures ScheduleFaults(requests, schedule, from + 1, to) >= 1
  {
    if ScheduleFaults(requests, schedule, from + 1, to) == 0 {
      NoFaultMeansHeld(requests, n, schedule, from + 1, to);
      assert Used(requests, from, to) <= schedule[from + 1];
      SubsetSize(Used(requests, from, to), schedule[from + 1]);
    }
  }

  /** The last place, reached from `i`, up to which the sizes stay within `n`. */
  function LastWithin(sizes: seq<nat>, n: nat, i: nat): (end: nat)
    requires i < |sizes| && sizes[i] <= n
    ensures i <= end < |sizes| && sizes[end] <= n
    ensures end + 1 < |sizes| ==> sizes[end + 1] > n
    decreases |sizes| - i
  {
    if i + 1 < |sizes| && sizes[i + 1] <= n then LastWithin(sizes, n, i + 1) else i
  }

  /** The fault counts of a conservative policy. */
  ghost predicate IsConservative(requests: Requests, n: Positive, faults: seq<nat>) {
    && |faults| == |requests| + 1
    && forall from, to :: 0 <= from <= to <= |requests| && |Used(requests, from, to)| <= n ==>
         faults[to] <= faults[from] + |Used(requests, from, to)|
  }

  /** The longest stretch from line `from` that uses at most `n` pages. */
  lemma Phase(requests: Requests, n: Positive, faults: seq<nat>, from: nat) returns (end: nat)
    requires IsConservative(requests, n, faults) && from < |requests|
    ensures from < end <= |requests| && faults[end] <= faults[from] + n
    ensures end < |requests| ==> |Used(requests, from, end + 1)| > n
  {
    var sizes := Sizes(requests, from);
    UsedSize(requests, from, from + 1);
    end := from + LastWithin(sizes, n, 1);
    assert sizes[end - from] <= n;
  }

  /** How many pages the stretches from line `from` use, by their length. */
  function Sizes(requests: Requests, from: nat): (sizes: seq<nat>)
    requires from <= |requests|
    ensures |sizes| == |requests| - from + 1
    ensures forall to :: from <= to <= |requests| ==> sizes[to - from] == |Used(requests, from, to)|
  {
    seq(|requests| - from + 1, i requires 0 <= i <= |requests| - from => |Used(requests, from, from + i)|)
  }

  lemma OneMorePhase(n: Positive, start: nat, mid: nat, end: nat, phases: nat)
    requires mid <= start + n && end <= mid + n * phases
    ensures end <= start + n * (phases + 1)
  {
    assert n * (phases + 1) == n * phases + n;
  }

  /** Counting phases from line `from` on: a conservative policy pays at most `n` for each, the schedule at least 1
      between the first lines of consecutive phases. */
  lemma {:induction false} PhaseByPhase(requests: Requests, n: Positive, faults: seq<nat>, schedule: Schedule,
                                       from: nat)
    returns (phases: nat)
    requires IsConservative(requests, n, faults) && IsSchedule(requests, n, schedule) && from < |requests|
    ensures faults[|requests|] <= faults[from] + n * phases
    ensures phases <= 1 + ScheduleFaults(requests, schedule, from + 1, |requests|)
    decreases |requests| - from
  {
    var end := Phase(requests, n, faults, from);
    phases := 0;
    if end < |requests| {
      phases := PhaseByPhase(requests, n, faults, schedule, end);
      PhaseCostsAFault(requests, n, schedule, from, end + 1);
      FaultsSplit(requests, schedule, from + 1, end + 1, |requests|);
    }
    OneMorePhase(n, faults[from], faults[end], faults[|requests|], phases);
    phases := phases + 1;
  }

  lemma Scale(n: nat, a: nat, b: nat)
    requires a <= b
    ensures n * a <= n * b
  {
  }

  lemma ConservativeIsCompetitive(requests: Requests, n: Positive, faults: seq<nat>, schedule: Schedule)
    requires IsConservative(requests, n, faults) && IsSchedule(requests, n, schedule)
    requires forall k :: 0 <= k < |requests| ==> requests[k].Some?
    ensures faults[|requests|] <= faults[0] + n * ScheduleFaults(requests, schedule, 0, |requests|)
  {
    var cost := ScheduleFaults(requests, schedule, 0, |requests|);
    var phases := 0;
    if |requests| > 0 {
      phases := PhaseByPhase(requests, n, faults, schedule, 0);
      FaultsSplit(requests, schedule, 0, 1, |requests|);
      assert ScheduleFaults(requests, schedule, 0, 1) == 1;
    }
    Scale(n, phases, cost);
  }

  /** On every trace CLOCK in `n` frames faults at most `n` times as often as any demand-paging schedule in `n`
      frames that serves every line. */
  lemma ClockIsCompetitive(n: Positive, lines: seq<Line>, schedule: Schedule)
    requires IsSchedule(Listed(lines), n, schedule)
    ensures Faults(Clock, n, lines) <= n * ScheduleFaults(Listed(lines), schedule, 0, |lines|)
  {
    var run := RunOf(Clock, n, lines);
    forall from, to | 0 <= from <= to <= |lines| && |Used(Listed(lines), from, to)| <= n
      ensures run.faults[to] <= run.faults[from] + |Used(Listed(lines), from, to)|
    {
      ClockIsConservative(n, lines, from, to);
    }
    ConservativeIsCompetitive(Listed(lines), n, run.faults, schedule);
  }

  /** Without a gap CLOCK faults at least as often as OPT. Where every line demands its page it does so at most `n`
      times as often. */
  lemma ClockAgainstOpt(n: Positive, lines: seq<Line>)
    ensures !Gap(n, Service(lines)) ==> Faults(Opt, n, lines) <= Faults(Clock, n, lines)
    ensures EveryLineDemands(lines) ==> Faults(Clock, n, lines) <= n * Faults(Opt, n, lines)
  {
    if !Gap(n, Service(lines)) {
      OptBeatsEveryPolicy(n, n, Clock, lines);
    }
    if EveryLineDemands(lines) {
      assert Served(lines) == Listed(lines);
      RunIsSchedule(Opt, n, lines);
      ClockIsCompetitive(n, lines, RunOf(Opt, n, lines).held);
    }
  }
}
