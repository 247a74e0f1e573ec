/** Belady's theorem for `opt`: no demand-paging schedule that serves every line faults less. */
module Belady {
  import opened Options
  import opened Trace
  import opened VirtualMemory
  import opened Placement
  import opened Schedules

  // ---------- counting residents that are used again ----------

  /** Dropping the page just used from the window costs a count only where it was resident and is not used again. */
  lemma ShrinkWindow(held: set<Page>, p: Page, later: set<Page>)
    ensures |held * later| == |held * (later + {p})| - (if p in held && p !in later then 1 else 0)
  {
    if p in held && p !in later {
      assert held * (later + {p}) == held * later + {p};
    } else {
      assert held * (later + {p}) == held * later;
    }
  }

  /** The competitor's count after the line: it may gain `p` and lose anything, and never passes its capacity. */
  lemma CompetitorCount(held: set<Page>, held': set<Page>, p: Page, later: set<Page>, n: nat)
    requires p in held' && held' <= held + {p} && |held'| <= n
    ensures |held' * later| <= |held * later| + (if p in later && p !in held then 1 else 0)
    ensures |held' * later| <= (if p in later then n else n - 1)
  {
    if p in later && p !in held {
      assert held' * later <= held * later + {p};
      SubsetSize(held' * later, held * later + {p});
    } else {
      assert held' * later <= held * later;
      SubsetSize(held' * later, held * later);
    }
    if p in later {
      SubsetSize(held' * later, held');
    } else {
      SubsetSize(held' * later, held' - {p});
    }
  }

  lemma AddCount(held: set<Page>, p: Page, later: set<Page>)
    requires p !in held
    ensures |(held + {p}) * later| == |held * later| + (if p in later then 1 else 0)
  {
    assert (held + {p}) * later == held * later + (if p in later then {p} else {});
  }

  /** OPT's count after it brought `p` in for `v`, the resident used latest. */
  lemma EvictFarthestCount(held: set<Page>, v: Page, p: Page, later: set<Page>)
    requires v in held && p !in held
    requires v in later ==> held <= later
    ensures var more := if p in later then 1 else 0;
      |(held - {v} + {p}) * later| == if v in later then |held| - 1 + more else |held * later| + more
  {
    AddCount(held - {v}, p, later);
    if v in later {
      assert (held - {v}) * later == held - {v};
    } else {
      assert (held - {v}) * later == held * later;
    }
  }

  lemma NextUseBounds(lines: seq<Line>, from: nat, to: nat, p: Page)
    requires from <= to <= |lines|
    ensures p in Used(Listed(lines), from, to) <==> NextUse(Pages(lines)[from..], p) < to - from
  {
    var rest := Pages(lines)[from..];
    UsedSomewhere(Listed(lines), from, to, p);
    if p in Used(Listed(lines), from, to) {
      var k :| from <= k < to && Listed(lines)[k] == Some(p);
      assert rest[k - from] == p;
    }
    if NextUse(rest, p) < to - from {
      assert Listed(lines)[from + NextUse(rest, p)] == Some(p);
    }
  }

  /** If OPT's victim is listed again in a window, so is every resident. */
  lemma VictimIsUsedLast(lines: seq<Line>, frames: seq<Page>, from: nat, to: nat)
    requires frames != [] && from <= to <= |lines|
    ensures var v := frames[FarthestFrame(frames, Pages(lines)[from..])];
      v in Used(Listed(lines), from, to) ==> Resident(frames) <= Used(Listed(lines), from, to)
  {
    var v := frames[FarthestFrame(frames, Pages(lines)[from..])];
    if v in Used(Listed(lines), from, to) {
      NextUseBounds(lines, from, to, v);
      forall q | q in Resident(frames)
        ensures q in Used(Listed(lines), from, to)
      {
        NextUseBounds(lines, from, to, q);
      }
    }
  }

  // ---------- the exchange argument, for any run that evicts the page used latest ----------

  /** Line `k` leaves the residents alone, or brings its absent page in for a resident used latest. */
  ghost predicate EvictsFarthest(requests: Requests, n: Positive, run: Run, k: nat)
    requires k < |requests| && |run.held| == |run.faults| == |requests| + 1
  {
    var held, held' := run.held[k], run.held[k + 1];
    if run.faults[k + 1] == run.faults[k] then held' == held
    else
      && run.faults[k + 1] == run.faults[k] + 1
      && Misses(requests[k], held)
      && BringsIn(requests, n, held, held', requests[k].value, k + 1)
  }

  ghost predicate BringsIn(requests: Requests, n: Positive, held: set<Page>, held': set<Page>, p: Page, from: nat) {
    held' == held + {p} || exists v :: UsedLatest(requests, n, held, v, from) && held' == held - {v} + {p}
  }

  /** Every frame is taken, and no resident is first used later than `v`. */
  ghost predicate UsedLatest(requests: Requests, n: Positive, held: set<Page>, v: Page, from: nat) {
    && v in held
    && |held| == n
    && forall to :: from <= to <= |requests| && v in Used(requests, from, to) ==> held <= Used(requests, from, to)
  }

  ghost predicate IsFarthestRun(requests: Requests, n: Positive, run: Run) {
    && |run.held| == |run.faults| == |requests| + 1
    && run.held[0] == {}
    && run.faults[0] == 0
    && forall k {:trigger EvictsFarthest(requests, n, run, k)} :: 0 <= k < |requests| ==>
         EvictsFarthest(requests, n, run, k)
  }

  /** The competitor's lead in residents used from line `k` up to line `to`. */
  function Lead(requests: Requests, run: Run, schedule: Schedule, k: nat, to: nat): int
    requires k <= to <= |requests| < |schedule| == |run.held|
  {
    Count(requests, schedule[k], k, to) - Count(requests, run.held[k], k, to)
  }

  /** How many more faults than the run the competitor has had in the first `k` lines. */
  function Paid(requests: Requests, run: Run, schedule: Schedule, k: nat): int
    requires k <= |requests| < |schedule| == |run.faults|
  {
    ScheduleFaults(requests, schedule, 0, k) - run.faults[k]
  }

  /** The lead over a window of one line shows who holds its page. */
  lemma LeadOfOneLine(requests: Requests, run: Run, schedule: Schedule, k: nat)
    requires k < |requests| < |schedule| == |run.held| && requests[k].Some?
    ensures var p := requests[k].value;
      Lead(requests, run, schedule, k, k + 1) ==
      (if p in schedule[k] then 1 else 0) - (if p in run.held[k] then 1 else 0)
    ensures Lead(requests, run, schedule, k, k) == 0
  {
    var p := requests[k].value;
    assert Used(requests, k, k + 1) == {p};
    assert schedule[k] * {p} == if p in schedule[k] then {p} else {};
    assert run.held[k] * {p} == if p in run.held[k] then {p} else {};
  }

  /** How many pages of `held` are used from line `from` up to line `to`. */
  function Count(requests: Requests, held: set<Page>, from: nat, to: nat): nat
    requires from <= to <= |requests|
  {
    |held * Used(requests, from, to)|
  }

  /** OPT's count after a fault. */
  lemma BroughtInCount(requests: Requests, n: Positive, held: set<Page>, held': set<Page>, p: Page, from: nat, to: nat)
    requires from <= to <= |requests| && p !in held && BringsIn(requests, n, held, held', p, from)
    ensures var more := if p in Used(requests, from, to) then 1 else 0;
      var after := Count(requests, held', from, to);
      after == Count(requests, held, from, to) + more || after == n - 1 + more
  {
    var later := Used(requests, from, to);
    if held' == held + {p} {
      AddCount(held, p, later);
    } else {
      var v :| UsedLatest(requests, n, held, v, from) && held' == held - {v} + {p};
      EvictFarthestCount(held, v, p, later);
    }
  }

  /** The run's count after one line, against its count before it. */
  lemma RunCount(requests: Requests, n: Positive, run: Run, k: nat, to: nat)
    requires k < to <= |requests| && |run.held| == |run.faults| == |requests| + 1
    requires EvictsFarthest(requests, n, run, k) && requests[k].Some?
    ensures var p := requests[k].value;
      var more := if p in Used(requests, k + 1, to) then 1 else 0;
      var before, after := Count(requests, run.held[k], k, to), Count(requests, run.held[k + 1], k + 1, to);
      if run.faults[k + 1] == run.faults[k] then
        after == before - (if p in run.held[k] then 1 - more else 0)
      else
        run.faults[k + 1] == run.faults[k] + 1 && p !in run.held[k] &&
        (after == before + more || after == n - 1 + more)
  {
    var p, held := requests[k].value, run.held[k];
    var later := Used(requests, k + 1, to);
    ShrinkWindow(held, p, later);
    assert Used(requests, k, to) == later + {p};
    if run.faults[k + 1] != run.faults[k] {
      BroughtInCount(requests, n, held, run.held[k + 1], p, k + 1, to);
    }
  }

  /** The competitor's count after one line, against its count before it. */
  lemma ScheduleCount(requests: Requests, n: Positive, schedule: Schedule, k: nat, to: nat)
    requires IsSchedule(requests, n, schedule) && k < to <= |requests| && requests[k].Some?
    ensures var p := requests[k].value;
      var more := if p in Used(requests, k + 1, to) then 1 else 0;
      var before, after := Count(requests, schedule[k], k, to), Count(requests, schedule[k + 1], k + 1, to);
      && after <= before + (if p in schedule[k] then more - 1 else more)
      && after <= n - 1 + more
  {
    var p, later := requests[k].value, Used(requests, k + 1, to);
    ShrinkWindow(schedule[k], p, later);
    assert Used(requests, k, to) == later + {p};
    CompetitorCount(schedule[k], schedule[k + 1], p, later, n);
  }

  /** A line that asks for nothing leaves OPT's count alone and can only lower the competitor's. */
  lemma IdleLine(requests: Requests, n: Positive, run: Run, schedule: Schedule, k: nat, to: nat)
    requires IsSchedule(requests, n, schedule) && k < to <= |requests| && requests[k] == None
    requires |run.held| == |run.faults| == |schedule| && EvictsFarthest(requests, n, run, k)
    ensures Lead(requests, run, schedule, k + 1, to) <= Lead(requests, run, schedule, k, to)
    ensures Paid(requests, run, schedule, k + 1) == Paid(requests, run, schedule, k)
  {
    var later := Used(requests, k + 1, to);
    assert Used(requests, k, to) == later;
    SubsetSize(schedule[k + 1] * later, schedule[k] * later);
  }

  /** The exchange argument: for every horizon, the competitor's lead in residents used before the horizon is paid
      for by the faults it has had more than the run. */
  ghost predicate LeadIsPaidFor(requests: Requests, run: Run, schedule: Schedule, k: nat)
    requires k <= |requests| < |schedule| == |run.held| == |run.faults|
  {
    forall to :: k <= to <= |requests| ==> Lead(requests, run, schedule, k, to) <= Paid(requests, run, schedule, k)
  }

  lemma LeadAfterLine(requests: Requests, n: Positive, run: Run, schedule: Schedule, k: nat, to: nat)
    requires IsSchedule(requests, n, schedule) && k < to <= |requests|
    requires |run.held| == |run.faults| == |schedule| && EvictsFarthest(requests, n, run, k)
    requires Lead(requests, run, schedule, k, to) <= Paid(requests, run, schedule, k)
    requires Lead(requests, run, schedule, k, k + 1) <= Paid(requests, run, schedule, k)
    requires Lead(requests, run, schedule, k, k) <= Paid(requests, run, schedule, k)
    ensures Lead(requests, run, schedule, k + 1, to) <= Paid(requests, run, schedule, k + 1)
  {
    if requests[k].None? {
      IdleLine(requests, n, run, schedule, k, to);
    } else {
      ScheduleCount(requests, n, schedule, k, to);
      RunCount(requests, n, run, k, to);
      LeadOfOneLine(requests, run, schedule, k);
    }
  }

  lemma {:induction false} LeadStaysPaidFor(requests: Requests, n: Positive, run: Run, schedule: Schedule, k: nat)
    requires IsSchedule(requests, n, schedule) && IsFarthestRun(requests, n, run) && k <= |requests|
    ensures LeadIsPaidFor(requests, run, schedule, k)
  {
    if k == 0 {
      assert forall used: set<Page> :: schedule[0] * used == {} == run.held[0] * used;
    } else {
      LeadStaysPaidFor(requests, n, run, schedule, k - 1);
      assert EvictsFarthest(requests, n, run, k - 1);
      forall to | k <= to <= |requests|
        ensures Lead(requests, run, schedule, k, to) <= Paid(requests, run, schedule, k)
      {
        LeadAfterLine(requests, n, run, schedule, k - 1, to);
      }
    }
  }

  lemma FarthestRunIsOptimal(requests: Requests, n: Positive, run: Run, schedule: Schedule)
    requires IsSchedule(requests, n, schedule) && IsFarthestRun(requests, n, run)
    ensures run.faults[|requests|] <= ScheduleFaults(requests, schedule, 0, |requests|)
  {
    var end := |requests|;
    LeadStaysPaidFor(requests, n, run, schedule, end);
    assert Lead(requests, run, schedule, end, end) == 0;
  }

  // ---------- the simulator's OPT ----------

  /** How OPT's residents change in one line. */
  lemma OptResidents(n: Positive, rest: seq<Page>, memory: Memory, letters: Letters, p: Page)
    requires WellFormed(memory, n)
    ensures var after := Step(Opt, n, rest, memory, letters, p);
      var held, held' := Resident(memory.frames), Resident(after.frames);
      if p in held || !Demands(letters) then
        held' == held && after.faults == memory.faults
      else
        && after.faults == memory.faults + 1
        && held' == if |memory.frames| < n then held + {p}
                    else held - {memory.frames[FarthestFrame(memory.frames, rest)]} + {p}
  {
    StepEffect(Opt, n, rest, memory, letters, p);
    if p !in memory.frames && Demands(letters) && |memory.frames| == n {
      ReplacedResidents(memory.frames, FarthestFrame(memory.frames, rest), p);
    }
  }

  /** `OptResidents` for line `k` of a run. */
  lemma OptResidentsInRun(n: Positive, lines: seq<Line>, k: nat)
    requires k < |lines|
    ensures var before, after := After(Opt, n, lines, k), After(Opt, n, lines, k + 1);
      var p, held, held' := lines[k].page, Resident(before.frames), Resident(after.frames);
      if after.faults == before.faults then held' == held
      else
        && after.faults == before.faults + 1
        && p !in held
        && held' == if |before.frames| < n then held + {p}
                    else held - {before.frames[FarthestFrame(before.frames, Pages(lines)[k + 1..])]} + {p}
  {
    OptResidents(n, Pages(lines)[k + 1..], After(Opt, n, lines, k), LettersAfter(lines, k + 1), lines[k].page);
  }

  /** Whenever OPT evicts at line `k`, its victim is a resident used latest. */
  ghost predicate ChoosesLatest(requests: Requests, n: Positive, lines: seq<Line>, k: nat)
    requires k < |lines|
  {
    var frames := After(Opt, n, lines, k).frames;
    |frames| == n && Demands(LettersAfter(lines, k + 1)) ==>
      UsedLatest(requests, n, Resident(frames), frames[FarthestFrame(frames, Pages(lines)[k + 1..])], k + 1)
  }

  lemma OptEvictsFarthest(requests: Requests, n: Positive, lines: seq<Line>, k: nat)
    requires k < |lines| == |requests| && ChoosesLatest(requests, n, lines, k)
    requires requests[k] == Served(lines)[k] || requests[k] == Listed(lines)[k]
    ensures EvictsFarthest(requests, n, RunOf(Opt, n, lines), k)
  {
    OptResidentsInRun(n, lines, k);
  }

  lemma OptIsFarthestRun(requests: Requests, n: Positive, lines: seq<Line>)
    requires requests == Served(lines) || requests == Listed(lines)
    requires forall k {:trigger requests[k]} :: 0 <= k < |lines| ==> ChoosesLatest(requests, n, lines, k)
    ensures IsFarthestRun(requests, n, RunOf(Opt, n, lines))
  {
    forall k | 0 <= k < |lines|
      ensures EvictsFarthest(requests, n, RunOf(Opt, n, lines), k)
    {
      assert requests[k] == requests[k];
      OptEvictsFarthest(requests, n, lines, k);
    }
  }

  lemma ChoosesLatestListed(n: Positive, lines: seq<Line>, k: nat)
    requires k < |lines|
    ensures ChoosesLatest(Listed(lines), n, lines, k)
  {
    var frames := After(Opt, n, lines, k).frames;
    if |frames| == n {
      var v := frames[FarthestFrame(frames, Pages(lines)[k + 1..])];
      ResidentCount(frames);
      var from := k + 1;
      forall to | from <= to <= |lines| && v in Used(Listed(lines), from, to)
        ensures Resident(frames) <= Used(Listed(lines), from, to)
      {
        VictimIsUsedLast(lines, frames, from, to);
      }
    }
  }

  /** Belady: on every trace `opt` faults at most as often as any demand-paging schedule in the same number of
      frames or fewer that serves every line. */
  lemma OptIsOptimal(n: Positive, m: nat, lines: seq<Line>, schedule: Schedule)
    requires m <= n && IsSchedule(Listed(lines), m, schedule)
    ensures Faults(Opt, n, lines) <= ScheduleFaults(Listed(lines), schedule, 0, |lines|)
  {
    forall k | 0 <= k < |lines|
      ensures ChoosesLatest(Listed(lines), n, lines, k)
    {
      ChoosesLatestListed(n, lines, k);
    }
    OptIsFarthestRun(Listed(lines), n, lines);
    FarthestRunIsOptimal(Listed(lines), n, RunOf(Opt, n, lines), schedule);
  }

  // ---------- lines that no branch serves ----------

  ghost predicate FilledByService(served: seq<bool>, held: seq<set<Page>>) {
    && |held| == |served| + 1
    && held[0] == {}
    && forall k {:trigger served[k]} :: 0 <= k < |served| ==> |held[k + 1]| <= |held[k]| + (if served[k] then 1 else 0)
  }

  lemma {:induction false} FilledByServed(served: seq<bool>, held: seq<set<Page>>, k: nat)
    requires FilledByService(served, held) && k <= |served|
    ensures |held[k]| <= ServedBefore(served, k)
  {
    if k > 0 {
      FilledByServed(served, held, k - 1);
      assert served[k - 1] == served[k - 1];
    }
  }

  /** A resident was brought in by a line that some branch served. */
  lemma ResidentsWereServed(n: Positive, lines: seq<Line>, k: nat)
    requires k <= |lines|
    ensures |RunOf(Opt, n, lines).held[k]| <= ServedBefore(Service(lines), k)
  {
    var held := RunOf(Opt, n, lines).held;
    forall t | 0 <= t < |lines|
      ensures |held[t + 1]| <= |held[t]| + (if Service(lines)[t] then 1 else 0)
    {
      RunStep(Opt, n, lines, t);
      SubsetSize(held[t + 1], if Service(lines)[t] then held[t] + {lines[t].page} else held[t]);
    }
    FilledByServed(Service(lines), held, k);
  }

  /** Where the victim `v` is used at line `s` and no resident is first used later, they are all used before. */
  lemma UsedBeforeVictim(listed: Requests, n: Positive, held: set<Page>, v: Page, from: nat, s: nat)
    requires UsedLatest(listed, n, held, v, from) && from <= s < |listed| && listed[s] == Some(v)
    ensures held - {v} <= Used(listed, from, s)
    ensures n - 1 <= s - from
  {
    UsedSomewhere(listed, from, s + 1, v);
    UsedExtends(listed, from, s);
    SubsetSize(held - {v}, Used(listed, from, s));
    UsedSize(listed, from, s);
  }

  /** Which of the listed lines are also served. */
  ghost predicate Serving(listed: Requests, served: Requests, service: seq<bool>) {
    && |listed| == |served| == |service|
    && forall k :: 0 <= k < |listed| ==> served[k] == if service[k] then listed[k] else None
  }

  /** A page listed but not served in a window is listed on a line that no branch serves. */
  lemma UnservedUse(listed: Requests, served: Requests, service: seq<bool>, w: Page, from: nat, to: nat)
    returns (u: nat)
    requires Serving(listed, served, service) && from <= to <= |listed|
    requires w in Used(listed, from, to) && w !in Used(served, from, to)
    ensures from <= u < to && !service[u]
  {
    UsedSomewhere(listed, from, to, w);
    UsedSomewhere(served, from, to, w);
    u :| from <= u < to && listed[u] == Some(w);
    assert served[u] != Some(w);
  }

  lemma TwoPages(held: set<Page>, v: Page, w: Page)
    requires v in held && w in held && v != w
    ensures |held| >= 2
  {
    SubsetSize({v, w}, held);
  }

  /** If a resident `w` is not served by the time OPT's victim is, the line that lists it in between is a gap. */
  lemma LaterResidentMakesGap(listed: Requests, served: Requests, service: seq<bool>, n: Positive, held: set<Page>,
                              v: Page, w: Page, from: nat, s: nat)
    requires Serving(listed, served, service) && 1 <= from <= s < |listed|
    requires UsedLatest(listed, n, held, v, from) && served[s] == Some(v)
    requires w in held && w != v && w !in Used(served, from, s)
    requires service[from - 1] && ServedBefore(service, from) > n
    ensures Gap(n, service)
  {
    UsedBeforeVictim(listed, n, held, v, from, s);
    var u := UnservedUse(listed, served, service, w, from, s);
    TwoPages(held, v, w);
    assert IsGap(n, service, from - 1, u, s);
  }

  /** Where the victim is used latest among all lines and there is no gap, it is used latest among those served. */
  lemma LatestServed(listed: Requests, served: Requests, service: seq<bool>, n: Positive, held: set<Page>, v: Page,
                     t: nat)
    requires Serving(listed, served, service) && t < |listed| && UsedLatest(listed, n, held, v, t + 1)
    requires service[t] && ServedBefore(service, t + 1) > n && !Gap(n, service)
    ensures UsedLatest(served, n, held, v, t + 1)
  {
    var from := t + 1;
    forall to, w | from <= to <= |served| && v in Used(served, from, to) && w in held
      ensures w in Used(served, from, to)
    {
      UsedSomewhere(served, from, to, v);
      var s :| from <= s < to && served[s] == Some(v);
      UsedSomewhere(served, from, to, w);
      UsedSomewhere(served, from, s, w);
      if w != v && w !in Used(served, from, s) {
        LaterResidentMakesGap(listed, served, service, n, held, v, w, from, s);
      }
    }
  }

  /** Without a gap, OPT's victim is the resident served latest, too. */
  lemma ChoosesLatestServed(n: Positive, lines: seq<Line>, k: nat)
    requires k < |lines| && !Gap(n, Service(lines))
    ensures ChoosesLatest(Served(lines), n, lines, k)
  {
    var frames, service := After(Opt, n, lines, k).frames, Service(lines);
    if |frames| == n && service[k] {
      ResidentCount(frames);
      ResidentsWereServed(n, lines, k);
      ChoosesLatestListed(n, lines, k);
      LatestServed(Listed(lines), Served(lines), service, n, Resident(frames),
                   frames[FarthestFrame(frames, Pages(lines)[k + 1..])], k);
    }
  }

  /** Without a gap `opt` is optimal among the schedules that serve no more lines than it does. */
  lemma OptIsOptimalWithoutGap(n: Positive, m: nat, lines: seq<Line>, schedule: Schedule)
    requires m <= n && IsSchedule(Served(lines), m, schedule) && !Gap(n, Service(lines))
    ensures Faults(Opt, n, lines) <= ScheduleFaults(Served(lines), schedule, 0, |lines|)
  {
    forall k | 0 <= k < |lines|
      ensures ChoosesLatest(Served(lines), n, lines, k)
    {
      ChoosesLatestServed(n, lines, k);
    }
    OptIsFarthestRun(Served(lines), n, lines);
    FarthestRunIsOptimal(Served(lines), n, RunOf(Opt, n, lines), schedule);
  }

  /** Without a gap `opt` beats every policy given no more frames. */
  lemma OptBeatsEveryPolicy(n: Positive, m: Positive, policy: Policy, lines: seq<Line>)
    requires m <= n && !Gap(n, Service(lines))
    ensures Faults(Opt, n, lines) <= Faults(policy, m, lines)
  {
    RunIsSchedule(policy, m, lines);
    OptIsOptimalWithoutGap(n, m, lines, RunOf(policy, m, lines).held);
  }
}
