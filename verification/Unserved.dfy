/** When OPT is optimal: the lists of future uses also count lines that no branch of the simulator serves, so that OPT
    can be misled exactly where the letter columns leave a gap. */
module Unserved {
  import opened Options
  import opened Trace
  import opened VirtualMemory
  import opened Placement
  import opened Schedules
  import opened Belady

  // ---------- a trace that misleads OPT, for every gap ----------

  /** Before the gap: the last `n` served lines bring in the pages 0, 1, ..., and all others ask for page 0. */
  function EarlyPage(n: nat, served: seq<bool>, t: nat, k: nat): Page
    requires k <= t <= |served| && ServedBefore(served, t) >= n
  {
    var before, spare := ServedBefore(served, k), ServedBefore(served, t) - n;
    if before >= spare && k < t && served[k] then before - spare else 0
  }

  /** Inside the gap: page 0 is listed on a line no branch serves, and all others but page 1 are listed somewhere. */
  function BetweenPage(n: nat, t: nat, u: nat, k: nat): Page
    requires t < u && t < k
  {
    if k == u then 0 else if k < u && k - t < n - 1 then k - t + 1 else if k > u && k - t < n then k - t else n
  }

  function GapPage(n: nat, served: seq<bool>, t: nat, u: nat, s: nat, k: nat): Page
    requires IsGap(n, served, t, u, s) && k < |served|
  {
    if k < t then EarlyPage(n, served, t, k)
    else if k == t then n
    else if k < s then BetweenPage(n, t, u, k)
    else 1
  }

  ghost predicate IsGapTrace(n: nat, lines: seq<Line>, t: nat, u: nat, s: nat) {
    && IsGap(n, Service(lines), t, u, s)
    && n >= 2
    && forall k :: 0 <= k < |lines| ==> lines[k].page == GapPage(n, Service(lines), t, u, s, k)
  }

  /** The pages 0, 1, ..., in the order of their frames. */
  function FirstPages(m: nat): (frames: seq<Page>)
    ensures |frames| == m
    ensures forall i :: 0 <= i < m ==> frames[i] == i
  {
    seq(m, i requires 0 <= i < m => i)
  }

  /** How many frames are taken before line `k`. */
  function Taken(n: nat, served: seq<bool>, t: nat, k: nat): nat
    requires k <= t <= |served| && ServedBefore(served, t) >= n
  {
    var before, spare := ServedBefore(served, k), ServedBefore(served, t) - n;
    if before == 0 then 0 else if before <= spare then 1 else before - spare
  }

  lemma {:induction false} ServedGrows(served: seq<bool>, k: nat, t: nat)
    requires k <= t <= |served|
    ensures ServedBefore(served, k) <= ServedBefore(served, t)
  {
    if k < t {
      ServedGrows(served, k, t - 1);
    }
  }

  /** A served line before the gap asks for page 0 again, or for the next page while a frame is free. */
  lemma TakenStep(n: nat, served: seq<bool>, t: nat, k: nat)
    requires n >= 2 && k < t <= |served| && ServedBefore(served, t) >= n
    ensures var p, taken := EarlyPage(n, served, t, k), Taken(n, served, t, k);
      if served[k] && p >= taken then p == taken < n && Taken(n, served, t, k + 1) == taken + 1
      else Taken(n, served, t, k + 1) == taken
    ensures Taken(n, served, t, t) == n
  {
    ServedGrows(served, k + 1, t);
  }

  /** Page 1 is listed last of the pages 0 to `n - 1`. */
  lemma OneIsListedLast(n: nat, lines: seq<Line>, t: nat, u: nat, s: nat, q: Page)
    requires IsGapTrace(n, lines, t, u, s) && q < n && q != 1
    ensures NextUse(Pages(lines)[t + 1..], q) < NextUse(Pages(lines)[t + 1..], 1)
  {
    var rest := Pages(lines)[t + 1..];
    var k := if q == 0 then u else if t + q - 1 < u then t + q - 1 else t + q;
    assert GapPage(n, Service(lines), t, u, s, k) == q;
    assert rest[k - t - 1] == q;
    var d := NextUse(rest, 1);
    if d < s - t - 1 {
      assert rest[d] == GapPage(n, Service(lines), t, u, s, t + 1 + d);
    }
  }

  lemma FarthestIsOne(n: nat, lines: seq<Line>, t: nat, u: nat, s: nat)
    requires IsGapTrace(n, lines, t, u, s)
    ensures FarthestFrame(FirstPages(n), Pages(lines)[t + 1..]) == 1
  {
    var frames, rest := FirstPages(n), Pages(lines)[t + 1..];
    var i := FarthestFrame(frames, rest);
    assert NextUse(rest, frames[1]) <= NextUse(rest, frames[i]);
    if i != 1 {
      OneIsListedLast(n, lines, t, u, s, i);
    }
  }

  // ---------- single lines ----------

  ghost predicate AllReferenced(policy: Policy, memory: Memory) {
    policy.Clock? ==> Resident(memory.frames) <= memory.referenced
  }

  /** What one line of `opt` or `clock` does, as far as it matters here. */
  ghost predicate Effects(policy: Policy, n: Positive, rest: seq<Page>, p: Page, demanded: bool, before: Memory,
                          after: Memory)
  {
    if p in before.frames || !demanded then
      && after.frames == before.frames
      && after.hand == before.hand
      && after.faults == before.faults
      && (AllReferenced(policy, before) ==> AllReferenced(policy, after))
    else if |before.frames| < n then
      && after.frames == before.frames + [p]
      && after.hand == before.hand
      && after.faults == before.faults + 1
      && (AllReferenced(policy, before) ==> AllReferenced(policy, after))
    else
      && after.faults == before.faults + 1
      && |before.frames| == n
      && p in after.frames
      && (AllReferenced(policy, before) && before.hand == 0 ==>
            after.frames == before.frames[(if policy.Clock? then 0 else FarthestFrame(before.frames, rest)) := p])
  }

  /** With every bit set the hand goes full circle. */
  lemma {:induction false} FullCircle(frames: seq<Page>, referenced: set<Page>, hand: nat)
    requires frames != [] && hand <= |frames| && Distinct(frames) && 0 < hand
    requires forall i :: 0 <= i < |frames| ==> (frames[i] in referenced <==> hand <= i)
    ensures Sweep(frames, referenced, hand).1 == 1
    decreases |frames| - hand
  {
    if hand < |frames| {
      FullCircle(frames, referenced - {frames[hand]}, hand + 1);
    }
  }

  lemma SweepOfAll(frames: seq<Page>, referenced: set<Page>)
    requires frames != [] && Distinct(frames) && Resident(frames) <= referenced
    ensures Sweep(frames, referenced, 0).1 == 1
  {
    assert forall i :: 0 <= i < |frames| ==> frames[i] in Resident(frames);
    FullCircle(frames, referenced - {frames[0]}, 1);
  }

  lemma EvictLine(policy: Policy, n: Positive, rest: seq<Page>, at: Memory, after: Memory, p: Page)
    requires WellFormed(at, n) && !policy.Nru? && p !in at.frames && |at.frames| == n
    requires AllReferenced(policy, at) && at.hand == 0 && Demanded(policy, n, rest, at, after, p)
    ensures after.frames == at.frames[(if policy.Clock? then 0 else FarthestFrame(at.frames, rest)) := p]
  {
    if policy.Clock? {
      SweepOfAll(at.frames, at.referenced);
    }
  }

  lemma StepEffects(policy: Policy, n: Positive, rest: seq<Page>, memory: Memory, letters: Letters, p: Page)
    requires WellFormed(memory, n) && !policy.Nru?
    ensures Effects(policy, n, rest, p, Demands(letters), memory, Step(policy, n, rest, memory, letters, p))
  {
    var at, after := AtDemand(policy, memory, letters, p), Step(policy, n, rest, memory, letters, p);
    StepEffect(policy, n, rest, memory, letters, p);
    if p !in memory.frames && Demands(letters) && |memory.frames| == n && AllReferenced(policy, at) && at.hand == 0 {
      EvictLine(policy, n, rest, at, after, p);
    }
  }

  ghost predicate RunsLine(policy: Policy, n: Positive, lines: seq<Line>, run: seq<Memory>, k: nat)
    requires k < |lines| < |run|
  {
    Effects(policy, n, Pages(lines)[k + 1..], lines[k].page, Service(lines)[k], run[k], run[k + 1])
  }

  /** The memories of a run on a trace with a gap, seen line by line. */
  ghost predicate GapRun(policy: Policy, n: Positive, lines: seq<Line>, t: nat, u: nat, s: nat, run: seq<Memory>) {
    && IsGapTrace(n, lines, t, u, s)
    && !policy.Nru?
    && |run| == |lines| + 1
    && run[0] == EMPTY
    && forall k :: 0 <= k < |lines| ==> RunsLine(policy, n, lines, run, k)
  }

  lemma RunOnGapTrace(policy: Policy, n: Positive, lines: seq<Line>, t: nat, u: nat, s: nat)
    requires IsGapTrace(n, lines, t, u, s) && !policy.Nru?
    ensures GapRun(policy, n, lines, t, u, s, Memories(policy, n, lines))
  {
    var run := Memories(policy, n, lines);
    forall k | 0 <= k < |lines|
      ensures RunsLine(policy, n, lines, run, k)
    {
      StepEffects(policy, n, Pages(lines)[k + 1..], run[k], LettersAfter(lines, k + 1), lines[k].page);
    }
  }

  // ---------- the run ----------

  ghost predicate EarlyMemory(policy: Policy, memory: Memory, taken: nat) {
    && memory.frames == FirstPages(taken)
    && memory.hand == 0
    && memory.faults == taken
    && AllReferenced(policy, memory)
  }

  lemma EarlyLine(policy: Policy, n: Positive, rest: seq<Page>, p: Page, demanded: bool, before: Memory, after: Memory,
                  taken: nat)
    requires Effects(policy, n, rest, p, demanded, before, after) && EarlyMemory(policy, before, taken)
    requires demanded && p >= taken ==> p == taken < n
    ensures EarlyMemory(policy, after, if demanded && p >= taken then taken + 1 else taken)
  {
    if demanded && p >= taken {
      assert FirstPages(taken + 1) == FirstPages(taken) + [p];
    } else {
      assert p < taken ==> before.frames[p] == p;
    }
  }

  /** The memory before line `k`, at or before the gap. */
  ghost predicate EarlyAt(policy: Policy, n: Positive, served: seq<bool>, t: nat, memory: Memory, k: nat) {
    && k <= t <= |served| && ServedBefore(served, t) >= n
    && EarlyMemory(policy, memory, Taken(n, served, t, k))
  }

  lemma EarlyStep(policy: Policy, n: Positive, rest: seq<Page>, served: seq<bool>, t: nat, before: Memory,
                  after: Memory, k: nat)
    requires n >= 2 && k < t && EarlyAt(policy, n, served, t, before, k)
    requires Effects(policy, n, rest, EarlyPage(n, served, t, k), served[k], before, after)
    ensures EarlyAt(policy, n, served, t, after, k + 1)
  {
    TakenStep(n, served, t, k);
    EarlyLine(policy, n, rest, EarlyPage(n, served, t, k), served[k], before, after, Taken(n, served, t, k));
  }

  lemma {:induction false} BeforeGap(policy: Policy, n: Positive, lines: seq<Line>, t: nat, u: nat, s: nat,
                                     run: seq<Memory>, k: nat)
    requires GapRun(policy, n, lines, t, u, s, run) && k <= t
    ensures EarlyAt(policy, n, Service(lines), t, run[k], k)
  {
    if k == 0 {
      assert FirstPages(0) == [];
    } else {
      BeforeGap(policy, n, lines, t, u, s, run, k - 1);
      assert RunsLine(policy, n, lines, run, k - 1);
      EarlyStep(policy, n, Pages(lines)[k..], Service(lines), t, run[k - 1], run[k], k - 1);
    }
  }

  /** The frames inside the gap: OPT has given up page 1, CLOCK page 0. */
  function GapFrames(policy: Policy, n: Positive): seq<Page>
    requires n >= 2
  {
    FirstPages(n)[(if policy.Clock? then 0 else 1) := n]
  }

  lemma GapFramesHold(policy: Policy, n: Positive, p: Page)
    requires n >= 2
    ensures p in GapFrames(policy, n) <==> p <= n && p != if policy.Clock? then 0 else 1
  {
    var frames := GapFrames(policy, n);
    if 2 <= p < n {
      assert frames[p] == p;
    }
    assert frames[0] == if policy.Clock? then n else 0;
    assert frames[1] == if policy.Clock? then 1 else n;
  }

  /** Line `t` finds all frames taken. */
  lemma AtGap(policy: Policy, n: Positive, lines: seq<Line>, t: nat, u: nat, s: nat, run: seq<Memory>)
    requires GapRun(policy, n, lines, t, u, s, run)
    ensures run[t + 1].frames == GapFrames(policy, n) && run[t + 1].faults == n + 1
  {
    BeforeGap(policy, n, lines, t, u, s, run, t);
    ServedGrows(Service(lines), t, t);
    assert EarlyMemory(policy, run[t], n);
    FarthestIsOne(n, lines, t, u, s);
    assert RunsLine(policy, n, lines, run, t);
  }

  lemma {:induction false} InsideGap(policy: Policy, n: Positive, lines: seq<Line>, t: nat, u: nat, s: nat,
                                     run: seq<Memory>, k: nat)
    requires GapRun(policy, n, lines, t, u, s, run) && t < k <= s
    ensures run[k].frames == GapFrames(policy, n) && run[k].faults == n + 1
  {
    if k == t + 1 {
      AtGap(policy, n, lines, t, u, s, run);
    } else {
      InsideGap(policy, n, lines, t, u, s, run, k - 1);
      GapFramesHold(policy, n, lines[k - 1].page);
      assert RunsLine(policy, n, lines, run, k - 1);
    }
  }

  /** From the end of the gap on, every line asks for page 1. */
  lemma {:induction false} AfterGap(policy: Policy, n: Positive, lines: seq<Line>, t: nat, u: nat, s: nat,
                                    run: seq<Memory>, k: nat)
    requires GapRun(policy, n, lines, t, u, s, run) && s < k <= |lines|
    ensures 1 in run[k].frames && run[k].faults == if policy.Opt? then n + 2 else n + 1
  {
    if k == s + 1 {
      InsideGap(policy, n, lines, t, u, s, run, s);
      GapFramesHold(policy, n, 1);
    } else {
      AfterGap(policy, n, lines, t, u, s, run, k - 1);
    }
    assert RunsLine(policy, n, lines, run, k - 1);
  }

  lemma GapFaults(policy: Policy, n: Positive, lines: seq<Line>, t: nat, u: nat, s: nat)
    requires IsGapTrace(n, lines, t, u, s) && !policy.Nru?
    ensures Faults(policy, n, lines) == if policy.Opt? then n + 2 else n + 1
  {
    RunOnGapTrace(policy, n, lines, t, u, s);
    AfterGap(policy, n, lines, t, u, s, Memories(policy, n, lines), |lines|);
  }

  // ---------- the exact condition ----------

  /** The two traces differ in their pages only. */
  ghost predicate SameColumns(a: seq<Line>, b: seq<Line>) {
    && |a| == |b|
    && forall k :: 0 <= k < |a| ==> a[k].instruction == b[k].instruction && a[k].access == b[k].access
  }

  lemma {:induction false} SameLetters(a: seq<Line>, b: seq<Line>, k: nat)
    requires SameColumns(a, b) && k <= |a|
    ensures LettersAfter(a, k) == LettersAfter(b, k)
  {
    if k > 0 {
      SameLetters(a, b, k - 1);
    }
  }

  lemma SameService(a: seq<Line>, b: seq<Line>)
    requires SameColumns(a, b)
    ensures Service(a) == Service(b)
  {
    forall k | 0 <= k < |a|
      ensures Service(a)[k] == Service(b)[k]
    {
      SameLetters(a, b, k + 1);
    }
  }

  function Renamed(n: nat, lines: seq<Line>, t: nat, u: nat, s: nat): (other: seq<Line>)
    requires IsGap(n, Service(lines), t, u, s)
    ensures SameColumns(lines, other)
  {
    seq(|lines|, k requires 0 <= k < |lines| => lines[k].(page := GapPage(n, Service(lines), t, u, s, k)))
  }

  /** Where the letter columns leave a gap, there are pages for them on which `opt` faults once more than `clock`. */
  lemma GapMisleadsOpt(n: Positive, lines: seq<Line>) returns (other: seq<Line>)
    requires Gap(n, Service(lines))
    ensures SameColumns(lines, other)
    ensures Faults(Opt, n, other) == n + 2 && Faults(Clock, n, other) == n + 1
  {
    var t: nat, u: nat, s: nat :| IsGap(n, Service(lines), t, u, s);
    other := Renamed(n, lines, t, u, s);
    SameService(lines, other);
    GapFaults(Opt, n, other, t, u, s);
    GapFaults(Clock, n, other, t, u, s);
  }

  /** Whatever the pages in these columns: no schedule that serves the lines some branch serves, in `n` frames or
      fewer, faults less than `opt`. */
  ghost predicate OptimalForColumns(n: Positive, lines: seq<Line>) {
    forall other, m: nat, schedule ::
      SameColumns(lines, other) && m <= n && IsSchedule(Served(other), m, schedule) ==>
        Faults(Opt, n, other) <= ScheduleFaults(Served(other), schedule, 0, |other|)
  }

  /** Whatever the pages in these columns: `clock` does not fault less than `opt`. */
  ghost predicate BeatsClockForColumns(n: Positive, lines: seq<Line>) {
    forall other :: SameColumns(lines, other) ==> Faults(Opt, n, other) <= Faults(Clock, n, other)
  }

  lemma OptimalWithoutGap(n: Positive, lines: seq<Line>)
    requires !Gap(n, Service(lines))
    ensures OptimalForColumns(n, lines)
  {
    forall other, m: nat, schedule | SameColumns(lines, other) && m <= n && IsSchedule(Served(other), m, schedule)
      ensures Faults(Opt, n, other) <= ScheduleFaults(Served(other), schedule, 0, |other|)
    {
      SameService(lines, other);
      OptIsOptimalWithoutGap(n, m, other, schedule);
    }
  }

  lemma OptimalBeatsClock(n: Positive, lines: seq<Line>)
    requires OptimalForColumns(n, lines)
    ensures BeatsClockForColumns(n, lines)
  {
    forall other | SameColumns(lines, other)
      ensures Faults(Opt, n, other) <= Faults(Clock, n, other)
    {
      RunIsSchedule(Clock, n, other);
      assert IsSchedule(Served(other), n, RunOf(Clock, n, other).held);
    }
  }

  /** The exact condition, readable from the letter columns alone: `opt` is optimal, and is never beaten by `clock`, if
      and only if they leave no gap. */
  lemma OptimalExactlyWithoutGap(n: Positive, lines: seq<Line>)
    ensures OptimalForColumns(n, lines) <==> !Gap(n, Service(lines))
    ensures BeatsClockForColumns(n, lines) <==> !Gap(n, Service(lines))
  {
    if Gap(n, Service(lines)) {
      var other := GapMisleadsOpt(n, lines);
      assert !BeatsClockForColumns(n, lines);
      if OptimalForColumns(n, lines) {
        OptimalBeatsClock(n, lines);
      }
    } else {
      OptimalWithoutGap(n, lines);
      OptimalBeatsClock(n, lines);
    }
  }

  // ---------- the shortest example ----------

  /** A trace whose fourth line no branch serves: the letters in force are then a blank and `S`. */
  const UNSERVED: seq<Line> := [
    Line(None, Some('L'), 0), Line(None, Some('L'), 1), Line(None, Some('L'), 2),
    Line(None, Some('S'), 0), Line(None, Some('L'), 1)]

  lemma UnservedLetters()
    ensures Service(UNSERVED) == [true, true, true, false, true]
  {
    assert LettersAfter(UNSERVED, 0) == BLANK;
    assert LettersAfter(UNSERVED, 1) == LettersAfter(UNSERVED, 2) == LettersAfter(UNSERVED, 3) == Letters(' ', 'L');
    assert LettersAfter(UNSERVED, 4) == Letters(' ', 'S') && LettersAfter(UNSERVED, 5) == Letters(' ', 'L');
  }

  lemma UnservedCounts(served: seq<bool>)
    requires served == [true, true, true, false, true]
    ensures ServedBefore(served, 0) == 0 && ServedBefore(served, 1) == 1 && ServedBefore(served, 2) == 2
    ensures IsGap(2, served, 2, 3, 4)
  {
  }

  lemma UnservedIsGapTrace()
    ensures IsGapTrace(2, UNSERVED, 2, 3, 4)
  {
    UnservedLetters();
    UnservedCounts(Service(UNSERVED));
  }

  /** On this trace, in two frames, `opt` gives up page 1 for a page that is listed sooner but served by no branch. */
  lemma OptCanLoseToClock()
    ensures Faults(Opt, 2, UNSERVED) == 4 && Faults(Clock, 2, UNSERVED) == 3
  {
    UnservedIsGapTrace();
    GapFaults(Opt, 2, UNSERVED, 2, 3, 4);
    GapFaults(Clock, 2, UNSERVED, 2, 3, 4);
  }
}
