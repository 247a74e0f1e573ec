/** Demand-paging schedules, and the runs of the simulator seen as schedules. */
module Schedules {
  import opened Options
  import opened Trace
  import opened VirtualMemory
  import opened Placement

  /** The resident set before each line and after the last one. */
  type Schedule = seq<set<Page>>

  /** Demand paging in at most `n` frames: start empty, bring in only the page asked for, drop anything at will. */
  ghost predicate IsSchedule(requests: Requests, n: nat, schedule: Schedule) {
    && |schedule| == |requests| + 1
    && schedule[0] == {}
    && (forall t :: 0 <= t <= |requests| ==> |schedule[t]| <= n)
    && forall t {:trigger requests[t]} :: 0 <= t < |requests| ==> Serves(requests[t], schedule[t], schedule[t + 1])
  }

  ghost predicate Serves(request: Option<Page>, held: set<Page>, held': set<Page>) {
    match request
    case None => held' <= held
    case Some(p) => p in held' && held' <= held + {p}
  }

  /** Faults among lines `from` up to `to`. */
  function ScheduleFaults(requests: Requests, schedule: Schedule, from: nat, to: nat): nat
    requires from <= to <= |requests| < |schedule|
  {
    if from == to then 0
    else
      ScheduleFaults(requests, schedule, from, to - 1) + (if Misses(requests[to - 1], schedule[to - 1]) then 1 else 0)
  }

  predicate Misses(request: Option<Page>, held: set<Page>) {
    request.Some? && request.value !in held
  }

  function Asked(request: Option<Page>): set<Page> {
    if request.Some? then {request.value} else {}
  }

  /** The pages used from line `from` up to line `to`. */
  function Used(requests: Requests, from: nat, to: nat): set<Page>
    requires from <= to <= |requests|
    decreases |requests| - from
  {
    if from == to then {} else Asked(requests[from]) + Used(requests, from + 1, to)
  }

  lemma {:induction false} UsedSomewhere(requests: Requests, from: nat, to: nat, p: Page)
    requires from <= to <= |requests|
    ensures p in Used(requests, from, to) <==> (exists k :: from <= k < to && requests[k] == Some(p))
    decreases |requests| - from
  {
    if from < to {
      UsedSomewhere(requests, from + 1, to, p);
    }
  }

  lemma {:induction false} UsedExtends(requests: Requests, from: nat, to: nat)
    requires from <= to < |requests|
    ensures Used(requests, from, to + 1) == Used(requests, from, to) + Asked(requests[to])
    decreases |requests| - from
  {
    if from < to {
      UsedExtends(requests, from + 1, to);
    }
  }

  /** There are no more pages than lines. */
  lemma {:induction false} UsedSize(requests: Requests, from: nat, to: nat)
    requires from <= to <= |requests|
    ensures |Used(requests, from, to)| <= to - from
  {
    if from < to {
      UsedSize(requests, from, to - 1);
      UsedExtends(requests, from, to - 1);
    }
  }

  lemma {:induction false} SubsetSize(a: set<Page>, b: set<Page>)
    requires a <= b
    ensures |a| <= |b|
    decreases a
  {
    if a != {} {
      var x :| x in a;
      SubsetSize(a - {x}, b - {x});
    }
  }

  lemma {:induction false} ResidentCount(frames: seq<Page>)
    requires Distinct(frames)
    ensures |Resident(frames)| == |frames|
  {
    if frames != [] {
      ResidentCount(frames[1..]);
      assert frames == [frames[0]] + frames[1..];
      assert Resident(frames) == {frames[0]} + Resident(frames[1..]);
    } else {
      assert Resident(frames) == {};
    }
  }

  lemma ReplacedResidents(frames: seq<Page>, i: nat, p: Page)
    requires Distinct(frames) && i < |frames| && p !in frames
    ensures Resident(frames[i := p]) == Resident(frames) - {frames[i]} + {p}
  {
    var after := frames[i := p];
    forall q | q in Resident(frames) - {frames[i]} + {p}
      ensures q in after
    {
      if q == p {
        assert after[i] == p;
      } else {
        var j :| 0 <= j < |frames| && frames[j] == q;
        assert after[j] == q;
      }
    }
  }

  // ---------- runs of the simulator as schedules ----------

  /** The resident sets before each line and after the last one, with the faults so far. */
  datatype Run = Run(held: seq<set<Page>>, faults: seq<nat>)

  /** The residents and faults of a policy's run. */
  function RunOf(policy: Policy, n: Positive, lines: seq<Line>): (run: Run)
    ensures |run.held| == |run.faults| == |lines| + 1
    ensures forall k :: 0 <= k <= |lines| ==>
              && run.held[k] == Resident(After(policy, n, lines, k).frames)
              && run.faults[k] == After(policy, n, lines, k).faults
  {
    Run(seq(|lines| + 1, k requires 0 <= k <= |lines| => Resident(After(policy, n, lines, k).frames)),
        seq(|lines| + 1, k requires 0 <= k <= |lines| => After(policy, n, lines, k).faults))
  }

  /** One line of any policy: at most the page asked for comes in, and exactly if some branch demands it. */
  lemma StepIsDemandPaging(policy: Policy, n: Positive, rest: seq<Page>, memory: Memory, letters: Letters, p: Page)
    requires WellFormed(memory, n)
    ensures var after := Step(policy, n, rest, memory, letters, p);
      var held, held' := Resident(memory.frames), Resident(after.frames);
      && held' <= held + {p}
      && (if Demands(letters) then p in held' else held' == held)
      && after.faults == memory.faults + (if Demands(letters) && p !in held then 1 else 0)
  {
    StepEffect(policy, n, rest, memory, letters, p);
  }

  lemma RunStep(policy: Policy, n: Positive, lines: seq<Line>, k: nat)
    requires k < |lines|
    ensures var run, request := RunOf(policy, n, lines), Served(lines)[k];
      && Serves(request, run.held[k], run.held[k + 1])
      && run.faults[k + 1] == run.faults[k] + (if Misses(request, run.held[k]) then 1 else 0)
  {
    StepIsDemandPaging(policy, n, Pages(lines)[k + 1..], After(policy, n, lines, k), LettersAfter(lines, k + 1),
                       lines[k].page);
  }

  ghost predicate CountsMisses(requests: Requests, run: Run) {
    && |run.held| == |run.faults| == |requests| + 1
    && run.faults[0] == 0
    && forall k {:trigger requests[k]} :: 0 <= k < |requests| ==>
         run.faults[k + 1] == run.faults[k] + (if Misses(requests[k], run.held[k]) then 1 else 0)
  }

  lemma {:induction false} MissesAreFaults(requests: Requests, run: Run, k: nat)
    requires CountsMisses(requests, run) && k <= |requests|
    ensures ScheduleFaults(requests, run.held, 0, k) == run.faults[k]
  {
    if k > 0 {
      MissesAreFaults(requests, run, k - 1);
      assert requests[k - 1] == requests[k - 1];
    }
  }

  /** The run of any policy is itself a demand-paging schedule for the lines some branch serves, with its faults. */
  lemma RunIsSchedule(policy: Policy, n: Positive, lines: seq<Line>)
    ensures var run := RunOf(policy, n, lines);
      && IsSchedule(Served(lines), n, run.held)
      && ScheduleFaults(Served(lines), run.held, 0, |lines|) == Faults(policy, n, lines)
  {
    var run, requests := RunOf(policy, n, lines), Served(lines);
    forall t | 0 <= t <= |lines|
      ensures |run.held[t]| <= n
    {
      ResidentCount(After(policy, n, lines, t).frames);
    }
    forall t | 0 <= t < |lines|
      ensures Serves(requests[t], run.held[t], run.held[t + 1])
      ensures run.faults[t + 1] == run.faults[t] + (if Misses(requests[t], run.held[t]) then 1 else 0)
    {
      RunStep(policy, n, lines, t);
    }
    MissesAreFaults(requests, run, |lines|);
  }
}
