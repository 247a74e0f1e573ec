/** What the counters and printed outcomes of a run add up to, for every policy. */
module Accounting {
  import opened Trace
  import opened VirtualMemory
  import opened Placement

  // ---------- faults, frames, evictions ----------

  /** The counters agree with what has been printed: a fault either fills a frame or evicts, and an eviction of a
      dirty page is a write. */
  ghost predicate Balanced(memory: Memory) {
    var printed := multiset(memory.output);
    && |memory.frames| == printed[NoEviction]
    && memory.writes == printed[EvictDirty]
    && memory.faults == |memory.frames| + printed[EvictClean] + printed[EvictDirty]
  }

  lemma DemandBalances(policy: Policy, n: Positive, rest: seq<Page>, memory: Memory, p: Page, early: bool)
    requires WellFormed(memory, n) && Balanced(memory)
    ensures Balanced(Demand(policy, n, rest, memory, p, early))
  {
  }

  lemma InstructionBranchBalances(policy: Policy, n: Positive, rest: seq<Page>, memory: Memory, letters: Letters,
                                  p: Page)
    requires WellFormed(memory, n) && Balanced(memory)
    ensures Balanced(InstructionBranch(policy, n, rest, memory, letters, p))
  {
    if letters.instruction == 'S' {
      DemandBalances(policy, n, rest, memory.(dirty := memory.dirty + {p}), p, true);
    } else {
      DemandBalances(policy, n, rest, memory, p, true);
    }
  }

  lemma AccessBranchBalances(policy: Policy, n: Positive, rest: seq<Page>, memory: Memory, letters: Letters, p: Page)
    requires WellFormed(memory, n) && Balanced(memory)
    ensures Balanced(AccessBranch(policy, n, rest, memory, letters, p))
  {
    DemandBalances(policy, n, rest, memory, p, false);
  }

  lemma StepBalances(policy: Policy, n: Positive, rest: seq<Page>, memory: Memory, letters: Letters, p: Page)
    requires WellFormed(memory, n) && Balanced(memory)
    ensures Balanced(Step(policy, n, rest, memory, letters, p))
  {
    var touched := Touch(policy, memory, p);
    InstructionBranchBalances(policy, n, rest, touched, letters, p);
    InstructionBranchKeepsWellFormed(policy, n, rest, touched, letters, p);
    AccessBranchBalances(policy, n, rest, InstructionBranch(policy, n, rest, touched, letters, p), letters, p);
  }

  ghost predicate BalanceKept(run: seq<Memory>, k: nat)
    requires k + 1 < |run|
  {
    Balanced(run[k]) ==> Balanced(run[k + 1])
  }

  lemma {:induction false} BalancedSoFar(run: seq<Memory>, k: nat)
    requires k < |run| && run[0] == EMPTY && forall i :: 0 <= i < |run| - 1 ==> BalanceKept(run, i)
    ensures Balanced(run[k])
  {
    if k > 0 {
      BalancedSoFar(run, k - 1);
      assert BalanceKept(run, k - 1);
    }
  }

  lemma StepBalancesRun(policy: Policy, n: Positive, lines: seq<Line>, run: seq<Memory>, k: nat)
    requires k < |lines| < |run| && StepsTo(policy, n, lines, run, k)
    ensures BalanceKept(run, k)
  {
    if Balanced(run[k]) {
      StepBalances(policy, n, Pages(lines)[k + 1..], run[k], LettersAfter(lines, k + 1), lines[k].page);
    }
  }

  /** Faults, evictions, filled frames and writes add up throughout every run. */
  lemma RunBalances(policy: Policy, n: Positive, lines: seq<Line>, k: nat)
    requires k <= |lines|
    ensures Balanced(After(policy, n, lines, k))
  {
    var run := RunThrough(policy, n, lines, k);
    forall i | 0 <= i < |lines|
      ensures BalanceKept(run, i)
    {
      StepBalancesRun(policy, n, lines, run, i);
    }
    BalancedSoFar(run, k);
  }

  // ---------- dirty pages and writes ----------

  /** From `before` to `after` the writes and dirty bits grow together by `more`, and only residents are dirty. */
  ghost predicate Conserves(before: Memory, after: Memory, more: nat) {
    && after.writes + |after.dirty| == before.writes + |before.dirty| + more
    && after.dirty <= Resident(after.frames)
  }

  lemma ReplaceKeepsOthers(frames: seq<Page>, i: nat, p: Page)
    requires i < |frames|
    ensures Resident(frames) - {frames[i]} + {p} <= Resident(frames[i := p])
  {
    var after := frames[i := p];
    assert after[i] == p;
    forall q | q in frames && q != frames[i]
      ensures q in after
    {
      var j :| 0 <= j < |frames| && frames[j] == q;
      assert after[j] == q;
    }
  }

  /** A demand writes exactly the dirty bits it clears, and neither sets nor clears the one of its own page. */
  lemma DemandConservesDirt(policy: Policy, n: Positive, rest: seq<Page>, memory: Memory, p: Page, early: bool)
    requires WellFormed(memory, n) && memory.dirty <= Resident(memory.frames) + {p}
    ensures var after := Demand(policy, n, rest, memory, p, early);
      && Conserves(memory, after, 0)
      && p in Resident(after.frames)
      && (p in after.dirty <==> p in memory.dirty)
  {
    if p !in memory.frames && |memory.frames| == n {
      ReplaceKeepsOthers(memory.frames, Choose(policy, rest, memory).1, p);
    }
  }

  lemma AddOne(pages: set<Page>, p: Page)
    ensures |pages + {p}| == |pages| + if p in pages then 0 else 1
  {
    if p in pages {
      assert pages + {p} == pages;
    }
  }

  lemma InstructionBranchConservesDirt(policy: Policy, n: Positive, rest: seq<Page>, memory: Memory, letters: Letters,
                                       p: Page)
    requires WellFormed(memory, n) && memory.dirty <= Resident(memory.frames)
    ensures var after := InstructionBranch(policy, n, rest, memory, letters, p);
      && Conserves(memory, after, if letters.instruction == 'S' && p !in memory.dirty then 1 else 0)
      && (p in after.dirty <==> p in memory.dirty || letters.instruction == 'S')
  {
    DemandConservesDirt(policy, n, rest, memory, p, true);
    DemandConservesDirt(policy, n, rest, memory.(dirty := memory.dirty + {p}), p, true);
    AddOne(memory.dirty, p);
  }

  lemma AccessBranchConservesDirt(policy: Policy, n: Positive, rest: seq<Page>, memory: Memory, letters: Letters,
                                  p: Page)
    requires WellFormed(memory, n) && memory.dirty <= Resident(memory.frames)
    ensures var after := AccessBranch(policy, n, rest, memory, letters, p);
      Conserves(memory, after, if letters.access == 'M' && p !in memory.dirty then 1 else 0)
  {
    DemandConservesDirt(policy, n, rest, memory, p, false);
    AddOne(Demand(policy, n, rest, memory, p, false).dirty, p);
  }

  /** One line conserves writes plus dirty bits, but for one more bit if it stores to a page not dirty before. */
  lemma StepConservesDirt(policy: Policy, n: Positive, rest: seq<Page>, memory: Memory, letters: Letters, p: Page)
    requires WellFormed(memory, n) && memory.dirty <= Resident(memory.frames)
    ensures Conserves(memory, Step(policy, n, rest, memory, letters, p),
                      if Stores(letters) && p !in memory.dirty then 1 else 0)
  {
    var touched := Touch(policy, memory, p);
    InstructionBranchConservesDirt(policy, n, rest, touched, letters, p);
    InstructionBranchKeepsWellFormed(policy, n, rest, touched, letters, p);
    AccessBranchConservesDirt(policy, n, rest, InstructionBranch(policy, n, rest, touched, letters, p), letters, p);
  }

  /** How often a line has made a clean page dirty. */
  function TimesDirtied(lines: seq<Line>, run: seq<Memory>, k: nat): nat
    requires k <= |lines| < |run|
  {
    if k == 0 then 0
    else
      TimesDirtied(lines, run, k - 1) +
      if Stores(LettersAfter(lines, k)) && lines[k - 1].page !in run[k - 1].dirty then 1 else 0
  }

  function StoringLines(lines: seq<Line>, k: nat): nat
    requires k <= |lines|
  {
    if k == 0 then 0 else StoringLines(lines, k - 1) + if Stores(LettersAfter(lines, k)) then 1 else 0
  }

  function ModifyLines(lines: seq<Line>, k: nat): nat
    requires k <= |lines|
  {
    if k == 0 then 0 else ModifyLines(lines, k - 1) + if LettersAfter(lines, k).access == 'M' then 1 else 0
  }

  /** Line `k` conserves writes plus dirty bits, but for one more bit if it stores to a page not dirty before. */
  ghost predicate DirtKept(lines: seq<Line>, run: seq<Memory>, k: nat)
    requires k < |lines| < |run|
  {
    run[k].dirty <= Resident(run[k].frames) ==>
      Conserves(run[k], run[k + 1],
                if Stores(LettersAfter(lines, k + 1)) && lines[k].page !in run[k].dirty then 1 else 0)
  }

  lemma LineConservesDirt(policy: Policy, n: Positive, lines: seq<Line>, run: seq<Memory>, k: nat)
    requires k < |lines| < |run| && StepsTo(policy, n, lines, run, k)
    ensures DirtKept(lines, run, k)
  {
    if run[k].dirty <= Resident(run[k].frames) {
      StepConservesDirt(policy, n, Pages(lines)[k + 1..], run[k], LettersAfter(lines, k + 1), lines[k].page);
    }
  }

  lemma {:induction false} DirtSoFar(lines: seq<Line>, run: seq<Memory>, k: nat)
    requires k <= |lines| < |run| && run[0] == EMPTY && forall i :: 0 <= i < |lines| ==> DirtKept(lines, run, i)
    ensures run[k].dirty <= Resident(run[k].frames)
    ensures run[k].writes + |run[k].dirty| == TimesDirtied(lines, run, k) <= StoringLines(lines, k)
  {
    if k > 0 {
      DirtSoFar(lines, run, k - 1);
      assert DirtKept(lines, run, k - 1);
    }
  }

  /** Every page made dirty is either still dirty in its frame or has been written once; so writes never exceed the
      lines that store. */
  lemma RunConservesDirt(policy: Policy, n: Positive, lines: seq<Line>, run: seq<Memory>, k: nat)
    requires IsRun(policy, n, lines, run) && k <= |lines|
    ensures run[k].dirty <= Resident(run[k].frames)
    ensures run[k].writes + |run[k].dirty| == TimesDirtied(lines, run, k) <= StoringLines(lines, k)
  {
    forall i | 0 <= i < |lines|
      ensures DirtKept(lines, run, i)
    {
      LineConservesDirt(policy, n, lines, run, i);
    }
    DirtSoFar(lines, run, k);
  }

  lemma StepCountsAccesses(policy: Policy, n: Positive, rest: seq<Page>, memory: Memory, letters: Letters, p: Page)
    requires WellFormed(memory, n)
    ensures Step(policy, n, rest, memory, letters, p).accesses ==
            memory.accesses + 1 + (if letters.access == 'M' then 1 else 0)
  {
    var touched := Touch(policy, memory, p);
    InstructionBranchKeepsWellFormed(policy, n, rest, touched, letters, p);
    var first := InstructionBranch(policy, n, rest, touched, letters, p);
    assert first.accesses == memory.accesses;
    assert Demand(policy, n, rest, first, p, false).accesses == first.accesses;
  }

  lemma {:induction false} AccessesSoFar(policy: Policy, n: Positive, lines: seq<Line>, run: seq<Memory>, k: nat)
    requires IsRun(policy, n, lines, run) && k <= |lines|
    ensures run[k].accesses == k + ModifyLines(lines, k)
  {
    if k > 0 {
      AccessesSoFar(policy, n, lines, run, k - 1);
      assert StepsTo(policy, n, lines, run, k - 1);
      StepCountsAccesses(policy, n, Pages(lines)[k..], run[k - 1], LettersAfter(lines, k), lines[k - 1].page);
    }
  }

  /** A line counts as one memory access, and as two while the access letter in force is `M`. */
  lemma RunCountsAccesses(policy: Policy, n: Positive, lines: seq<Line>, k: nat)
    requires k <= |lines|
    ensures After(policy, n, lines, k).accesses == k + ModifyLines(lines, k)
  {
    var run := RunThrough(policy, n, lines, k);
    AccessesSoFar(policy, n, lines, run, k);
  }

  // ---------- which pages are dirty ----------

  lemma VictimIsGone(frames: seq<Page>, i: nat, p: Page)
    requires Distinct(frames) && i < |frames| && p !in frames
    ensures frames[i] !in frames[i := p]
  {
    var after := frames[i := p];
    forall j | 0 <= j < |after|
      ensures after[j] != frames[i]
    {
      assert j != i ==> after[j] == frames[j];
    }
  }

  /** A demand changes the dirty bit of no page that is resident after it. */
  lemma DemandKeepsBits(policy: Policy, n: Positive, rest: seq<Page>, memory: Memory, p: Page, early: bool, q: Page)
    requires WellFormed(memory, n) && q in Demand(policy, n, rest, memory, p, early).frames
    ensures q in Demand(policy, n, rest, memory, p, early).dirty <==> q in memory.dirty
    ensures q in memory.frames || q == p
  {
    if p !in memory.frames && |memory.frames| == n {
      VictimIsGone(memory.frames, Choose(policy, rest, memory).1, p);
    }
  }

  lemma StepDirties(policy: Policy, n: Positive, rest: seq<Page>, memory: Memory, letters: Letters, p: Page, q: Page)
    requires WellFormed(memory, n) && q in Step(policy, n, rest, memory, letters, p).frames
    ensures q in Step(policy, n, rest, memory, letters, p).dirty <==> q in memory.dirty || (q == p && Stores(letters))
    ensures q in memory.frames || q == p
  {
    var touched := Touch(policy, memory, p);
    InstructionBranchKeepsWellFormed(policy, n, rest, touched, letters, p);
    var first := InstructionBranch(policy, n, rest, touched, letters, p);
    if letters.access == 'L' || letters.access == 'M' {
      DemandKeepsBits(policy, n, rest, first, p, false, q);
    }
    if letters.instruction == 'I' {
      DemandKeepsWellFormed(policy, n, rest, touched, p, true);
      DemandKeepsBits(policy, n, rest, touched, p, true, q);
    } else if letters.instruction == 'S' {
      DemandKeepsWellFormed(policy, n, rest, touched.(dirty := touched.dirty + {p}), p, true);
      DemandKeepsBits(policy, n, rest, touched.(dirty := touched.dirty + {p}), p, true, q);
    }
  }

  /** Page `q` has been resident from line `j` on, through line `k`. */
  ghost predicate ResidentSince(run: seq<Memory>, q: Page, j: nat, k: nat)
    requires k < |run|
  {
    forall i :: j < i <= k ==> q in run[i].frames
  }

  /** Some line up to `k` stored to page `q`, which has not left its frame since. */
  ghost predicate StoredSince(lines: seq<Line>, run: seq<Memory>, q: Page, k: nat)
    requires k <= |lines| < |run|
  {
    exists j :: 0 <= j < k && lines[j].page == q && Stores(LettersAfter(lines, j + 1)) && ResidentSince(run, q, j, k)
  }

  lemma StoredSinceStep(lines: seq<Line>, run: seq<Memory>, q: Page, k: nat)
    requires k < |lines| < |run| && q in run[k + 1].frames
    ensures StoredSince(lines, run, q, k + 1) <==>
              || (lines[k].page == q && Stores(LettersAfter(lines, k + 1)))
              || (StoredSince(lines, run, q, k) && q in run[k].frames)
  {
    if lines[k].page == q && Stores(LettersAfter(lines, k + 1)) {
      assert ResidentSince(run, q, k, k + 1);
    }
    if StoredSince(lines, run, q, k + 1) && !(lines[k].page == q && Stores(LettersAfter(lines, k + 1))) {
      var j :| 0 <= j < k + 1 && lines[j].page == q && Stores(LettersAfter(lines, j + 1)) &&
               ResidentSince(run, q, j, k + 1);
      assert j < k && ResidentSince(run, q, j, k);
    }
    if StoredSince(lines, run, q, k) && q in run[k].frames {
      var j :| 0 <= j < k && lines[j].page == q && Stores(LettersAfter(lines, j + 1)) && ResidentSince(run, q, j, k);
      assert ResidentSince(run, q, j, k + 1);
    }
  }

  /** Line `k` as page `q` sees it: while resident it stays dirty, and is made dirty by a line that stores to it. */
  ghost predicate DirtyLine(lines: seq<Line>, run: seq<Memory>, k: nat, q: Page)
    requires k < |lines| < |run|
  {
    && (q in run[k].dirty ==> q in run[k].frames)
    && (q in run[k + 1].frames ==>
          && (q in run[k].frames || q == lines[k].page)
          && (q in run[k + 1].dirty <==>
                q in run[k].dirty || (q == lines[k].page && Stores(LettersAfter(lines, k + 1)))))
  }

  lemma DirtyInRun(policy: Policy, n: Positive, lines: seq<Line>, run: seq<Memory>, k: nat, q: Page)
    requires k < |lines| < |run| && StepsTo(policy, n, lines, run, k) && run[k].dirty <= Resident(run[k].frames)
    ensures DirtyLine(lines, run, k, q)
  {
    assert q in run[k].dirty ==> q in Resident(run[k].frames);
    if q in run[k + 1].frames {
      StepDirties(policy, n, Pages(lines)[k + 1..], run[k], LettersAfter(lines, k + 1), lines[k].page, q);
    }
  }

  lemma {:induction false} DirtySoFar(lines: seq<Line>, run: seq<Memory>, k: nat, q: Page)
    requires k <= |lines| < |run| && run[0].dirty == {} && q in run[k].frames
    requires forall i :: 0 <= i < |lines| ==> DirtyLine(lines, run, i, q)
    ensures q in run[k].dirty <==> StoredSince(lines, run, q, k)
  {
    if k > 0 {
      assert DirtyLine(lines, run, k - 1, q);
      StoredSinceStep(lines, run, q, k - 1);
      if q in run[k - 1].frames {
        DirtySoFar(lines, run, k - 1, q);
      }
    }
  }

  /** A resident page is dirty exactly if a line has stored to it since it came in. */
  lemma DirtyIsStored(policy: Policy, n: Positive, lines: seq<Line>, run: seq<Memory>, k: nat, q: Page)
    requires IsRun(policy, n, lines, run) && k <= |lines| && q in run[k].frames
    ensures q in run[k].dirty <==> StoredSince(lines, run, q, k)
  {
    forall i | 0 <= i < |lines|
      ensures DirtyLine(lines, run, i, q)
    {
      RunConservesDirt(policy, n, lines, run, i);
      DirtyInRun(policy, n, lines, run, i, q);
    }
    DirtySoFar(lines, run, k, q);
  }

  // ---------- what is printed ----------

  /** How many of the four branches run for a line: one outcome is printed in each. */
  function Branches(letters: Letters): nat {
    (if letters.instruction == 'I' || letters.instruction == 'S' then 1 else 0) +
    (if letters.access == 'L' || letters.access == 'M' then 1 else 0)
  }

  function BranchesRun(lines: seq<Line>, k: nat): nat
    requires k <= |lines|
  {
    if k == 0 then 0 else BranchesRun(lines, k - 1) + Branches(LettersAfter(lines, k))
  }

  /** The outcome of a line's first branch, seen from the memories around it: a fault with every frame taken is named
      after the dirty bit of the page that is gone. */
  ghost predicate FirstOutcome(n: Positive, before: Memory, after: Memory, p: Page, outcome: Outcome) {
    if p in before.frames then outcome == Hit
    else if |before.frames| < n then outcome == NoEviction
    else exists v ::
      v in before.frames && v !in after.frames && outcome == if v in before.dirty then EvictDirty else EvictClean
  }

  /** One line prints one outcome for each branch run; the second one is always a hit. */
  ghost predicate Prints(n: Positive, letters: Letters, p: Page, before: Memory, after: Memory) {
    var printed := |after.output| - |before.output|;
    && printed == Branches(letters)
    && before.output <= after.output
    && (printed >= 1 ==> FirstOutcome(n, before, after, p, after.output[|before.output|]))
    && (printed == 2 ==> after.output[|before.output| + 1] == Hit)
  }

  lemma DemandPrints(policy: Policy, n: Positive, rest: seq<Page>, memory: Memory, p: Page, early: bool)
    requires WellFormed(memory, n)
    ensures var after := Demand(policy, n, rest, memory, p, early);
      && |after.output| == |memory.output| + 1
      && memory.output <= after.output
      && p in after.frames
      && FirstOutcome(n, memory, after, p, after.output[|memory.output|])
  {
    var after := Demand(policy, n, rest, memory, p, early);
    DemandKeepsWellFormed(policy, n, rest, memory, p, early);
    if p !in memory.frames && |memory.frames| == n {
      var (searched, i) := Choose(policy, rest, memory);
      VictimIsGone(memory.frames, i, p);
      assert memory.frames[i] in memory.frames && memory.frames[i] !in after.frames;
    }
  }

  lemma InstructionPrints(policy: Policy, n: Positive, rest: seq<Page>, memory: Memory, letters: Letters, p: Page)
    requires WellFormed(memory, n)
    ensures var after := InstructionBranch(policy, n, rest, memory, letters, p);
      if letters.instruction == 'I' || letters.instruction == 'S' then
        && |after.output| == |memory.output| + 1
        && memory.output <= after.output
        && p in after.frames
        && FirstOutcome(n, memory, after, p, after.output[|memory.output|])
      else after == memory
  {
    if letters.instruction == 'I' {
      DemandPrints(policy, n, rest, memory, p, true);
    } else if letters.instruction == 'S' {
      DemandPrints(policy, n, rest, memory.(dirty := memory.dirty + {p}), p, true);
    }
  }

  lemma AccessPrints(policy: Policy, n: Positive, rest: seq<Page>, memory: Memory, letters: Letters, p: Page)
    requires WellFormed(memory, n)
    ensures var after := AccessBranch(policy, n, rest, memory, letters, p);
      if letters.access == 'L' || letters.access == 'M' then
        && |after.output| == |memory.output| + 1
        && memory.output <= after.output
        && FirstOutcome(n, memory, after, p, after.output[|memory.output|])
        && (p in memory.frames ==> after.frames == memory.frames)
      else after == memory
  {
    DemandPrints(policy, n, rest, memory, p, false);
  }

  /** One line prints an outcome for each branch it runs. */
  lemma StepPrints(policy: Policy, n: Positive, rest: seq<Page>, memory: Memory, letters: Letters, p: Page)
    requires WellFormed(memory, n)
    ensures Prints(n, letters, p, memory, Step(policy, n, rest, memory, letters, p))
  {
    var touched := Touch(policy, memory, p);
    InstructionBranchKeepsWellFormed(policy, n, rest, touched, letters, p);
    var first := InstructionBranch(policy, n, rest, touched, letters, p);
    InstructionPrints(policy, n, rest, touched, letters, p);
    AccessPrints(policy, n, rest, first, letters, p);
  }

  /** Every line of every run prints that, and so there are as many outcomes as branches run. */
  lemma {:induction false} RunPrints(policy: Policy, n: Positive, lines: seq<Line>, run: seq<Memory>, k: nat)
    requires IsRun(policy, n, lines, run) && k <= |lines|
    ensures |run[k].output| == BranchesRun(lines, k)
    ensures k < |lines| ==> Prints(n, LettersAfter(lines, k + 1), lines[k].page, run[k], run[k + 1])
  {
    if k > 0 {
      RunPrints(policy, n, lines, run, k - 1);
    }
    if k < |lines| {
      assert StepsTo(policy, n, lines, run, k);
      StepPrints(policy, n, Pages(lines)[k + 1..], run[k], LettersAfter(lines, k + 1), lines[k].page);
    }
  }

  lemma {:induction false} OutcomesInAll(output: seq<Outcome>)
    ensures var printed := multiset(output);
      |output| == printed[Hit] + printed[NoEviction] + printed[EvictClean] + printed[EvictDirty]
  {
    if output != [] {
      var last := |output| - 1;
      OutcomesInAll(output[..last]);
      assert output == output[..last] + [output[last]];
      assert multiset(output) == multiset(output[..last]) + multiset{output[last]};
      match output[last] {
        case Hit =>
        case NoEviction =>
        case EvictClean =>
        case EvictDirty =>
      }
    }
  }

  /** The statistics of a run, from its trace and from what it printed. */
  lemma RunAddsUp(policy: Policy, n: Positive, lines: seq<Line>)
    ensures var memory := After(policy, n, lines, |lines|);
      var printed := multiset(memory.output);
      && memory.accesses == |lines| + ModifyLines(lines, |lines|)
      && |memory.output| == BranchesRun(lines, |lines|)
      && memory.faults == |memory.output| - printed[Hit]
      && memory.writes == printed[EvictDirty]
  {
    var run := RunThrough(policy, n, lines, |lines|);
    RunPrints(policy, n, lines, run, |lines|);
    RunCountsAccesses(policy, n, lines, |lines|);
    RunBalances(policy, n, lines, |lines|);
    OutcomesInAll(run[|lines|].output);
  }

  // ---------- NRU's victim ----------

  /** NRU evicts a referenced page only when every resident is referenced, and then whatever is in frame 0, clean or
      dirty; among unreferenced pages the lowest clean frame goes first, then the highest dirty one. */
  lemma NotRecentVictim(frames: seq<Page>, referenced: set<Page>, dirty: set<Page>)
    requires frames != []
    ensures var i := NotRecentFrame(frames, referenced, dirty);
      && (frames[i] in referenced <==> forall j :: 0 <= j < |frames| ==> frames[j] in referenced)
      && (frames[i] in referenced ==> i == 0)
      && (frames[i] !in referenced && frames[i] !in dirty ==>
            forall j :: 0 <= j < i ==> frames[j] in referenced || frames[j] in dirty)
      && (frames[i] !in referenced && frames[i] in dirty ==>
            && (forall j :: 0 <= j < |frames| ==> frames[j] in referenced || frames[j] in dirty)
            && (forall j :: i < j < |frames| ==> frames[j] in referenced))
  {
    var idle := Resident(frames) - referenced;
    var i := NotRecentFrame(frames, referenced, dirty);
    forall j | 0 <= j < |frames| && frames[j] !in referenced
      ensures frames[j] in idle
      ensures frames[i] !in referenced
    {
    }
  }

  // ---------- NRU's reference bits ----------

  ghost predicate Due(accesses: nat, refresh: Positive) {
    accesses % refresh == 0
  }

  /** Line `i` of an NRU run starts with a reset: the accesses counted before it are a multiple of the period. */
  ghost predicate ResetAt(lines: seq<Line>, refresh: Positive, i: nat)
    requires i < |lines|
  {
    Due(i + ModifyLines(lines, i), refresh)
  }

  /** Page `q` has been asked for among the first `k` lines, and no later one of them has started with a reset. */
  ghost predicate RecentlyUsed(lines: seq<Line>, refresh: Positive, q: Page, k: nat)
    requires k <= |lines|
  {
    exists j :: 0 <= j < k && lines[j].page == q && NoResets(lines, refresh, j + 1, k)
  }

  ghost predicate NoResets(lines: seq<Line>, refresh: Positive, from: nat, to: nat)
    requires to <= |lines|
  {
    forall i :: from <= i < to ==> !ResetAt(lines, refresh, i)
  }

  /** A line for page `p`, as the bit of page `q` sees it: the bit of `p` is set; those of all other residents are
      cleared by a reset, and left alone otherwise. */
  ghost predicate BitStep(before: Memory, after: Memory, p: Page, q: Page, reset: bool) {
    q in after.frames ==>
      && (q in after.referenced <==> q == p || (q in before.referenced && !reset))
      && (q != p ==> q in before.frames)
  }

  lemma NruBits(refresh: Positive, n: Positive, rest: seq<Page>, memory: Memory, after: Memory, letters: Letters,
                p: Page, q: Page)
    requires WellFormed(memory, n) && after == Step(Nru(refresh), n, rest, memory, letters, p)
    ensures BitStep(memory, after, p, q, Due(memory.accesses, refresh))
  {
    StepEffect(Nru(refresh), n, rest, memory, letters, p);
    if q in after.frames && q != p {
      assert q in memory.frames;
    }
  }

  lemma RecentlyUsedStep(lines: seq<Line>, refresh: Positive, q: Page, k: nat)
    requires k < |lines|
    ensures RecentlyUsed(lines, refresh, q, k + 1) <==>
              lines[k].page == q || (RecentlyUsed(lines, refresh, q, k) && !ResetAt(lines, refresh, k))
  {
    if lines[k].page == q {
      assert NoResets(lines, refresh, k + 1, k + 1);
    }
    if RecentlyUsed(lines, refresh, q, k + 1) && lines[k].page != q {
      var j :| 0 <= j < k + 1 && lines[j].page == q && NoResets(lines, refresh, j + 1, k + 1);
      assert j < k && NoResets(lines, refresh, j + 1, k);
    }
    if RecentlyUsed(lines, refresh, q, k) && !ResetAt(lines, refresh, k) {
      var j :| 0 <= j < k && lines[j].page == q && NoResets(lines, refresh, j + 1, k);
      assert NoResets(lines, refresh, j + 1, k + 1);
    }
  }

  ghost predicate BitLine(lines: seq<Line>, refresh: Positive, run: seq<Memory>, k: nat, q: Page)
    requires k < |lines| < |run|
  {
    BitStep(run[k], run[k + 1], lines[k].page, q, ResetAt(lines, refresh, k))
  }

  lemma DueIsReset(refresh: Positive, n: Positive, lines: seq<Line>, run: seq<Memory>, k: nat)
    requires IsRun(Nru(refresh), n, lines, run) && k < |lines|
    ensures Due(run[k].accesses, refresh) == ResetAt(lines, refresh, k)
  {
    AccessesSoFar(Nru(refresh), n, lines, run, k);
  }

  lemma NruBitsInRun(refresh: Positive, n: Positive, lines: seq<Line>, run: seq<Memory>, k: nat, q: Page)
    requires IsRun(Nru(refresh), n, lines, run) && k < |lines|
    ensures BitLine(lines, refresh, run, k, q)
  {
    DueIsReset(refresh, n, lines, run, k);
    var rest, letters := RunTakesSomeStep(Nru(refresh), n, lines, run, k);
    NruBits(refresh, n, rest, run[k], run[k + 1], letters, lines[k].page, q);
  }

  lemma {:induction false} RecentSoFar(lines: seq<Line>, refresh: Positive, run: seq<Memory>, k: nat, q: Page)
    requires k <= |lines| < |run| && run[0] == EMPTY && q in run[k].frames
    requires forall i :: 0 <= i < |lines| ==> BitLine(lines, refresh, run, i, q)
    ensures q in run[k].referenced <==> RecentlyUsed(lines, refresh, q, k)
  {
    if k > 0 {
      assert BitLine(lines, refresh, run, k - 1, q);
      RecentlyUsedStep(lines, refresh, q, k - 1);
      if q in run[k - 1].frames {
        RecentSoFar(lines, refresh, run, k - 1, q);
      }
    }
  }

  /** A resident page is referenced exactly if it has been asked for since the last reset, a reset coming before every
      line at which the count of accesses is a multiple of the period. */
  lemma ReferencedIsRecent(refresh: Positive, n: Positive, lines: seq<Line>, run: seq<Memory>, k: nat, q: Page)
    requires IsRun(Nru(refresh), n, lines, run) && k <= |lines| && q in run[k].frames
    ensures q in run[k].referenced <==> RecentlyUsed(lines, refresh, q, k)
  {
    forall i | 0 <= i < |lines|
      ensures BitLine(lines, refresh, run, i, q)
    {
      NruBitsInRun(refresh, n, lines, run, i, q);
    }
    RecentSoFar(lines, refresh, run, k, q);
  }
}
