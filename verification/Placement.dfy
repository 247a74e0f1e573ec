/** What one trace line does to the placement of pages in frames, for every policy. */
module Placement {
  import opened Trace
  import opened VirtualMemory

  lemma SweepIgnoresOthers(frames: seq<Page>, referenced: set<Page>, hand: nat, p: Page)
    requires frames != [] && hand <= |frames| && p !in frames
    ensures p in Sweep(frames, referenced, hand).0 <==> p in referenced
    decreases referenced
  {
    var h := if hand == |frames| then 0 else hand;
    if frames[h] in referenced {
      SweepIgnoresOthers(frames, referenced - {frames[h]}, h + 1, p);
    }
  }

  /** The memory in which the demand of a line runs. */
  function AtDemand(policy: Policy, memory: Memory, letters: Letters, p: Page): (m: Memory)
    ensures m.frames == memory.frames && m.hand == memory.hand && p in m.referenced
    ensures policy.Clock? ==> m.referenced == memory.referenced + {p}
  {
    var touched := Touch(policy, memory, p);
    if letters.instruction == 'S' then touched.(dirty := touched.dirty + {p}) else touched
  }

  /** `after` is `at` once `p` has been demanded: a hit moves nothing, a fault brings `p` in, and only a fault with
      every frame taken evicts, never `p` itself. */
  ghost predicate Demanded(policy: Policy, n: Positive, rest: seq<Page>, at: Memory, after: Memory, p: Page)
    requires WellFormed(at, n)
  {
    if p in at.frames then
      && after.frames == at.frames
      && after.hand == at.hand
      && after.faults == at.faults
      && after.writes == at.writes
      && after.referenced == at.referenced
    else if |at.frames| < n then
      && after.frames == at.frames + [p]
      && after.hand == at.hand
      && after.faults == at.faults + 1
      && after.writes == at.writes
      && after.referenced == at.referenced
    else
      var (searched, i) := Choose(policy, rest, at);
      && after.frames == at.frames[i := p]
      && after.hand == searched.hand
      && after.faults == at.faults + 1
      && after.writes == at.writes + (if at.frames[i] in at.dirty then 1 else 0)
      && after.referenced - {at.frames[i]} == searched.referenced - {at.frames[i]}
      && p in after.referenced
  }

  lemma DemandEffect(policy: Policy, n: Positive, rest: seq<Page>, at: Memory, p: Page, early: bool)
    requires WellFormed(at, n) && p in at.referenced
    ensures Demanded(policy, n, rest, at, Demand(policy, n, rest, at, p, early), p)
  {
    if p !in at.frames && |at.frames| == n && policy.Clock? {
      SweepIgnoresOthers(at.frames, at.referenced, at.hand, p);
    }
  }

  /** The two memories differ at most in dirty bits, access count and output. */
  ghost predicate SamePlacement(a: Memory, b: Memory) {
    a.frames == b.frames && a.hand == b.hand && a.faults == b.faults && a.writes == b.writes &&
    a.referenced == b.referenced
  }

  lemma SecondBranchHits(policy: Policy, n: Positive, rest: seq<Page>, first: Memory, letters: Letters, p: Page)
    requires WellFormed(first, n)
    requires p in first.frames || (letters.access != 'L' && letters.access != 'M')
    ensures SamePlacement(AccessBranch(policy, n, rest, first, letters, p), first)
  {
  }

  lemma OnlyBranchDemands(policy: Policy, n: Positive, rest: seq<Page>, first: Memory, letters: Letters, p: Page)
    requires WellFormed(first, n) && p in first.referenced
    requires letters.access == 'L' || letters.access == 'M'
    ensures Demanded(policy, n, rest, first, AccessBranch(policy, n, rest, first, letters, p), p)
    ensures p in AccessBranch(policy, n, rest, first, letters, p).frames
  {
    DemandEffect(policy, n, rest, first, p, false);
    DemandKeepsWellFormed(policy, n, rest, first, p, false);
  }

  /** One line demands its page at most once, also when two branches run for it: the second one always hits. */
  lemma StepEffect(policy: Policy, n: Positive, rest: seq<Page>, memory: Memory, letters: Letters, p: Page)
    requires WellFormed(memory, n)
    ensures var after := Step(policy, n, rest, memory, letters, p);
      var at := AtDemand(policy, memory, letters, p);
      if Demands(letters) then Demanded(policy, n, rest, at, after, p) && p in after.frames
      else SamePlacement(after, at)
  {
    var touched := Touch(policy, memory, p);
    var at := AtDemand(policy, memory, letters, p);
    InstructionBranchKeepsWellFormed(policy, n, rest, touched, letters, p);
    var first := InstructionBranch(policy, n, rest, touched, letters, p);
    if letters.instruction == 'I' || letters.instruction == 'S' {
      assert first == Demand(policy, n, rest, at, p, true);
      DemandEffect(policy, n, rest, at, p, true);
      DemandKeepsWellFormed(policy, n, rest, at, p, true);
      SecondBranchHits(policy, n, rest, first, letters, p);
      KeepsPlacement(policy, n, rest, at, first, Step(policy, n, rest, memory, letters, p), p);
    } else if Demands(letters) {
      OnlyBranchDemands(policy, n, rest, at, letters, p);
      KeepsPlacement(policy, n, rest, at, AccessBranch(policy, n, rest, at, letters, p),
                     Step(policy, n, rest, memory, letters, p), p);
    }
  }

  lemma KeepsPlacement(policy: Policy, n: Positive, rest: seq<Page>, at: Memory, a: Memory, b: Memory, p: Page)
    requires WellFormed(at, n) && SamePlacement(a, b)
    requires Demanded(policy, n, rest, at, a, p)
    ensures Demanded(policy, n, rest, at, b, p)
  {
  }

  // ---------- the bit of an evicted page ----------

  lemma OthersStay(frames: seq<Page>, i: nat, p: Page, v: Page)
    requires i < |frames| && v in frames && v != frames[i]
    ensures v in frames[i := p]
  {
    var j :| 0 <= j < |frames| && frames[j] == v;
    assert frames[i := p][j] == v;
  }

  lemma DemandLeavesBit(n: Positive, rest: seq<Page>, memory: Memory, p: Page, early: bool, v: Page)
    requires WellFormed(memory, n)
    requires v in memory.frames && v !in Demand(Clock, n, rest, memory, p, early).frames
    ensures v in Demand(Clock, n, rest, memory, p, early).referenced <==> early
  {
    if p !in memory.frames && |memory.frames| == n {
      var i := Choose(Clock, rest, memory).1;
      if v != memory.frames[i] {
        OthersStay(memory.frames, i, p, v);
      }
    }
  }

  /** CLOCK leaves the bit of the page it evicts set in the I and S branches, and clear in the L and M branches. */
  lemma EvictionLeavesBit(n: Positive, rest: seq<Page>, memory: Memory, letters: Letters, p: Page, v: Page)
    requires WellFormed(memory, n) && v in memory.frames && v !in Step(Clock, n, rest, memory, letters, p).frames
    ensures v in Step(Clock, n, rest, memory, letters, p).referenced <==>
              letters.instruction == 'I' || letters.instruction == 'S'
  {
    var touched := Touch(Clock, memory, p);
    var at := AtDemand(Clock, memory, letters, p);
    InstructionBranchKeepsWellFormed(Clock, n, rest, touched, letters, p);
    var first := InstructionBranch(Clock, n, rest, touched, letters, p);
    if letters.instruction == 'I' || letters.instruction == 'S' {
      assert first == Demand(Clock, n, rest, at, p, true);
      DemandKeepsWellFormed(Clock, n, rest, at, p, true);
      SecondBranchHits(Clock, n, rest, first, letters, p);
      DemandLeavesBit(n, rest, at, p, true, v);
    } else if letters.access == 'L' || letters.access == 'M' {
      DemandLeavesBit(n, rest, touched, p, false, v);
    }
  }
}
