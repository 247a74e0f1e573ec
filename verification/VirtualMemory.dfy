/** The page-replacement simulator as a machine over values: what one trace line does to the frames,
    the reference and dirty bits, the clock hand, the counters and the printed outcomes. */
module VirtualMemory {
  import opened Options
  import opened Trace

  /** A frame count or a refresh period. */
  type Positive = n: nat | 1 <= n witness 1

  datatype Policy = Opt | Clock | Nru(refresh: Positive)

  /** The outcome the simulator prints for a demand. */
  datatype Outcome = Hit | NoEviction | EvictClean | EvictDirty

  /** `frames` lists the filled frames in order; the bit sets range over all pages, as the page table does. */
  datatype Memory = Memory(
    frames: seq<Page>,
    referenced: set<Page>,
    dirty: set<Page>,
    hand: nat,
    faults: nat,
    writes: nat,
    accesses: nat,
    output: seq<Outcome>)

  const EMPTY := Memory([], {}, {}, 0, 0, 0, 0, [])

  ghost predicate Distinct(frames: seq<Page>) {
    forall i, j :: 0 <= i < j < |frames| ==> frames[i] != frames[j]
  }

  /** What every step keeps: each page is in at most one frame, and the hand points at or just past a frame. */
  ghost predicate WellFormed(memory: Memory, n: Positive) {
    && |memory.frames| <= n
    && memory.hand <= |memory.frames|
    && (|memory.frames| < n ==> memory.hand == 0)
    && Distinct(memory.frames)
  }

  // ---------- choosing the frame to evict from ----------

  /** How many lines ahead `p` is used next; the whole length of `rest` if never. */
  function NextUse(rest: seq<Page>, p: Page): (d: nat)
    ensures d <= |rest|
    ensures d < |rest| ==> rest[d] == p
    ensures forall j :: 0 <= j < d ==> rest[j] != p
  {
    if rest == [] || rest[0] == p then 0 else 1 + NextUse(rest[1..], p)
  }

  /** OPT: the lowest frame whose page is used latest, a page never used again counting as latest of all. */
  function FarthestFrame(frames: seq<Page>, rest: seq<Page>): (i: nat)
    requires frames != []
    ensures i < |frames|
    ensures forall j :: 0 <= j < |frames| ==> NextUse(rest, frames[j]) <= NextUse(rest, frames[i])
    ensures forall j :: 0 <= j < i ==> NextUse(rest, frames[j]) < NextUse(rest, frames[i])
  {
    var last := |frames| - 1;
    if last == 0 then 0
    else
      var best := FarthestFrame(frames[..last], rest);
      if NextUse(rest, frames[last]) > NextUse(rest, frames[best]) then last else best
  }

  /** CLOCK: the bits left set, and the hand one past the first frame found with its bit clear. */
  function Sweep(frames: seq<Page>, referenced: set<Page>, hand: nat): (r: (set<Page>, nat))
    requires frames != [] && hand <= |frames|
    ensures 1 <= r.1 <= |frames|
    ensures r.0 <= referenced && frames[r.1 - 1] !in r.0
    decreases referenced
  {
    var h := if hand == |frames| then 0 else hand;
    if frames[h] !in referenced then (referenced, h + 1)
    else Sweep(frames, referenced - {frames[h]}, h + 1)
  }

  function LowestIn(frames: seq<Page>, wanted: set<Page>): (i: Option<nat>)
    ensures i.None? ==> forall j :: 0 <= j < |frames| ==> frames[j] !in wanted
    ensures i.Some? ==> i.value < |frames| && frames[i.value] in wanted
    ensures i.Some? ==> forall j :: 0 <= j < i.value ==> frames[j] !in wanted
  {
    if frames == [] then None
    else if frames[0] in wanted then Some(0)
    else
      var i := LowestIn(frames[1..], wanted);
      if i.None? then None else Some(i.value + 1)
  }

  function HighestIn(frames: seq<Page>, wanted: set<Page>): (i: Option<nat>)
    ensures i.None? ==> forall j :: 0 <= j < |frames| ==> frames[j] !in wanted
    ensures i.Some? ==> i.value < |frames| && frames[i.value] in wanted
    ensures i.Some? ==> forall j :: i.value < j < |frames| ==> frames[j] !in wanted
  {
    if frames == [] then None
    else if frames[|frames| - 1] in wanted then Some(|frames| - 1)
    else HighestIn(frames[..|frames| - 1], wanted)
  }

  function Resident(frames: seq<Page>): set<Page> {
    set p | p in frames
  }

  /** NRU: the lowest unreferenced clean frame, else the highest unreferenced dirty one, else frame 0. */
  function NotRecentFrame(frames: seq<Page>, referenced: set<Page>, dirty: set<Page>): (i: nat)
    requires frames != []
    ensures i < |frames|
  {
    var idle := Resident(frames) - referenced;
    var clean, soiled := LowestIn(frames, idle - dirty), HighestIn(frames, idle * dirty);
    if clean.Some? then clean.value else if soiled.Some? then soiled.value else 0
  }

  /** The bits and hand after the search, and the frame it settles on. */
  function Choose(policy: Policy, rest: seq<Page>, memory: Memory): (r: (Memory, nat))
    requires memory.frames != [] && memory.hand <= |memory.frames|
    ensures r.1 < |memory.frames|
    ensures r.0.hand <= |memory.frames| && r.0.referenced <= memory.referenced
    ensures r.0 == memory.(hand := r.0.hand, referenced := r.0.referenced)
  {
    match policy
    case Opt => (memory, FarthestFrame(memory.frames, rest))
    case Clock =>
      var (referenced, hand) := Sweep(memory.frames, memory.referenced, memory.hand);
      (memory.(referenced := referenced, hand := hand), hand - 1)
    case Nru(_) => (memory, NotRecentFrame(memory.frames, memory.referenced, memory.dirty))
  }

  // ---------- one demand, one line, one run ----------

  /** Whether an evicted page is left with its reference bit set: CLOCK does so in the I and S branches only. */
  function BitAfterEviction(policy: Policy, early: bool): bool {
    policy.Clock? && early
  }

  /** Page `p`, whose entry is already touched, takes over frame `i`. */
  function Replace(memory: Memory, i: nat, p: Page, keepBit: bool): Memory
    requires i < |memory.frames|
  {
    var victim := memory.frames[i];
    memory.(frames := memory.frames[i := p],
            referenced := if keepBit then memory.referenced + {victim} else memory.referenced - {victim},
            dirty := memory.dirty - {victim},
            faults := memory.faults + 1,
            writes := memory.writes + (if victim in memory.dirty then 1 else 0),
            output := memory.output + [if victim in memory.dirty then EvictDirty else EvictClean])
  }

  /** The block each of the four branches repeats: hit, fault into a free frame, or fault with an eviction. */
  function Demand(policy: Policy, n: Positive, rest: seq<Page>, memory: Memory, p: Page, early: bool): Memory
    requires WellFormed(memory, n)
  {
    if p in memory.frames then
      memory.(output := memory.output + [Hit])
    else if |memory.frames| < n then
      memory.(frames := memory.frames + [p], faults := memory.faults + 1, output := memory.output + [NoEviction])
    else
      var (searched, i) := Choose(policy, rest, memory);
      Replace(searched, i, p, BitAfterEviction(policy, early))
  }

  /** What happens before the line is looked up: NRU's periodic reset, then the page's reference bit is set. */
  function Touch(policy: Policy, memory: Memory, p: Page): Memory {
    var reset := policy.Nru? && memory.accesses % policy.refresh == 0;
    var kept := if reset then memory.referenced - Resident(memory.frames) else memory.referenced;
    memory.(referenced := kept + {p})
  }

  /** The I branch or the S branch. */
  function InstructionBranch(policy: Policy, n: Positive, rest: seq<Page>, memory: Memory, letters: Letters,
                             p: Page): Memory
    requires WellFormed(memory, n)
  {
    if letters.instruction == 'I' then Demand(policy, n, rest, memory, p, true)
    else if letters.instruction == 'S' then Demand(policy, n, rest, memory.(dirty := memory.dirty + {p}), p, true)
    else memory
  }

  /** The L branch or the M branch. */
  function AccessBranch(policy: Policy, n: Positive, rest: seq<Page>, memory: Memory, letters: Letters, p: Page): Memory
    requires WellFormed(memory, n)
  {
    if letters.access == 'L' then Demand(policy, n, rest, memory, p, false)
    else if letters.access == 'M' then
      var loaded := Demand(policy, n, rest, memory, p, false);
      loaded.(dirty := loaded.dirty + {p}, accesses := loaded.accesses + 1)
    else memory
  }

  lemma DemandKeepsWellFormed(policy: Policy, n: Positive, rest: seq<Page>, memory: Memory, p: Page, early: bool)
    requires WellFormed(memory, n)
    ensures WellFormed(Demand(policy, n, rest, memory, p, early), n)
    ensures p in Demand(policy, n, rest, memory, p, early).frames
  {
    var after := Demand(policy, n, rest, memory, p, early);
    if p !in memory.frames {
      if |memory.frames| < n {
        assert after.frames[|memory.frames|] == p;
      } else {
        var (searched, i) := Choose(policy, rest, memory);
        assert after.frames[i] == p;
      }
    }
  }

  lemma InstructionBranchKeepsWellFormed(policy: Policy, n: Positive, rest: seq<Page>, memory: Memory, letters: Letters,
                                         p: Page)
    requires WellFormed(memory, n)
    ensures WellFormed(InstructionBranch(policy, n, rest, memory, letters, p), n)
  {
    DemandKeepsWellFormed(policy, n, rest, memory, p, true);
    DemandKeepsWellFormed(policy, n, rest, memory.(dirty := memory.dirty + {p}), p, true);
  }

  lemma AccessBranchKeepsWellFormed(policy: Policy, n: Positive, rest: seq<Page>, memory: Memory, letters: Letters,
                                    p: Page)
    requires WellFormed(memory, n)
    ensures WellFormed(AccessBranch(policy, n, rest, memory, letters, p), n)
  {
    DemandKeepsWellFormed(policy, n, rest, memory, p, false);
  }

  /** One trace line. */
  function Step(policy: Policy, n: Positive, rest: seq<Page>, memory: Memory, letters: Letters,
                p: Page): (after: Memory)
    requires WellFormed(memory, n)
    ensures WellFormed(after, n)
  {
    var touched := Touch(policy, memory, p);
    InstructionBranchKeepsWellFormed(policy, n, rest, touched, letters, p);
    var first := InstructionBranch(policy, n, rest, touched, letters, p);
    AccessBranchKeepsWellFormed(policy, n, rest, first, letters, p);
    var second := AccessBranch(policy, n, rest, first, letters, p);
    second.(accesses := second.accesses + 1)
  }

  /** The memory after the first `k` lines of a trace, starting empty. */
  function After(policy: Policy, n: Positive, lines: seq<Line>, k: nat): (memory: Memory)
    requires k <= |lines|
    ensures WellFormed(memory, n)
  {
    if k == 0 then EMPTY
    else Step(policy, n, Pages(lines)[k..], After(policy, n, lines, k - 1), LettersAfter(lines, k), lines[k - 1].page)
  }

  function Faults(policy: Policy, n: Positive, lines: seq<Line>): nat
  {
    After(policy, n, lines, |lines|).faults
  }

  /** The memories before each line and after the last one. */
  ghost function Memories(policy: Policy, n: Positive, lines: seq<Line>): (run: seq<Memory>)
    ensures |run| == |lines| + 1
    ensures forall k :: 0 <= k <= |lines| ==> run[k] == After(policy, n, lines, k)
  {
    seq(|lines| + 1, k requires 0 <= k <= |lines| => After(policy, n, lines, k))
  }

  ghost predicate StepsTo(policy: Policy, n: Positive, lines: seq<Line>, run: seq<Memory>, k: nat)
    requires k < |lines| < |run|
  {
    && WellFormed(run[k], n)
    && run[k + 1] == Step(policy, n, Pages(lines)[k + 1..], run[k], LettersAfter(lines, k + 1), lines[k].page)
  }

  lemma MemorySteps(policy: Policy, n: Positive, lines: seq<Line>, k: nat)
    requires k < |lines|
    ensures StepsTo(policy, n, lines, Memories(policy, n, lines), k)
  {
  }

  ghost predicate IsRun(policy: Policy, n: Positive, lines: seq<Line>, run: seq<Memory>) {
    && |run| == |lines| + 1
    && run[0] == EMPTY
    && forall k :: 0 <= k < |lines| ==> StepsTo(policy, n, lines, run, k)
  }

  /** A run as a sequence of memories. */
  lemma RunThrough(policy: Policy, n: Positive, lines: seq<Line>, k: nat) returns (run: seq<Memory>)
    requires k <= |lines|
    ensures IsRun(policy, n, lines, run) && run[k] == After(policy, n, lines, k)
  {
    run := Memories(policy, n, lines);
    forall j | 0 <= j < |lines|
      ensures StepsTo(policy, n, lines, run, j)
    {
      MemorySteps(policy, n, lines, j);
    }
  }

  /** One line of such a run, given the letters in force. */
  lemma RunTakesLine(policy: Policy, n: Positive, lines: seq<Line>, run: seq<Memory>, k: nat, letters: Letters)
    requires IsRun(policy, n, lines, run) && k < |lines| && letters == Decode(LettersAfter(lines, k), lines[k])
    ensures letters == LettersAfter(lines, k + 1)
    ensures WellFormed(run[k], n)
    ensures run[k + 1] == Step(policy, n, Pages(lines)[k + 1..], run[k], letters, lines[k].page)
  {
    assert StepsTo(policy, n, lines, run, k);
  }

  /** `RunTakesLine`, where neither the letters nor the rest of the trace matter. */
  lemma RunTakesSomeStep(policy: Policy, n: Positive, lines: seq<Line>, run: seq<Memory>, k: nat)
    returns (rest: seq<Page>, letters: Letters)
    requires IsRun(policy, n, lines, run) && k < |lines|
    ensures WellFormed(run[k], n) && run[k + 1] == Step(policy, n, rest, run[k], letters, lines[k].page)
  {
    rest, letters := Pages(lines)[k + 1..], LettersAfter(lines, k + 1);
    assert StepsTo(policy, n, lines, run, k);
  }
}
