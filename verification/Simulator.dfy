/** The simulator as the program runs it: a table of mutable entries, an array of frames, a hand and counters,
    updated in place, and shown to follow the machine over values step by step. */
module Simulator {
  import opened Options
  import opened Trace
  import opened VirtualMemory
  import opened Schedules
  import opened SecondChance
  import opened Oracle

  class PageTableEntry {
    var index: int
    var frame: int
    var valid: bool
    var dirty: bool
    var referenced: bool
    /** The page whose entry this is, known before the entry is first touched. */
    ghost const owner: Page

    ghost function Value(): Entry
      reads this
    {
      Entry(index, frame, valid, dirty, referenced)
    }

    constructor (ghost owner: Page)
      ensures this.owner == owner
      ensures index == 0 && frame == -1 && !valid && !dirty && !referenced
    {
      this.owner := owner;
      index, frame, valid, dirty, referenced := 0, -1, false, false, false;
    }

    constructor Copy(copy: PageTableEntry)
      ensures owner == copy.owner && index == copy.index && frame == copy.frame
      ensures valid == copy.valid && dirty == copy.dirty && referenced == copy.referenced
    {
      owner := copy.owner;
      index, frame, valid, dirty, referenced := copy.index, copy.frame, copy.valid, copy.dirty, copy.referenced;
    }
  }

  lemma LowestIsFound(frames: seq<Page>, referenced: set<Page>, dirty: set<Page>, i: nat)
    requires i < |frames| && frames[i] !in referenced && frames[i] !in dirty
    requires forall j :: 0 <= j < i ==> frames[j] in referenced || frames[j] in dirty
    ensures NotRecentFrame(frames, referenced, dirty) == i
  {
    var wanted := Resident(frames) - referenced - dirty;
    assert frames[i] in wanted && LowestIn(frames, wanted).Some?;
    assert forall j :: 0 <= j < i ==> frames[j] !in wanted;
  }

  lemma HighestIsFound(frames: seq<Page>, referenced: set<Page>, dirty: set<Page>, i: nat)
    requires i < |frames| && (i > 0 ==> frames[i] !in referenced)
    requires forall j :: 0 <= j < |frames| ==> frames[j] in referenced || frames[j] in dirty
    requires forall j :: i < j < |frames| ==> frames[j] in referenced
    ensures NotRecentFrame(frames, referenced, dirty) == i
  {
    var highest := HighestIn(frames, (Resident(frames) - referenced) * dirty);
    if frames[i] !in referenced {
      assert frames[i] in (Resident(frames) - referenced) * dirty;
      assert highest.Some?;
    }
  }

  /** The replacement in a fault that has been counted already. */
  ghost function Swapped(memory: Memory, i: nat, p: Page, keepBit: bool): Memory
    requires i < |memory.frames|
  {
    Replace(memory, i, p, keepBit).(faults := memory.faults)
  }

  /** What an eviction leaves behind, a fault having been counted before it. */
  ghost function Evicted(policy: Policy, rest: seq<Page>, memory: Memory, p: Page, early: bool): Memory
    requires memory.frames != [] && memory.hand <= |memory.frames|
  {
    var (searched, i) := Choose(policy, rest, memory);
    Swapped(searched, i, p, BitAfterEviction(policy, early))
  }

  /** What a fault leaves behind: it is counted, and then fills a frame or evicts. */
  ghost function Faulted(policy: Policy, n: Positive, rest: seq<Page>, memory: Memory, p: Page, early: bool): Memory
    requires WellFormed(memory, n)
  {
    var counted := memory.(faults := memory.faults + 1);
    if |memory.frames| < n then
      counted.(frames := memory.frames + [p], output := memory.output + [NoEviction])
    else Evicted(policy, rest, counted, p, early)
  }

  lemma AbsentDemand(policy: Policy, n: Positive, rest: seq<Page>, memory: Memory, p: Page, early: bool)
    requires WellFormed(memory, n) && p !in memory.frames
    ensures Demand(policy, n, rest, memory, p, early) == Faulted(policy, n, rest, memory, p, early)
  {
  }

  // ---------- entries as values ----------

  datatype Entry = Entry(index: int, frame: int, valid: bool, dirty: bool, referenced: bool)

  type Table = seq<Entry>

  /** The entries of resident pages point back at their frames. */
  ghost predicate Placed(table: Table, frames: seq<Page>) {
    forall i :: 0 <= i < |frames| ==>
      frames[i] < |table| && table[frames[i]].frame == i && table[frames[i]].index == frames[i]
  }

  /** The valid entries are exactly those of resident pages, page `except` aside. */
  ghost predicate ValidBut(table: Table, frames: seq<Page>, except: set<Page>) {
    forall p: Page :: p < |table| && p !in except ==> table[p].valid == (p in frames)
  }

  ghost predicate BitsOf(table: Table, memory: Memory) {
    forall p: Page :: p < |table| ==>
      table[p].dirty == (p in memory.dirty) && table[p].referenced == (p in memory.referenced)
  }

  ghost predicate Represents(table: Table, memory: Memory, except: set<Page>) {
    Placed(table, memory.frames) && ValidBut(table, memory.frames, except) && BitsOf(table, memory)
  }

  /** The table after page `p` filled frame `f`. */
  ghost function Filled(table: Table, p: Page, f: int): Table
    requires p < |table|
  {
    table[p := table[p].(frame := f)]
  }

  /** The table after page `victim` lost its frame. */
  ghost function Emptied(table: Table, victim: Page, keepBit: bool): Table
    requires victim < |table|
  {
    table[victim := table[victim].(dirty := false, referenced := keepBit, valid := false, frame := -1)]
  }

  datatype Swept = Swept(referenced: set<Page>, hand: nat, inspections: nat)

  /** Where the sweep will end, and after how many inspections. */
  ghost function Ahead(memory: Memory): Swept
    requires memory.frames != [] && memory.hand <= |memory.frames|
  {
    var (referenced, hand) := Sweep(memory.frames, memory.referenced, memory.hand);
    Swept(referenced, hand, Inspections(memory.frames, memory.referenced, memory.hand))
  }

  /** CLOCK's eviction, in terms of where the sweep ends. */
  lemma EvictedByClock(memory: Memory, rest: seq<Page>, p: Page, early: bool)
    requires memory.frames != [] && memory.hand <= |memory.frames|
    ensures var swept := Ahead(memory);
      && 1 <= swept.hand <= |memory.frames|
      && Evicted(Clock, rest, memory, p, early) ==
         Swapped(memory.(referenced := swept.referenced, hand := swept.hand), swept.hand - 1, p, early)
  {
  }

  /** The sweep stops within one round and one more frame. */
  lemma AheadIsBounded(memory: Memory)
    requires Distinct(memory.frames) && memory.frames != [] && memory.hand <= |memory.frames|
    ensures Ahead(memory).inspections <= |memory.frames| + 1
  {
    SweepIsBounded(memory.frames, memory.referenced, memory.hand);
    ResidentCount(memory.frames);
    SubsetSize(Resident(memory.frames) * memory.referenced, Resident(memory.frames));
  }

  /** One look at the frame under the hand: the hand passes it, and takes its bit unless that was clear. */
  ghost predicate Inspected(before: Memory, after: Memory, found: bool)
    requires before.frames != [] && before.hand <= |before.frames|
  {
    var h := if before.hand == |before.frames| then 0 else before.hand;
    var q := before.frames[h];
    && found == (q !in before.referenced)
    && after == before.(hand := h + 1, referenced := if found then before.referenced else before.referenced - {q})
  }

  lemma AheadAfterInspection(before: Memory, after: Memory, found: bool)
    requires before.frames != [] && before.hand <= |before.frames| && Inspected(before, after, found)
    ensures Ahead(before) == if found then Swept(after.referenced, after.hand, 1)
                             else Ahead(after).(inspections := Ahead(after).inspections + 1)
    ensures !found ==> after.referenced < before.referenced
    ensures after == before.(referenced := after.referenced, hand := after.hand) && 1 <= after.hand
  {
  }

  lemma TouchRepresents(table: Table, memory: Memory, p: Page)
    requires Represents(table, memory, {}) && p < |table|
    ensures Represents(table[p := table[p].(index := p, referenced := true)],
                       memory.(referenced := memory.referenced + {p}), {})
  {
  }

  lemma ClearRepresents(table: Table, memory: Memory, p: Page, except: set<Page>)
    requires Represents(table, memory, except) && p < |table|
    ensures Represents(table[p := table[p].(referenced := false)],
                       memory.(referenced := memory.referenced - {p}), except)
  {
  }

  lemma DirtyRepresents(table: Table, memory: Memory, p: Page)
    requires Represents(table, memory, {}) && p < |table|
    ensures Represents(table[p := table[p].(dirty := true)], memory.(dirty := memory.dirty + {p}), {})
  {
  }

  lemma FillRepresents(table: Table, memory: Memory, p: Page)
    requires Represents(table, memory, {p}) && p < |table| && p !in memory.frames
    requires table[p].valid && table[p].index == p
    ensures Represents(Filled(table, p, |memory.frames|), memory.(frames := memory.frames + [p]), {})
  {
  }

  lemma SwapKeepsWellFormed(memory: Memory, n: Positive, i: nat, p: Page, keepBit: bool)
    requires WellFormed(memory, n) && i < |memory.frames| && p !in memory.frames
    ensures var after := Swapped(memory, i, p, keepBit);
      && WellFormed(after, n)
      && after.frames == memory.frames[i := p]
      && after.hand == memory.hand && after.accesses == memory.accesses && after.faults == memory.faults
  {
  }

  lemma SwapRepresents(table: Table, memory: Memory, p: Page, i: nat, keepBit: bool)
    requires Represents(table, memory, {p}) && p < |table| && p !in memory.frames && Distinct(memory.frames)
    requires table[p].valid && table[p].index == p && i < |memory.frames|
    ensures table[memory.frames[i]].frame == i
    ensures Represents(Emptied(Filled(table, p, i), memory.frames[i], keepBit), Swapped(memory, i, p, keepBit), {})
  {
    var victim, frames := memory.frames[i], memory.frames[i := p];
    var after := Emptied(Filled(table, p, i), victim, keepBit);
    forall q: Page | q < |after|
      ensures after[q].valid == (q in frames)
    {
      if q == p {
        assert frames[i] == p;
      } else if q in memory.frames && q != victim {
        var j :| 0 <= j < |memory.frames| && memory.frames[j] == q;
        assert frames[j] == q;
      }
    }
  }

  /** 32-bit addresses in pages of 2 KB. */
  const PAGES: nat := 2097152

  /** Every page of the trace has an entry. */
  ghost predicate InTable(lines: seq<Line>) {
    forall k :: 0 <= k < |lines| ==> lines[k].page < PAGES
  }

  /** The statistics a run prints at its end. */
  datatype Statistics = Statistics(accesses: nat, faults: nat, writes: nat, output: seq<Outcome>)

  class Simulation {
    const nFrames: Positive
    const pageFrames: array<int>
    var pageTable: seq<PageTableEntry>
    var currentFrame: nat
    var clockHandPos: nat
    var totalMemAccesses: nat
    var totalPageFaults: nat
    var totalWritesToDisk: nat
    var output: seq<Outcome>

    /** The value this state stands for. */
    ghost var memory: Memory

    ghost var table: Table

    /** Every page has an entry of its own, with the fields `table` has for it. */
    ghost predicate Tabled()
      reads this, pageTable
    {
      && |pageTable| == |table| == PAGES
      && forall p :: 0 <= p < PAGES ==> pageTable[p].owner == p && pageTable[p].Value() == table[p]
    }

    ghost predicate Framed()
      reads this, pageFrames
    {
      && pageFrames.Length == nFrames
      && currentFrame == |memory.frames| <= nFrames
      && (forall i :: 0 <= i < currentFrame ==> pageFrames[i] == memory.frames[i])
      && (forall i :: currentFrame <= i < nFrames ==> pageFrames[i] == -1)
    }

    ghost predicate Counted()
      reads this
    {
      && clockHandPos == memory.hand
      && totalMemAccesses == memory.accesses
      && totalPageFaults == memory.faults
      && totalWritesToDisk == memory.writes
      && output == memory.output
    }

    /** This state stands for `memory`, but that the valid bit of page `except` may be ahead of it. */
    ghost predicate ValidExcept(except: set<Page>)
      reads this, pageFrames, pageTable
    {
      Tabled() && Framed() && Counted() && WellFormed(memory, nFrames) && Represents(table, memory, except)
    }

    ghost predicate Valid()
      reads this, pageFrames, pageTable
    {
      ValidExcept({})
    }

    constructor (nFrames: Positive)
      ensures Valid() && fresh(pageFrames) && fresh(pageTable)
      ensures this.nFrames == nFrames && memory == EMPTY
    {
      this.nFrames := nFrames;
      pageFrames := new int[nFrames](_ => -1);
      pageTable := [];
      currentFrame, clockHandPos := 0, 0;
      totalMemAccesses, totalPageFaults, totalWritesToDisk := 0, 0, 0;
      output, memory, table := [], EMPTY, [];
      new;
      for i := 0 to PAGES
        invariant |pageTable| == |table| == i && fresh(pageTable)
        invariant forall p :: 0 <= p < i ==> pageTable[p].owner == p
        invariant forall p :: 0 <= p < i ==> pageTable[p].Value() == table[p] == Entry(0, -1, false, false, false)
        invariant fresh(pageFrames) && pageFrames.Length == nFrames
        invariant forall j :: 0 <= j < nFrames ==> pageFrames[j] == -1
        invariant memory == EMPTY && currentFrame == clockHandPos == 0 && output == []
        invariant totalMemAccesses == totalPageFaults == totalWritesToDisk == 0
      {
        var pte := new PageTableEntry(i);
        pageTable := pageTable + [pte];
        table := table + [pte.Value()];
      }
    }

    // ---------- writing one entry ----------

    method PutInFrame(p: Page, frame: int)
      requires Tabled() && p < PAGES
      modifies this`table, pageTable[p]
      ensures Tabled() && table == Filled(old(table), p, frame)
    {
      pageTable[p].frame := frame;
      table := Filled(table, p, frame);
    }

    method Evict(victim: Page, keepBit: bool)
      requires Tabled() && victim < PAGES
      modifies this`table, pageTable[victim]
      ensures Tabled() && table == Emptied(old(table), victim, keepBit)
    {
      var evicted := pageTable[victim];
      evicted.dirty := false;
      evicted.referenced := keepBit;
      evicted.valid := false;
      evicted.frame := -1;
      table := Emptied(table, victim, keepBit);
    }

    /** A line looks its page up: the entry learns its page and its reference bit is set. */
    method Touch(p: Page)
      requires Valid() && p < PAGES
      modifies this`table, this`memory, pageTable[p]
      ensures Valid() && table[p].index == p
      ensures memory == old(memory).(referenced := old(memory).referenced + {p})
    {
      TouchRepresents(table, memory, p);
      pageTable[p].index := p;
      pageTable[p].referenced := true;
      table := table[p := table[p].(index := p, referenced := true)];
      memory := memory.(referenced := memory.referenced + {p});
    }

    /** A resident page has an entry. */
    lemma FrameIsPage(i: nat, except: set<Page>)
      requires ValidExcept(except) && i < |memory.frames|
      ensures pageFrames[i] == memory.frames[i] && memory.frames[i] < PAGES
    {
    }

    method ClearReferenced(p: Page, ghost except: set<Page>)
      requires ValidExcept(except) && p < PAGES
      modifies this`table, this`memory, pageTable[p]
      ensures ValidExcept(except) && memory == old(memory).(referenced := old(memory).referenced - {p})
      ensures table == old(table)[p := old(table)[p].(referenced := false)]
    {
      ClearRepresents(table, memory, p, except);
      pageTable[p].referenced := false;
      table := table[p := table[p].(referenced := false)];
      memory := memory.(referenced := memory.referenced - {p});
    }

    method SetDirty(p: Page)
      requires Valid() && p < PAGES
      modifies this`table, this`memory, pageTable[p]
      ensures Valid() && memory == old(memory).(dirty := old(memory).dirty + {p})
      ensures table[p].index == old(table[p].index)
    {
      DirtyRepresents(table, memory, p);
      pageTable[p].dirty := true;
      table := table[p := table[p].(dirty := true)];
      memory := memory.(dirty := memory.dirty + {p});
    }

    /** The first half of a fault: it is counted and the entry becomes valid before a frame is found. */
    method BeginFault(p: Page)
      requires Valid() && p < PAGES && p !in memory.frames
      modifies this`table, this`memory, this`totalPageFaults, pageTable[p]
      ensures ValidExcept({p}) && memory == old(memory).(faults := old(memory).faults + 1)
      ensures table == old(table)[p := old(table)[p].(valid := true)]
    {
      totalPageFaults := totalPageFaults + 1;
      pageTable[p].valid := true;
      table := table[p := table[p].(valid := true)];
      memory := memory.(faults := memory.faults + 1);
    }

    /** Print which kind of page is evicted, and count the write of a dirty one. */
    method ReportEviction(victim: Page)
      requires Tabled() && victim < PAGES
      modifies this`output, this`totalWritesToDisk
      ensures output == old(output) + [if table[victim].dirty then EvictDirty else EvictClean]
      ensures totalWritesToDisk == old(totalWritesToDisk) + (if table[victim].dirty then 1 else 0)
    {
      if pageTable[victim].dirty {
        output := output + [EvictDirty];
        totalWritesToDisk := totalWritesToDisk + 1;
      } else {
        output := output + [EvictClean];
      }
    }

    // ---------- the two ways to serve a fault ----------

    /** A fault while a frame is free. */
    method FillFrame(p: Page)
      requires ValidExcept({p}) && p < PAGES && table[p].valid && table[p].index == p
      requires p !in memory.frames && |memory.frames| < nFrames
      modifies this`currentFrame, this`output, this`memory, this`table, pageFrames, pageTable[p]
      ensures Valid() && table[p].index == p
      ensures memory == old(memory).(frames := old(memory).frames + [p], output := old(memory).output + [NoEviction])
    {
      FillRepresents(table, memory, p);
      output := output + [NoEviction];
      pageFrames[currentFrame] := p;
      PutInFrame(p, currentFrame);
      currentFrame := currentFrame + 1;
      memory := memory.(frames := memory.frames + [p], output := memory.output + [NoEviction]);
    }

    /** A fault with every frame taken: page `p` takes over the frame of `victim`. */
    method Swap(p: Page, victim: Page, ghost i: nat, keepBit: bool)
      requires ValidExcept({p}) && p < PAGES && table[p].valid && table[p].index == p
      requires p !in memory.frames && i < |memory.frames| == nFrames && memory.frames[i] == victim < PAGES
      modifies this`output, this`memory, this`table, this`totalWritesToDisk, pageFrames, pageTable[p], pageTable[victim]
      ensures Valid() && table[p].index == p
      ensures memory == Swapped(old(memory), i, p, keepBit)
    {
      ghost var next := Swapped(memory, i, p, keepBit);
      SwapRepresents(table, memory, p, i, keepBit);
      SwapKeepsWellFormed(memory, nFrames, i, p, keepBit);
      ReportEviction(victim);
      var frame := pageTable[victim].frame;
      pageFrames[frame] := pageTable[p].index;
      PutInFrame(p, frame);
      Evict(victim, keepBit);
      memory := next;
    }

    method Hit()
      requires Valid()
      modifies this`output, this`memory
      ensures Valid() && memory == old(memory).(output := old(memory).output + [Outcome.Hit])
    {
      output := output + [Outcome.Hit];
      memory := memory.(output := memory.output + [Outcome.Hit]);
    }

    // ---------- CLOCK ----------

    method MoveHand(h: nat, ghost except: set<Page>)
      requires ValidExcept(except) && h <= |memory.frames| == nFrames
      modifies this`clockHandPos, this`memory
      ensures ValidExcept(except) && memory == old(memory).(hand := h)
    {
      clockHandPos := h;
      memory := memory.(hand := h);
    }

    /** Look at the frame under the hand, wrapping it first; clear its page's bit, or find the bit clear. */
    method Inspect(ghost p: Page) returns (found: bool)
      requires ValidExcept({p}) && |memory.frames| == nFrames
      requires p < PAGES && table[p].valid && table[p].index == p
      modifies this`clockHandPos, this`table, this`memory, pageTable
      ensures ValidExcept({p})
      ensures Inspected(old(memory), memory, found)
      ensures table[p].valid && table[p].index == p
    {
      if clockHandPos == pageFrames.Length {
        MoveHand(0, {p});
      }
      FrameIsPage(clockHandPos, {p});
      var page := pageFrames[clockHandPos];
      found := !pageTable[page].referenced;
      if !found {
        ClearReferenced(page, {p});
      }
      MoveHand(clockHandPos + 1, {p});
    }

    /** Turn the hand, clearing reference bits, until it passes a frame whose bit is clear. */
    method TurnHand(ghost p: Page) returns (ghost inspections: nat)
      requires ValidExcept({p}) && |memory.frames| == nFrames
      requires p < PAGES && table[p].valid && table[p].index == p
      modifies this`clockHandPos, this`table, this`memory, pageTable
      ensures ValidExcept({p}) && table[p].valid && table[p].index == p
      ensures var swept := Ahead(old(memory));
        memory == old(memory).(referenced := swept.referenced, hand := swept.hand) && inspections == swept.inspections
      ensures inspections <= nFrames + 1
    {
      AheadIsBounded(memory);
      inspections := 0;
      ghost var at, end, left := memory, Ahead(memory), Ahead(memory).inspections as int;
      var found := false;
      while !found
        invariant ValidExcept({p}) && table[p].valid && table[p].index == p
        invariant memory == at.(referenced := memory.referenced, hand := memory.hand)
        invariant inspections + left == end.inspections
        invariant if found then memory.referenced == end.referenced && memory.hand == end.hand && left == 0
                  else Ahead(memory).referenced == end.referenced && Ahead(memory).hand == end.hand &&
                       Ahead(memory).inspections == left
        decreases !found, memory.referenced
      {
        ghost var before := memory;
        found := Inspect(p);
        AheadAfterInspection(before, memory, found);
        inspections := inspections + 1;
        left := left - 1;
      }
    }

    method EvictByClock(p: Page, early: bool, ghost rest: seq<Page>)
      requires ValidExcept({p}) && |memory.frames| == nFrames && p !in memory.frames
      requires p < PAGES && table[p].valid && table[p].index == p
      modifies this`clockHandPos, this`totalWritesToDisk, this`output, this`table, this`memory, pageFrames, pageTable
      ensures Valid() && table[p].index == p
      ensures memory == Evicted(Clock, rest, old(memory), p, early)
    {
      EvictedByClock(memory, rest, p, early);
      ghost var inspections := TurnHand(p);
      FrameIsPage(clockHandPos - 1, {p});
      Swap(p, pageFrames[clockHandPos - 1], clockHandPos - 1, early);
    }

    method FaultByClock(p: Page, early: bool, ghost rest: seq<Page>)
      requires Valid() && p < PAGES && table[p].index == p && p !in memory.frames
      modifies this`currentFrame, this`clockHandPos, this`totalPageFaults, this`totalWritesToDisk, this`output
      modifies this`table, this`memory, pageFrames, pageTable
      ensures Valid() && table[p].index == p
      ensures memory == Faulted(Clock, nFrames, rest, old(memory), p, early)
    {
      BeginFault(p);
      if currentFrame < nFrames {
        FillFrame(p);
      } else {
        EvictByClock(p, early, rest);
      }
    }

    method DemandByClock(p: Page, early: bool, ghost rest: seq<Page>)
      requires Valid() && p < PAGES && table[p].index == p
      modifies this`currentFrame, this`clockHandPos, this`totalPageFaults, this`totalWritesToDisk, this`output
      modifies this`table, this`memory, pageFrames, pageTable
      ensures Valid() && table[p].index == p && p in memory.frames
      ensures memory == Demand(Clock, nFrames, rest, old(memory), p, early)
    {
      DemandKeepsWellFormed(Clock, nFrames, rest, memory, p, early);
      if !pageTable[p].valid {
        AbsentDemand(Clock, nFrames, rest, memory, p, early);
        FaultByClock(p, early, rest);
      } else {
        Hit();
      }
    }

    // ---------- OPT ----------

    method EvictByOpt(p: Page, early: bool, futureMap: seq<seq<nat>>, ghost pages: seq<Page>, ghost from: nat)
      requires ValidExcept({p}) && |memory.frames| == nFrames && p !in memory.frames
      requires p < PAGES && table[p].valid && table[p].index == p
      requires |futureMap| == PAGES && 1 <= from <= |pages| && Foresees(futureMap, pages, from)
      modifies this`totalWritesToDisk, this`output, this`table, this`memory, pageFrames, pageTable
      ensures Valid() && table[p].index == p
      ensures memory == Evicted(Opt, pages[from..], old(memory), p, early)
    {
      forall j | 0 <= j < |memory.frames|
        ensures pageFrames[j] == memory.frames[j] < PAGES
      {
        FrameIsPage(j, {p});
      }
      var longestDistance := LocateLongestDistancePage(pageFrames, futureMap, memory.frames, pages, from);
      Swap(p, longestDistance, FarthestFrame(memory.frames, pages[from..]), false);
    }

    method FaultByOpt(p: Page, early: bool, futureMap: seq<seq<nat>>, ghost pages: seq<Page>, ghost from: nat)
      requires Valid() && p < PAGES && table[p].index == p && p !in memory.frames
      requires |futureMap| == PAGES && 1 <= from <= |pages| && Foresees(futureMap, pages, from)
      modifies this`currentFrame, this`totalPageFaults, this`totalWritesToDisk, this`output
      modifies this`table, this`memory, pageFrames, pageTable
      ensures Valid() && table[p].index == p
      ensures memory == Faulted(Opt, nFrames, pages[from..], old(memory), p, early)
    {
      BeginFault(p);
      if currentFrame < nFrames {
        FillFrame(p);
      } else {
        EvictByOpt(p, early, futureMap, pages, from);
      }
    }

    method DemandByOpt(p: Page, early: bool, futureMap: seq<seq<nat>>, ghost pages: seq<Page>, ghost from: nat)
      requires Valid() && p < PAGES && table[p].index == p
      requires |futureMap| == PAGES && 1 <= from <= |pages| && Foresees(futureMap, pages, from)
      modifies this`currentFrame, this`totalPageFaults, this`totalWritesToDisk, this`output
      modifies this`table, this`memory, pageFrames, pageTable
      ensures Valid() && table[p].index == p && p in memory.frames
      ensures memory == Demand(Opt, nFrames, pages[from..], old(memory), p, early)
    {
      DemandKeepsWellFormed(Opt, nFrames, pages[from..], memory, p, early);
      if !pageTable[p].valid {
        AbsentDemand(Opt, nFrames, pages[from..], memory, p, early);
        FaultByOpt(p, early, futureMap, pages, from);
      } else {
        Hit();
      }
    }

    // ---------- NRU ----------

    /** A resident page has a valid entry that knows its page and frame. */
    lemma FrameIsValid(i: nat, p: Page)
      requires ValidExcept({p}) && i < |memory.frames| && p !in memory.frames
      ensures pageFrames[i] == memory.frames[i] < PAGES
      ensures var pte := pageTable[memory.frames[i]];
        && pte.owner == pte.index == memory.frames[i] && pte.valid && pte.frame == i
        && pte.Value() == table[memory.frames[i]]
        && pte.dirty == (memory.frames[i] in memory.dirty)
        && pte.referenced == (memory.frames[i] in memory.referenced)
    {
    }

    /** One pass over the frames: the first page found unreferenced and clean ends it; otherwise a copy of the last
        entry found unreferenced and dirty is kept, or of the first entry if there is none. */
    method ScanFrames(ghost p: Page) returns (clean: Option<Page>, candidate: PageTableEntry?, ghost i: nat)
      requires ValidExcept({p}) && |memory.frames| == nFrames && p !in memory.frames
      ensures i == NotRecentFrame(memory.frames, memory.referenced, memory.dirty)
      ensures clean.Some? ==> clean.value == memory.frames[i]
      ensures clean.None? ==>
                && candidate != null && fresh(candidate)
                && candidate.owner == memory.frames[i] && candidate.Value() == table[memory.frames[i]]
    {
      candidate, i := null, 0;
      ghost var frames, referenced, dirty := memory.frames, memory.referenced, memory.dirty;
      for pFrame := 0 to pageFrames.Length
        invariant candidate == null <==> pFrame == 0
        invariant i == 0 || i < pFrame
        invariant forall j :: 0 <= j < pFrame ==> frames[j] in referenced || frames[j] in dirty
        invariant pFrame > 0 ==>
          i < pFrame && fresh(candidate) && candidate.owner == frames[i] && candidate.Value() == table[frames[i]]
        invariant forall j :: i < j < pFrame ==> frames[j] in referenced
        invariant i > 0 ==> frames[i] !in referenced
      {
        FrameIsValid(pFrame, p);
        var pte := pageTable[pageFrames[pFrame]];
        if !pte.referenced && !pte.dirty && pte.valid {
          LowestIsFound(frames, referenced, dirty, pFrame);
          return Some(pageFrames[pFrame]), candidate, pFrame;
        } else if !pte.referenced && pte.dirty && pte.valid {
          candidate := new PageTableEntry.Copy(pte);
          i := pFrame;
        } else if pte.referenced && !pte.dirty && pte.valid && candidate == null {
          candidate := new PageTableEntry.Copy(pte);
        } else if pte.referenced && pte.dirty && pte.valid && candidate == null {
          candidate := new PageTableEntry.Copy(pte);
        }
      }
      HighestIsFound(frames, referenced, dirty, i);
      clean := None;
    }

    /** `Swap`, once a copy has taken the place of the entry of the page evicted. */
    method SwapCopy(p: Page, copy: PageTableEntry, ghost i: nat)
      requires ValidExcept({p}) && p < PAGES && table[p].valid && table[p].index == p
      requires p !in memory.frames && i < |memory.frames| == nFrames && memory.frames[i] < PAGES
      requires copy !in pageTable && copy.owner == memory.frames[i] && copy.Value() == table[memory.frames[i]]
      modifies this`output, this`memory, this`table, this`totalWritesToDisk, this`pageTable
      modifies pageFrames, pageTable[p], copy
      ensures Valid() && table[p].index == p
      ensures memory == Swapped(old(memory), i, p, false)
      ensures pageTable == old(pageTable)[old(memory).frames[i] := copy]
    {
      pageTable := pageTable[copy.index := copy];
      Swap(p, copy.index, i, false);
    }

    method EvictByNru(p: Page, ghost early: bool, ghost refresh: Positive, ghost rest: seq<Page>)
      requires ValidExcept({p}) && |memory.frames| == nFrames && p !in memory.frames
      requires p < PAGES && table[p].valid && table[p].index == p
      modifies this`totalWritesToDisk, this`output, this`table, this`memory, this`pageTable, pageFrames, pageTable
      ensures Valid() && table[p].index == p
      ensures memory == Evicted(Nru(refresh), rest, old(memory), p, early)
      ensures forall q :: 0 <= q < PAGES ==> pageTable[q] == old(pageTable)[q] || fresh(pageTable[q])
    {
      var clean, candidate, i := ScanFrames(p);
      FrameIsPage(i, {p});
      if clean.Some? {
        Swap(p, clean.value, i, false);
      } else {
        SwapCopy(p, candidate, i);
      }
    }

    method FaultByNru(p: Page, ghost early: bool, ghost refresh: Positive, ghost rest: seq<Page>)
      requires Valid() && p < PAGES && table[p].index == p && p !in memory.frames
      modifies this`currentFrame, this`totalPageFaults, this`totalWritesToDisk, this`output
      modifies this`table, this`memory, this`pageTable, pageFrames, pageTable
      ensures Valid() && table[p].index == p
      ensures memory == Faulted(Nru(refresh), nFrames, rest, old(memory), p, early)
      ensures forall q :: 0 <= q < PAGES ==> pageTable[q] == old(pageTable)[q] || fresh(pageTable[q])
    {
      BeginFault(p);
      if currentFrame < nFrames {
        FillFrame(p);
      } else {
        EvictByNru(p, early, refresh, rest);
      }
    }

    method DemandByNru(p: Page, ghost early: bool, ghost refresh: Positive, ghost rest: seq<Page>)
      requires Valid() && p < PAGES && table[p].index == p
      modifies this`currentFrame, this`totalPageFaults, this`totalWritesToDisk, this`output
      modifies this`table, this`memory, this`pageTable, pageFrames, pageTable
      ensures Valid() && table[p].index == p && p in memory.frames
      ensures memory == Demand(Nru(refresh), nFrames, rest, old(memory), p, early)
      ensures forall q :: 0 <= q < PAGES ==> pageTable[q] == old(pageTable)[q] || fresh(pageTable[q])
    {
      DemandKeepsWellFormed(Nru(refresh), nFrames, rest, memory, p, early);
      if !pageTable[p].valid {
        AbsentDemand(Nru(refresh), nFrames, rest, memory, p, early);
        FaultByNru(p, early, refresh, rest);
      } else {
        Hit();
      }
    }

    /** NRU's periodic reset of the reference bits of all resident pages. */
    method ResetReferenced()
      requires Valid()
      modifies this`table, this`memory, pageTable
      ensures Valid()
      ensures memory == old(memory).(referenced := old(memory).referenced - Resident(old(memory).frames))
    {
      for i := 0 to currentFrame
        invariant Valid() && currentFrame == |memory.frames|
        invariant memory == old(memory).(referenced := old(memory).referenced - Resident(memory.frames[..i]))
      {
        FrameIsPage(i, {});
        assert memory.frames[..i + 1] == memory.frames[..i] + [memory.frames[i]];
        ClearReferenced(pageFrames[i], {});
      }
      assert memory.frames[..currentFrame] == memory.frames;
    }

    // ---------- one line ----------

    method CountAccess()
      requires Valid()
      modifies this`totalMemAccesses, this`memory
      ensures Valid() && memory == old(memory).(accesses := old(memory).accesses + 1)
    {
      totalMemAccesses := totalMemAccesses + 1;
      memory := memory.(accesses := memory.accesses + 1);
    }

    /** The store half of an M line, which also counts an access. */
    method StoreAfterLoad(p: Page)
      requires Valid() && p < PAGES && p in memory.frames
      modifies this`table, this`memory, this`totalMemAccesses, pageTable[p]
      ensures Valid()
      ensures memory == old(memory).(dirty := old(memory).dirty + {p}, accesses := old(memory).accesses + 1)
    {
      SetDirty(p);
      pageTable[p].valid := true;
      CountAccess();
    }

    method InstructionByClock(letters: Letters, p: Page, ghost rest: seq<Page>)
      requires Valid() && p < PAGES && table[p].index == p
      modifies this`currentFrame, this`clockHandPos, this`totalPageFaults, this`totalWritesToDisk, this`output
      modifies this`table, this`memory, pageFrames, pageTable
      ensures Valid() && table[p].index == p
      ensures memory == InstructionBranch(Clock, nFrames, rest, old(memory), letters, p)
    {
      if letters.instruction == 'I' {
        DemandByClock(p, true, rest);
      }
      if letters.instruction == 'S' {
        SetDirty(p);
        DemandByClock(p, true, rest);
      }
    }

    method AccessByClock(letters: Letters, p: Page, ghost rest: seq<Page>)
      requires Valid() && p < PAGES && table[p].index == p
      modifies this`currentFrame, this`clockHandPos, this`totalPageFaults, this`totalWritesToDisk, this`output
      modifies this`table, this`memory, pageFrames, pageTable
      modifies this`totalMemAccesses
      ensures Valid()
      ensures memory == AccessBranch(Clock, nFrames, rest, old(memory), letters, p)
    {
      if letters.access == 'L' {
        DemandByClock(p, false, rest);
      }
      if letters.access == 'M' {
        DemandByClock(p, false, rest);
        StoreAfterLoad(p);
      }
    }

    method LineByClock(letters: Letters, p: Page, ghost rest: seq<Page>)
      requires Valid() && p < PAGES
      modifies this`currentFrame, this`clockHandPos, this`totalPageFaults, this`totalWritesToDisk, this`output
      modifies this`table, this`memory, pageFrames, pageTable
      modifies this`totalMemAccesses
      ensures Valid()
      ensures memory == Step(Clock, nFrames, rest, old(memory), letters, p)
    {
      Touch(p);
      InstructionByClock(letters, p, rest);
      AccessByClock(letters, p, rest);
      CountAccess();
    }

    method InstructionByOpt(letters: Letters, p: Page, futureMap: seq<seq<nat>>, ghost pages: seq<Page>,
                            ghost from: nat)
      requires Valid() && p < PAGES && table[p].index == p
      requires |futureMap| == PAGES && 1 <= from <= |pages| && Foresees(futureMap, pages, from)
      modifies this`currentFrame, this`totalPageFaults, this`totalWritesToDisk, this`output
      modifies this`table, this`memory, pageFrames, pageTable
      ensures Valid() && table[p].index == p
      ensures memory == InstructionBranch(Opt, nFrames, pages[from..], old(memory), letters, p)
    {
      if letters.instruction == 'I' {
        DemandByOpt(p, true, futureMap, pages, from);
      }
      if letters.instruction == 'S' {
        SetDirty(p);
        DemandByOpt(p, true, futureMap, pages, from);
      }
    }

    method AccessByOpt(letters: Letters, p: Page, futureMap: seq<seq<nat>>, ghost pages: seq<Page>, ghost from: nat)
      requires Valid() && p < PAGES && table[p].index == p
      requires |futureMap| == PAGES && 1 <= from <= |pages| && Foresees(futureMap, pages, from)
      modifies this`currentFrame, this`totalPageFaults, this`totalWritesToDisk, this`output
      modifies this`table, this`memory, pageFrames, pageTable
      modifies this`totalMemAccesses
      ensures Valid()
      ensures memory == AccessBranch(Opt, nFrames, pages[from..], old(memory), letters, p)
    {
      if letters.access == 'L' {
        DemandByOpt(p, false, futureMap, pages, from);
      }
      if letters.access == 'M' {
        DemandByOpt(p, false, futureMap, pages, from);
        StoreAfterLoad(p);
      }
    }

    /** One line of `opt` once its list of future uses is up to date. */
    method ServeByOpt(letters: Letters, p: Page, futureMap: seq<seq<nat>>, ghost pages: seq<Page>, ghost from: nat)
      requires Valid() && p < PAGES
      requires |futureMap| == PAGES && 1 <= from <= |pages| && Foresees(futureMap, pages, from)
      modifies this`currentFrame, this`totalPageFaults, this`totalWritesToDisk, this`output
      modifies this`table, this`memory, this`totalMemAccesses, pageFrames, pageTable
      ensures Valid()
      ensures memory == Step(Opt, nFrames, pages[from..], old(memory), letters, p)
    {
      Touch(p);
      InstructionByOpt(letters, p, futureMap, pages, from);
      AccessByOpt(letters, p, futureMap, pages, from);
      CountAccess();
    }

    method LineByOpt(letters: Letters, p: Page, futureMap: seq<seq<nat>>, ghost pages: seq<Page>, ghost k: nat)
      returns (after: seq<seq<nat>>)
      requires Valid() && p < PAGES
      requires |futureMap| == PAGES && k < |pages| && pages[k] == p && Foresees(futureMap, pages, k)
      modifies this`currentFrame, this`totalPageFaults, this`totalWritesToDisk, this`output
      modifies this`table, this`memory, this`totalMemAccesses, pageFrames, pageTable
      ensures Valid() && |after| == PAGES && Foresees(after, pages, k + 1)
      ensures memory == Step(Opt, nFrames, pages[k + 1..], old(memory), letters, p)
    {
      after := RemoveFirst(futureMap, p, pages, k);
      ServeByOpt(letters, p, after, pages, k + 1);
    }

    method InstructionByNru(letters: Letters, p: Page, ghost refresh: Positive, ghost rest: seq<Page>)
      requires Valid() && p < PAGES && table[p].index == p
      modifies this`currentFrame, this`totalPageFaults, this`totalWritesToDisk, this`output
      modifies this`table, this`memory, this`pageTable, pageFrames, pageTable
      ensures Valid() && table[p].index == p
      ensures memory == InstructionBranch(Nru(refresh), nFrames, rest, old(memory), letters, p)
      ensures forall q :: 0 <= q < PAGES ==> pageTable[q] == old(pageTable)[q] || fresh(pageTable[q])
    {
      if letters.instruction == 'I' {
        DemandByNru(p, true, refresh, rest);
      }
      if letters.instruction == 'S' {
        SetDirty(p);
        DemandByNru(p, true, refresh, rest);
      }
    }

    method AccessByNru(letters: Letters, p: Page, ghost refresh: Positive, ghost rest: seq<Page>)
      requires Valid() && p < PAGES && table[p].index == p
      modifies this`currentFrame, this`totalPageFaults, this`totalWritesToDisk, this`output
      modifies this`table, this`memory, this`pageTable, pageFrames, pageTable
      modifies this`totalMemAccesses
      ensures Valid()
      ensures memory == AccessBranch(Nru(refresh), nFrames, rest, old(memory), letters, p)
      ensures forall q :: 0 <= q < PAGES ==> pageTable[q] == old(pageTable)[q] || fresh(pageTable[q])
    {
      if letters.access == 'L' {
        DemandByNru(p, false, refresh, rest);
      }
      if letters.access == 'M' {
        DemandByNru(p, false, refresh, rest);
        StoreAfterLoad(p);
      }
    }

    /** What `nru` does before it looks at the letters. */
    method TouchByNru(p: Page, refresh: Positive)
      requires Valid() && p < PAGES
      modifies this`table, this`memory, pageTable
      ensures Valid() && table[p].index == p
      ensures memory == VirtualMemory.Touch(Nru(refresh), old(memory), p)
    {
      if totalMemAccesses % refresh == 0 {
        ResetReferenced();
      }
      Touch(p);
    }

    method LineByNru(letters: Letters, p: Page, refresh: Positive, ghost rest: seq<Page>)
      requires Valid() && p < PAGES
      modifies this`currentFrame, this`totalPageFaults, this`totalWritesToDisk, this`output
      modifies this`table, this`memory, this`pageTable, pageFrames, pageTable
      modifies this`totalMemAccesses
      ensures Valid()
      ensures memory == Step(Nru(refresh), nFrames, rest, old(memory), letters, p)
      ensures forall q :: 0 <= q < PAGES ==> pageTable[q] == old(pageTable)[q] || fresh(pageTable[q])
    {
      TouchByNru(p, refresh);
      InstructionByNru(letters, p, refresh, rest);
      AccessByNru(letters, p, refresh, rest);
      CountAccess();
    }

    // ---------- one run ----------

    method NextByOpt(lines: seq<Line>, k: nat, letters: Letters, futureMap: seq<seq<nat>>, ghost run: seq<Memory>)
      returns (letters': Letters, futureMap': seq<seq<nat>>)
      requires InTable(lines) && k < |lines| && IsRun(Opt, nFrames, lines, run)
      requires Valid() && memory == run[k] && letters == LettersAfter(lines, k)
      requires |futureMap| == PAGES && Foresees(futureMap, Pages(lines), k)
      modifies this`currentFrame, this`totalPageFaults, this`totalWritesToDisk, this`output
      modifies this`table, this`memory, this`totalMemAccesses, pageFrames, pageTable
      ensures Valid() && memory == run[k + 1] && letters' == LettersAfter(lines, k + 1)
      ensures |futureMap'| == PAGES && Foresees(futureMap', Pages(lines), k + 1)
    {
      letters' := Decode(letters, lines[k]);
      RunTakesLine(Opt, nFrames, lines, run, k, letters');
      futureMap' := LineByOpt(letters', lines[k].page, futureMap, Pages(lines), k);
    }

    method TraceByOpt(lines: seq<Line>, ghost run: seq<Memory>)
      requires InTable(lines) && IsRun(Opt, nFrames, lines, run)
      requires Valid() && memory == run[0]
      modifies this`currentFrame, this`totalPageFaults, this`totalWritesToDisk, this`output
      modifies this`table, this`memory, this`totalMemAccesses, pageFrames, pageTable
      ensures Valid() && memory == run[|lines|]
    {
      var futureMap := ForeseeTrace(Pages(lines), PAGES);
      var letters := BLANK;
      for k := 0 to |lines|
        invariant Valid() && memory == run[k]
        invariant letters == LettersAfter(lines, k)
        invariant |futureMap| == PAGES && Foresees(futureMap, Pages(lines), k)
      {
        letters, futureMap := NextByOpt(lines, k, letters, futureMap, run);
      }
    }

    method NextByClock(lines: seq<Line>, k: nat, letters: Letters, ghost run: seq<Memory>) returns (letters': Letters)
      requires InTable(lines) && k < |lines| && IsRun(Clock, nFrames, lines, run)
      requires Valid() && memory == run[k] && letters == LettersAfter(lines, k)
      modifies this`currentFrame, this`clockHandPos, this`totalPageFaults, this`totalWritesToDisk, this`output
      modifies this`table, this`memory, this`totalMemAccesses, pageFrames, pageTable
      ensures Valid() && memory == run[k + 1] && letters' == LettersAfter(lines, k + 1)
    {
      letters' := Decode(letters, lines[k]);
      RunTakesLine(Clock, nFrames, lines, run, k, letters');
      LineByClock(letters', lines[k].page, Pages(lines)[k + 1..]);
    }

    method TraceByClock(lines: seq<Line>, ghost run: seq<Memory>)
      requires InTable(lines) && IsRun(Clock, nFrames, lines, run)
      requires Valid() && memory == run[0]
      modifies this`currentFrame, this`clockHandPos, this`totalPageFaults, this`totalWritesToDisk, this`output
      modifies this`table, this`memory, this`totalMemAccesses, pageFrames, pageTable
      ensures Valid() && memory == run[|lines|]
    {
      var letters := BLANK;
      for k := 0 to |lines|
        invariant Valid() && memory == run[k]
        invariant letters == LettersAfter(lines, k)
      {
        letters := NextByClock(lines, k, letters, run);
      }
    }

    method NextByNru(refresh: Positive, lines: seq<Line>, k: nat, letters: Letters, ghost run: seq<Memory>)
      returns (letters': Letters)
      requires InTable(lines) && k < |lines| && IsRun(Nru(refresh), nFrames, lines, run)
      requires Valid() && memory == run[k] && letters == LettersAfter(lines, k)
      modifies this`currentFrame, this`totalPageFaults, this`totalWritesToDisk, this`output
      modifies this`table, this`memory, this`pageTable, this`totalMemAccesses, pageFrames, pageTable
      ensures Valid() && memory == run[k + 1] && letters' == LettersAfter(lines, k + 1)
      ensures forall q :: 0 <= q < PAGES ==> pageTable[q] == old(pageTable)[q] || fresh(pageTable[q])
    {
      letters' := Decode(letters, lines[k]);
      RunTakesLine(Nru(refresh), nFrames, lines, run, k, letters');
      LineByNru(letters', lines[k].page, refresh, Pages(lines)[k + 1..]);
    }

    method TraceByNru(refresh: Positive, lines: seq<Line>, ghost run: seq<Memory>)
      requires InTable(lines) && IsRun(Nru(refresh), nFrames, lines, run)
      requires Valid() && memory == run[0]
      modifies this`currentFrame, this`totalPageFaults, this`totalWritesToDisk, this`output
      modifies this`table, this`memory, this`pageTable, this`totalMemAccesses, pageFrames, pageTable
      ensures Valid() && memory == run[|lines|]
    {
      var letters := BLANK;
      for k := 0 to |lines|
        invariant Valid() && memory == run[k]
        invariant letters == LettersAfter(lines, k)
        invariant forall q :: 0 <= q < PAGES ==> pageTable[q] == old(pageTable)[q] || fresh(pageTable[q])
      {
        letters := NextByNru(refresh, lines, k, letters, run);
      }
    }

    function Report(): Statistics
      reads this
    {
      Statistics(totalMemAccesses, totalPageFaults, totalWritesToDisk, output)
    }
  }
}
