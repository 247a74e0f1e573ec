/** The clock as a second-chance queue, and why it is conservative. */
module SecondChance {
  import opened Trace
  import opened VirtualMemory
  import opened Placement
  import opened Schedules

  /** A queued page, and whether its reference bit grants it a second chance. */
  datatype Slot = Slot(page: Page, bit: bool)

  type Queue = seq<Slot>

  predicate Queued(queue: Queue, p: Page) {
    exists i :: 0 <= i < |queue| && queue[i].page == p
  }

  // ---------- the queue machine ----------

  function Chances(queue: Queue): nat {
    if queue == [] then 0 else (if queue[0].bit then 1 else 0) + Chances(queue[1..])
  }

  lemma {:induction false} ChancesAppend(a: Queue, b: Queue)
    ensures Chances(a + b) == Chances(a) + Chances(b)
  {
    if a == [] {
      assert a + b == b;
    } else {
      assert (a + b)[1..] == a[1..] + b;
      ChancesAppend(a[1..], b);
    }
  }

  /** The head goes to the tail with its bit cleared. */
  function Rotate(queue: Queue): (after: Queue)
    requires queue != []
  {
    queue[1..] + [Slot(queue[0].page, false)]
  }

  lemma RotateSpendsAChance(queue: Queue)
    requires queue != [] && queue[0].bit
    ensures Chances(Rotate(queue)) == Chances(queue) - 1
  {
    ChancesAppend(queue[1..], [Slot(queue[0].page, false)]);
  }

  /** Rotate until the head has no second chance. */
  function Search(queue: Queue): (after: Queue)
    requires queue != []
    ensures |after| == |queue| && !after[0].bit
    decreases Chances(queue)
  {
    if !queue[0].bit then queue
    else
      RotateSpendsAChance(queue);
      Search(Rotate(queue))
  }

  /** The bit of `p` is set wherever it is queued. */
  function Mark(queue: Queue, p: Page): (after: Queue)
    ensures |after| == |queue|
  {
    seq(|queue|, i requires 0 <= i < |queue| => Slot(queue[i].page, queue[i].bit || queue[i].page == p))
  }

  /** One line: a queued page is marked; an absent page that is demanded joins at the tail, the head making room. */
  function QueueStep(queue: Queue, n: Positive, p: Page, demanded: bool): Queue {
    if Queued(queue, p) || !demanded then Mark(queue, p)
    else if |queue| < n then queue + [Slot(p, true)]
    else Search(queue)[1..] + [Slot(p, true)]
  }

  // ---------- the clock refines it ----------

  function Marks(pages: seq<Page>, referenced: set<Page>): (queue: Queue)
    ensures |queue| == |pages|
  {
    seq(|pages|, i requires 0 <= i < |pages| => Slot(pages[i], pages[i] in referenced))
  }

  /** The frames in the order the hand will meet them. */
  function FromHand(frames: seq<Page>, hand: nat): (pages: seq<Page>)
    requires hand <= |frames|
    ensures |pages| == |frames|
  {
    frames[hand..] + frames[..hand]
  }

  function QueueOf(memory: Memory): Queue
    requires memory.hand <= |memory.frames|
  {
    Marks(FromHand(memory.frames, memory.hand), memory.referenced)
  }

  lemma MarksSplit(pages: seq<Page>, p: Page, referenced: set<Page>)
    ensures Marks(pages + [p], referenced) == Marks(pages, referenced) + [Slot(p, p in referenced)]
    ensures Marks([p] + pages, referenced)[1..] == Marks(pages, referenced)
  {
    var joined := [p] + pages;
    forall i | 0 <= i < |pages|
      ensures Marks(joined, referenced)[1..][i] == Marks(pages, referenced)[i]
    {
      assert joined[i + 1] == pages[i];
    }
  }

  lemma MarksAgree(pages: seq<Page>, a: set<Page>, b: set<Page>)
    requires forall p :: p in pages ==> (p in a <==> p in b)
    ensures Marks(pages, a) == Marks(pages, b)
  {
  }

  /** The frames the hand meets after frame `h`, on its way back to it. */
  function Others(frames: seq<Page>, h: nat): seq<Page>
    requires h < |frames|
  {
    frames[h + 1..] + frames[..h]
  }

  lemma OthersAroundHand(frames: seq<Page>, h: nat)
    requires h < |frames|
    ensures FromHand(frames, h) == [frames[h]] + Others(frames, h)
    ensures FromHand(frames, h + 1) == Others(frames, h) + [frames[h]]
  {
  }

  lemma OthersDiffer(frames: seq<Page>, h: nat)
    requires h < |frames| && Distinct(frames)
    ensures frames[h] !in Others(frames, h)
  {
  }

  lemma ClearRotates(frames: seq<Page>, referenced: set<Page>, h: nat)
    requires h < |frames| && Distinct(frames)
    ensures Marks(FromHand(frames, h + 1), referenced - {frames[h]}) ==
            Rotate(Marks(FromHand(frames, h), referenced))
  {
    var others := Others(frames, h);
    OthersAroundHand(frames, h);
    OthersDiffer(frames, h);
    MarksSplit(others, frames[h], referenced - {frames[h]});
    MarksSplit(others, frames[h], referenced);
    MarksAgree(others, referenced - {frames[h]}, referenced);
  }

  lemma WrapHand(frames: seq<Page>)
    ensures FromHand(frames, |frames|) == FromHand(frames, 0)
  {
  }

  lemma HeadOfMarks(frames: seq<Page>, referenced: set<Page>, h: nat)
    requires h < |frames|
    ensures Marks(FromHand(frames, h), referenced)[0] == Slot(frames[h], frames[h] in referenced)
  {
  }

  lemma SearchSpins(queue: Queue)
    requires queue != []
    ensures Search(queue) == if queue[0].bit then Search(Rotate(queue)) else queue
  {
  }

  /** The sweep of the hand is the search of the queue; the hand ends one past the head of the queue found. */
  lemma {:induction false} SweepIsSearch(frames: seq<Page>, referenced: set<Page>, hand: nat)
    requires frames != [] && hand <= |frames| && Distinct(frames)
    ensures var (referenced', hand') := Sweep(frames, referenced, hand);
      Marks(FromHand(frames, hand' - 1), referenced') == Search(Marks(FromHand(frames, hand), referenced))
    decreases referenced, hand
  {
    if hand == |frames| {
      WrapHand(frames);
      SweepIsSearch(frames, referenced, 0);
    } else {
      SearchSpins(Marks(FromHand(frames, hand), referenced));
      HeadOfMarks(frames, referenced, hand);
      if frames[hand] in referenced {
        ClearRotates(frames, referenced, hand);
        SweepIsSearch(frames, referenced - {frames[hand]}, hand + 1);
      }
    }
  }

  /** How many frames a sweep looks at. */
  function Inspections(frames: seq<Page>, referenced: set<Page>, hand: nat): (count: nat)
    requires frames != [] && hand <= |frames|
    ensures 1 <= count
    decreases referenced
  {
    var h := if hand == |frames| then 0 else hand;
    1 + if frames[h] in referenced then Inspections(frames, referenced - {frames[h]}, h + 1) else 0
  }

  /** A sweep stops within one round and one more frame. */
  lemma {:induction false} SweepIsBounded(frames: seq<Page>, referenced: set<Page>, hand: nat)
    requires frames != [] && hand <= |frames|
    ensures Inspections(frames, referenced, hand) <= |Resident(frames) * referenced| + 1
    decreases referenced
  {
    var h := if hand == |frames| then 0 else hand;
    if frames[h] in referenced {
      SweepIsBounded(frames, referenced - {frames[h]}, h + 1);
      assert Resident(frames) * (referenced - {frames[h]}) == Resident(frames) * referenced - {frames[h]};
    }
  }

  lemma QueuedInFrames(memory: Memory, p: Page)
    requires memory.hand <= |memory.frames|
    ensures Queued(QueueOf(memory), p) <==> p in memory.frames
  {
    var pages, hand := FromHand(memory.frames, memory.hand), memory.hand;
    if p in memory.frames {
      var i :| 0 <= i < |memory.frames| && memory.frames[i] == p;
      var j := if i < hand then i + |memory.frames| - hand else i - hand;
      assert pages[j] == p;
      assert QueueOf(memory)[j].page == p;
    }
  }

  /** Line by line the array with its wrapping hand behaves as the second-chance queue. */
  lemma ClockStepIsQueueStep(n: Positive, rest: seq<Page>, memory: Memory, letters: Letters, p: Page)
    requires WellFormed(memory, n)
    ensures QueueOf(Step(Clock, n, rest, memory, letters, p)) == QueueStep(QueueOf(memory), n, p, Demands(letters))
  {
    var after := Step(Clock, n, rest, memory, letters, p);
    var at := AtDemand(Clock, memory, letters, p);
    StepEffect(Clock, n, rest, memory, letters, p);
    QueuedInFrames(memory, p);
    if p in memory.frames || !Demands(letters) {
      assert QueueOf(after) == Mark(QueueOf(memory), p);
    } else {
      assert QueueOf(at) == QueueOf(memory);
      if |memory.frames| == n {
        FaultTakesHead(n, rest, at, after, p);
      } else {
        assert FromHand(after.frames, 0) == memory.frames + [p];
      }
    }
  }

  lemma FaultTakesHead(n: Positive, rest: seq<Page>, at: Memory, after: Memory, p: Page)
    requires WellFormed(at, n) && |at.frames| == n && p !in at.frames
    requires Demanded(Clock, n, rest, at, after, p)
    ensures QueueOf(after) == Search(QueueOf(at))[1..] + [Slot(p, true)]
  {
    var (referenced, hand) := Sweep(at.frames, at.referenced, at.hand);
    var h := hand - 1;
    SweepIsSearch(at.frames, at.referenced, at.hand);
    var others := Others(at.frames, h);
    OthersAroundHand(at.frames, h);
    OthersDiffer(at.frames, h);
    MarksSplit(others, at.frames[h], referenced);
    OthersAroundHand(after.frames, h);
    assert Others(after.frames, h) == others;
    MarksSplit(others, p, after.referenced);
    forall q | q in others
      ensures q in referenced <==> q in after.referenced
    {
      assert q in referenced - {at.frames[h]} <==> q in after.referenced - {at.frames[h]};
    }
    MarksAgree(others, referenced, after.referenced);
  }

  // ---------- whole runs ----------

  /** The queue and the fault count before each line and after the last one. */
  datatype QueueRun = QueueRun(queues: seq<Queue>, faults: seq<nat>)

  function QueuedPages(queue: Queue): set<Page> {
    set i | 0 <= i < |queue| :: queue[i].page
  }

  ghost predicate RunsLine(n: Positive, lines: seq<Line>, run: QueueRun, k: nat)
    requires k < |lines| < |run.queues| == |run.faults|
  {
    var p, demanded := lines[k].page, Demands(LettersAfter(lines, k + 1));
    && run.queues[k + 1] == QueueStep(run.queues[k], n, p, demanded)
    && run.faults[k + 1] == run.faults[k] + (if demanded && !Queued(run.queues[k], p) then 1 else 0)
  }

  /** A run of the queue machine from the empty queue, never queueing a page twice or more than `n` pages. */
  ghost predicate IsQueueRun(n: Positive, lines: seq<Line>, run: QueueRun) {
    && |run.queues| == |run.faults| == |lines| + 1
    && run.queues[0] == []
    && run.faults[0] == 0
    && (forall k :: 0 <= k <= |lines| ==> |QueuedPages(run.queues[k])| == |run.queues[k]| <= n)
    && forall k :: 0 <= k < |lines| ==> RunsLine(n, lines, run, k)
  }

  function ClockQueues(n: Positive, lines: seq<Line>): (run: QueueRun)
    ensures |run.queues| == |run.faults| == |lines| + 1
    ensures forall k :: 0 <= k <= |lines| ==>
              && run.queues[k] == QueueOf(After(Clock, n, lines, k))
              && run.faults[k] == After(Clock, n, lines, k).faults
  {
    QueueRun(seq(|lines| + 1, k requires 0 <= k <= |lines| => QueueOf(After(Clock, n, lines, k))),
             seq(|lines| + 1, k requires 0 <= k <= |lines| => After(Clock, n, lines, k).faults))
  }

  /** One line of the clock, in terms of its queue. */
  lemma ClockLine(n: Positive, rest: seq<Page>, before: Memory, after: Memory, letters: Letters, p: Page)
    requires WellFormed(before, n) && after == Step(Clock, n, rest, before, letters, p)
    ensures var queue := QueueOf(before);
      && QueueOf(after) == QueueStep(queue, n, p, Demands(letters))
      && after.faults == before.faults + (if Demands(letters) && !Queued(queue, p) then 1 else 0)
  {
    ClockStepIsQueueStep(n, rest, before, letters, p);
    StepIsDemandPaging(Clock, n, rest, before, letters, p);
    QueuedInFrames(before, p);
  }

  lemma ClockRunsLine(n: Positive, lines: seq<Line>, k: nat)
    requires k < |lines|
    ensures RunsLine(n, lines, ClockQueues(n, lines), k)
  {
    var run, letters := Memories(Clock, n, lines), LettersAfter(lines, k + 1);
    MemorySteps(Clock, n, lines, k);
    ClockLine(n, Pages(lines)[k + 1..], run[k], run[k + 1], letters, lines[k].page);
  }

  lemma QueueHoldsFrames(n: Positive, memory: Memory)
    requires WellFormed(memory, n)
    ensures |QueuedPages(QueueOf(memory))| == |QueueOf(memory)| <= n
  {
    var queue := QueueOf(memory);
    forall p
      ensures p in QueuedPages(queue) <==> p in Resident(memory.frames)
    {
      QueuedInFrames(memory, p);
    }
    assert QueuedPages(queue) == Resident(memory.frames);
    ResidentCount(memory.frames);
  }

  /** Over a whole trace the array clock and the second-chance queue run in step, fault for fault. */
  lemma ClockIsQueueRun(n: Positive, lines: seq<Line>)
    ensures IsQueueRun(n, lines, ClockQueues(n, lines))
  {
    var run := ClockQueues(n, lines);
    forall k | 0 <= k <= |lines|
      ensures |QueuedPages(run.queues[k])| == |run.queues[k]| <= n
    {
      QueueHoldsFrames(n, After(Clock, n, lines, k));
    }
    forall k | 0 <= k < |lines|
      ensures RunsLine(n, lines, run, k)
    {
      ClockRunsLine(n, lines, k);
    }
  }
}
