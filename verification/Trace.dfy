/** One line of a memory trace, and the decoder whose two letters outlive the line they came from. */
module Trace {
  import opened Options

  type Page = nat

  /** The three columns of a trace line; a column of the Lackey format may be empty. */
  datatype Line = Line(instruction: Option<char>, access: Option<char>, page: Page)

  /** The instruction letter and the access letter in force. */
  datatype Letters = Letters(instruction: char, access: char)

  const BLANK := Letters(' ', ' ')

  /** An empty column leaves the letter of an earlier line in force. */
  function Decode(letters: Letters, line: Line): Letters {
    Letters(if line.instruction.Some? then line.instruction.value else letters.instruction,
            if line.access.Some? then line.access.value else letters.access)
  }

  /** The letters in force after the first `k` lines. */
  function LettersAfter(lines: seq<Line>, k: nat): Letters
    requires k <= |lines|
  {
    if k == 0 then BLANK else Decode(LettersAfter(lines, k - 1), lines[k - 1])
  }

  /** Some branch of the simulator demands the page. */
  predicate Demands(letters: Letters) {
    letters.instruction == 'I' || letters.instruction == 'S' || letters.access == 'L' || letters.access == 'M'
  }

  /** Some branch of the simulator sets the dirty bit. */
  predicate Stores(letters: Letters) {
    letters.instruction == 'S' || letters.access == 'M'
  }

  function Pages(lines: seq<Line>): (pages: seq<Page>)
    ensures |pages| == |lines|
    ensures forall k :: 0 <= k < |lines| ==> pages[k] == lines[k].page
  {
    seq(|lines|, k requires 0 <= k < |lines| => lines[k].page)
  }

  /** What a schedule has to serve, line by line: a page, or nothing. */
  type Requests = seq<Option<Page>>

  /** Every line asks for its page, whether a branch of the simulator runs for it or not. */
  function Listed(lines: seq<Line>): (requests: Requests)
    ensures |requests| == |lines|
    ensures forall k :: 0 <= k < |lines| ==> requests[k] == Some(lines[k].page)
  {
    seq(|lines|, k requires 0 <= k < |lines| => Some(lines[k].page))
  }

  /** For each line, whether some branch of the simulator demands its page; the pages play no part in it. */
  function Service(lines: seq<Line>): (served: seq<bool>)
    ensures |served| == |lines|
    ensures forall k :: 0 <= k < |lines| ==> served[k] == Demands(LettersAfter(lines, k + 1))
  {
    seq(|lines|, k requires 0 <= k < |lines| => Demands(LettersAfter(lines, k + 1)))
  }

  /** Only the lines that some branch serves ask for their page. */
  function Served(lines: seq<Line>): (requests: Requests)
    ensures |requests| == |lines|
    ensures forall k :: 0 <= k < |lines| ==>
              requests[k] == if Demands(LettersAfter(lines, k + 1)) then Some(lines[k].page) else None
  {
    seq(|lines|, k requires 0 <= k < |lines| =>
          if Demands(LettersAfter(lines, k + 1)) then Some(lines[k].page) else None)
  }

  /** How many of the first `k` lines some branch serves. */
  function ServedBefore(served: seq<bool>, k: nat): (count: nat)
    requires k <= |served|
    ensures count <= k
  {
    if k == 0 then 0 else ServedBefore(served, k - 1) + (if served[k - 1] then 1 else 0)
  }

  /** A line that no branch serves stands between two served ones, far enough apart for `n - 1` pages to be listed
      between them, and the first of the two late enough to find all of `n` frames taken. */
  ghost predicate Gap(n: nat, served: seq<bool>) {
    n >= 2 && exists t: nat, u: nat, s: nat :: IsGap(n, served, t, u, s)
  }

  predicate IsGap(n: nat, served: seq<bool>, t: nat, u: nat, s: nat) {
    && t < u < s < |served|
    && served[t] && !served[u] && served[s]
    && s - t >= n
    && ServedBefore(served, t + 1) > n
  }

  lemma NoGapIfEveryLineDemands(n: nat, lines: seq<Line>)
    requires EveryLineDemands(lines)
    ensures !Gap(n, Service(lines))
  {
  }

  ghost predicate EveryLineDemands(lines: seq<Line>) {
    forall k :: 1 <= k <= |lines| ==> Demands(LettersAfter(lines, k))
  }

  /** The format Lackey writes: an `I` line first, and never another letter in the first column. */
  ghost predicate Lackey(lines: seq<Line>) {
    && (|lines| > 0 ==> lines[0].instruction == Some('I'))
    && forall k :: 0 <= k < |lines| ==> lines[k].instruction == None || lines[k].instruction == Some('I')
  }

  /** A letter of either column stays in force until a later line has one in the same column. */
  lemma {:induction false} LetterOutlivesItsLine(lines: seq<Line>, j: nat, k: nat)
    requires j < k <= |lines|
    ensures lines[j].instruction.Some? && (forall i :: j < i < k ==> lines[i].instruction.None?) ==>
              LettersAfter(lines, k).instruction == lines[j].instruction.value
    ensures lines[j].access.Some? && (forall i :: j < i < k ==> lines[i].access.None?) ==>
              LettersAfter(lines, k).access == lines[j].access.value
  {
    if j + 1 < k {
      LetterOutlivesItsLine(lines, j, k - 1);
    }
  }

  /** Until the first line with a letter in a column, that column is blank. */
  lemma {:induction false} BlankBeforeAnyLetter(lines: seq<Line>, k: nat)
    requires k <= |lines|
    ensures (forall i :: 0 <= i < k ==> lines[i].instruction.None?) ==> LettersAfter(lines, k).instruction == ' '
    ensures (forall i :: 0 <= i < k ==> lines[i].access.None?) ==> LettersAfter(lines, k).access == ' '
  {
    if k > 0 {
      BlankBeforeAnyLetter(lines, k - 1);
    }
  }

  lemma {:induction false} InstructionLetterSticks(lines: seq<Line>, k: nat)
    requires Lackey(lines) && 1 <= k <= |lines|
    ensures LettersAfter(lines, k).instruction == 'I'
  {
    if k > 1 {
      InstructionLetterSticks(lines, k - 1);
    }
  }

  /** On a Lackey trace the instruction branch runs for every line, whatever its access letter. */
  lemma LackeyLinesDemand(lines: seq<Line>)
    requires Lackey(lines)
    ensures EveryLineDemands(lines) && Served(lines) == Listed(lines)
    ensures forall n: nat :: !Gap(n, Service(lines))
    ensures forall k :: 1 <= k <= |lines| ==> LettersAfter(lines, k).instruction == 'I'
  {
    forall k | 1 <= k <= |lines|
      ensures LettersAfter(lines, k).instruction == 'I'
    {
      InstructionLetterSticks(lines, k);
    }
    forall n: nat
      ensures !Gap(n, Service(lines))
    {
      NoGapIfEveryLineDemands(n, lines);
    }
  }
}
