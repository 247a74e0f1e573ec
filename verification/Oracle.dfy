/** OPT's oracle: for each page the list of the lines that will use it, and the search for the page used last. */
module Oracle {
  import opened Trace
  import opened VirtualMemory

  /** The increasing positions from `from` up to `to` at which `p` is used. */
  function Occurrences(pages: seq<Page>, from: nat, to: nat, p: Page): (positions: seq<nat>)
    requires from <= to <= |pages|
    decreases |pages| - from
  {
    if from == to then []
    else (if pages[from] == p then [from] else []) + Occurrences(pages, from + 1, to, p)
  }

  lemma {:induction false} OccurrencesExtend(pages: seq<Page>, from: nat, to: nat, p: Page)
    requires from <= to < |pages|
    ensures Occurrences(pages, from, to + 1, p) ==
            Occurrences(pages, from, to, p) + if pages[to] == p then [to] else []
    decreases |pages| - from
  {
    if from < to {
      OccurrencesExtend(pages, from + 1, to, p);
    }
  }

  /** The list holds each use exactly once, in order. */
  lemma {:induction false} OccurrencesAreUses(pages: seq<Page>, from: nat, to: nat, p: Page)
    requires from <= to <= |pages|
    ensures var list := Occurrences(pages, from, to, p);
      && (forall k :: k in list <==> from <= k < to && pages[k] == p)
      && (forall i, j :: 0 <= i < j < |list| ==> list[i] < list[j])
    decreases |pages| - from
  {
    if from < to {
      OccurrencesAreUses(pages, from + 1, to, p);
      var tail := Occurrences(pages, from + 1, to, p);
      forall i | 0 <= i < |tail|
        ensures tail[i] > from
      {
        assert tail[i] in tail;
      }
      forall k
        ensures k in Occurrences(pages, from, to, p) <==> k in tail || (k == from && pages[from] == p)
      {
      }
    }
  }

  /** The head of the list is the next use; the list is empty when there is none. */
  lemma {:induction false} FirstOccurrence(pages: seq<Page>, from: nat, p: Page)
    requires from <= |pages|
    ensures var list, d := Occurrences(pages, from, |pages|, p), NextUse(pages[from..], p);
      if d == |pages| - from then list == [] else list != [] && list[0] == from + d
    decreases |pages| - from
  {
    if from < |pages| {
      assert pages[from..][1..] == pages[from + 1..];
      FirstOccurrence(pages, from + 1, p);
    }
  }

  /** The lists of all pages, once the lines before `from` have been removed from them. */
  ghost predicate Foresees(futureMap: seq<seq<nat>>, pages: seq<Page>, from: nat)
    requires from <= |pages|
  {
    forall p :: 0 <= p < |futureMap| ==> futureMap[p] == Occurrences(pages, from, |pages|, p)
  }

  /** `removeFirst` takes away exactly the line being served. */
  method RemoveFirst(futureMap: seq<seq<nat>>, page: Page, ghost pages: seq<Page>, ghost from: nat)
    returns (after: seq<seq<nat>>)
    requires from < |pages| && pages[from] == page < |futureMap| && Foresees(futureMap, pages, from)
    ensures |after| == |futureMap| && Foresees(after, pages, from + 1)
    ensures futureMap[page] == [from] + after[page]
  {
    after := futureMap[page := futureMap[page][1..]];
  }

  lemma FarthestIsUnique(frames: seq<Page>, rest: seq<Page>, i: nat)
    requires i < |frames|
    requires forall j :: 0 <= j < |frames| ==> NextUse(rest, frames[j]) <= NextUse(rest, frames[i])
    requires forall j :: 0 <= j < i ==> NextUse(rest, frames[j]) < NextUse(rest, frames[i])
    ensures FarthestFrame(frames, rest) == i
  {
    var k := FarthestFrame(frames, rest);
    assert NextUse(rest, frames[k]) == NextUse(rest, frames[i]);
  }

  /** Fill the lists from the trace. */
  method ForeseeTrace(pages: seq<Page>, tableSize: nat) returns (futureMap: seq<seq<nat>>)
    requires forall k :: 0 <= k < |pages| ==> pages[k] < tableSize
    ensures |futureMap| == tableSize && Foresees(futureMap, pages, 0)
  {
    futureMap := seq(tableSize, _ => []);
    var lineCount := 0;
    while lineCount < |pages|
      invariant lineCount <= |pages| && |futureMap| == tableSize
      invariant forall p :: 0 <= p < tableSize ==> futureMap[p] == Occurrences(pages, 0, lineCount, p)
    {
      var pageNumber := pages[lineCount];
      forall p | 0 <= p < tableSize
        ensures Occurrences(pages, 0, lineCount + 1, p) ==
                Occurrences(pages, 0, lineCount, p) + if pageNumber == p then [lineCount] else []
      {
        OccurrencesExtend(pages, 0, lineCount, p);
      }
      futureMap := futureMap[pageNumber := futureMap[pageNumber] + [lineCount]];
      lineCount := lineCount + 1;
    }
  }

  /** The first frame whose page is not used again, or else the one whose page is used last. */
  method LocateLongestDistancePage(pageFrames: array<int>, futureMap: seq<seq<nat>>, ghost frames: seq<Page>,
                                   ghost pages: seq<Page>, ghost from: nat)
    returns (page: int)
    requires frames != [] && pageFrames.Length == |frames|
    requires forall i :: 0 <= i < |frames| ==> pageFrames[i] == frames[i] < |futureMap|
    requires 1 <= from <= |pages| && Foresees(futureMap, pages, from)
    ensures page == frames[FarthestFrame(frames, pages[from..])]
  {
    var index, max := 0, 0;
    ghost var best, rest := 0, pages[from..];
    for i := 0 to pageFrames.Length
      invariant i == 0 ==> max == 0
      invariant forall j :: 0 <= j < i ==> NextUse(rest, frames[j]) < |rest|
      invariant i > 0 ==> best < i && index == frames[best] && max == from + NextUse(rest, frames[best])
      invariant i > 0 ==> forall j :: 0 <= j < i ==> NextUse(rest, frames[j]) <= NextUse(rest, frames[best])
      invariant i > 0 ==> forall j :: 0 <= j < best ==> NextUse(rest, frames[j]) < NextUse(rest, frames[best])
    {
      FirstOccurrence(pages, from, frames[i]);
      if futureMap[pageFrames[i]] == [] {
        FarthestIsUnique(frames, rest, i);
        return pageFrames[i];
      } else if futureMap[pageFrames[i]][0] > max {
        max := futureMap[pageFrames[i]][0];
        index := pageFrames[i];
        best := i;
      }
    }
    FarthestIsUnique(frames, rest, best);
    return index;
  }
}
