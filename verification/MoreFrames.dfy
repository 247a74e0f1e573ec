/** More frames never make `opt` fault more, on any trace: a stack property, up to pages that are never listed again. */
module MoreFrames {
  import opened Options
  import opened Trace
  import opened VirtualMemory
  import opened Schedules
  import opened Belady

  /** No resident is listed later than `v`. */
  ghost predicate Farthest(rest: seq<Page>, held: set<Page>, v: Page) {
    v in held && forall q :: q in held ==> NextUse(rest, q) <= NextUse(rest, v)
  }

  /** What one line of OPT does to its residents in `n` frames. */
  ghost predicate Moves(n: nat, rest: seq<Page>, request: Option<Page>, held: set<Page>, held': set<Page>) {
    if !Misses(request, held) then held' == held
    else if |held| < n then held' == held + {request.value}
    else exists v :: Farthest(rest, held, v) && held' == held - {v} + {request.value}
  }

  /** The residents of `m` frames that are listed again are residents of more frames, too, and of those never listed
      again there are no more. Until the `m` frames are taken, there is no difference at all. */
  ghost predicate Nested(m: nat, few: set<Page>, many: set<Page>, later: set<Page>) {
    && few * later <= many
    && |few - later| <= |many - later|
    && |few| <= m
    && (|few| < m ==> few == many)
  }

  lemma NextUseFound(rest: seq<Page>, p: Page)
    ensures NextUse(rest, p) < |rest| <==> p in rest
  {
    if p in rest {
      var k :| 0 <= k < |rest| && rest[k] == p;
    }
  }

  /** If a farthest page is listed again, all residents are. */
  lemma FarthestListed(rest: seq<Page>, held: set<Page>, v: Page)
    requires Farthest(rest, held, v) && v in rest
    ensures held <= Resident(rest)
  {
    forall q | q in held
      ensures q in rest
    {
      NextUseFound(rest, q);
      NextUseFound(rest, v);
    }
  }

  lemma Without(held: set<Page>, later: set<Page>, p: Page)
    ensures |held - later| == |held - (later + {p})| + (if p in held && p !in later then 1 else 0)
    ensures |held - {p} - later| == |held - later| - (if p in held && p !in later then 1 else 0)
  {
    if p in held && p !in later {
      assert held - later == held - (later + {p}) + {p};
      assert held - {p} - later == held - later - {p};
    } else {
      assert held - later == held - (later + {p});
      assert held - {p} - later == held - later;
    }
  }

  lemma StayNested(m: nat, few: set<Page>, many: set<Page>, later: set<Page>, p: Page)
    requires Nested(m, few, many, later + {p})
    ensures Nested(m, few, many, later)
  {
    Without(few, later, p);
    Without(many, later, p);
  }

  /** The victims of a farthest eviction from both. */
  lemma EvictFromBoth(rest: seq<Page>, few: set<Page>, many: set<Page>, v: Page, w: Page)
    requires Farthest(rest, few, v) && Farthest(rest, many, w)
    requires few * Resident(rest) <= many && |few - Resident(rest)| <= |many - Resident(rest)|
    ensures (few - {v}) * Resident(rest) <= many - {w}
    ensures |few - {v} - Resident(rest)| <= |many - {w} - Resident(rest)|
  {
    var later := Resident(rest);
    Without(few, later, v);
    Without(many, later, w);
    if v in rest {
      FarthestListed(rest, few, v);
      assert few - later == {};
    }
    if w in rest {
      FarthestListed(rest, many, w);
      assert many - later == {};
      assert few <= many;
      NextUseFound(rest, w);
    }
  }

  lemma AddToBoth(few: set<Page>, many: set<Page>, later: set<Page>, p: Page)
    requires p !in few && p !in many
    requires few * later <= many && |few - later| <= |many - later|
    ensures (few + {p}) * later <= many + {p} && |few + {p} - later| <= |many + {p} - later|
  {
    if p in later {
      assert few + {p} - later == few - later && many + {p} - later == many - later;
    } else {
      assert few + {p} - later == few - later + {p} && many + {p} - later == many - later + {p};
    }
  }

  /** A fault in few frames that is a hit in many. */
  lemma FewMiss(m: nat, few: set<Page>, many: set<Page>, later: set<Page>, p: Page, v: Page)
    requires Nested(m, few, many, later + {p}) && |few| == m
    requires p !in few && p in many && v in few
    ensures Nested(m, few - {v} + {p}, many, later)
  {
    Without(many, later, p);
    Without(few, later, p);
    Without(few, later, v);
    var after := few - {v} + {p};
    Without(after, later, p);
    assert after - {p} == few - {v};
  }

  lemma BothMiss(m: nat, n: nat, rest: seq<Page>, p: Page, few: set<Page>, few': set<Page>, many: set<Page>,
                 many': set<Page>)
    requires m <= n && |many| <= n && Nested(m, few, many, Resident(rest)) && p !in few && p !in many
    requires Moves(m, rest, Some(p), few, few') && Moves(n, rest, Some(p), many, many') && 1 <= m
    ensures Nested(m, few', many', Resident(rest))
  {
    var later := Resident(rest);
    if |few| < m {
      AddToBoth(few, many, later, p);
    } else {
      var v :| Farthest(rest, few, v) && few' == few - {v} + {p};
      if |many| < n {
        Without(few, later, v);
        AddToBoth(few - {v}, many, later, p);
      } else {
        var w :| Farthest(rest, many, w) && many' == many - {w} + {p};
        EvictFromBoth(rest, few, many, v, w);
        AddToBoth(few - {v}, many - {w}, later, p);
      }
    }
  }

  /** One line keeps the two nested, and is a fault in many frames only if it is one in few. */
  lemma MovesKeepNested(m: nat, n: nat, rest: seq<Page>, p: Page, request: Option<Page>, few: set<Page>,
                        few': set<Page>, many: set<Page>, many': set<Page>)
    requires 1 <= m <= n && |many| <= n && Nested(m, few, many, Resident(rest) + {p})
    requires request == None || request == Some(p)
    requires Moves(m, rest, request, few, few') && Moves(n, rest, request, many, many')
    ensures Nested(m, few', many', Resident(rest))
    ensures Misses(request, many) ==> Misses(request, few)
  {
    StayNested(m, few, many, Resident(rest), p);
    if Misses(request, many) {
      BothMiss(m, n, rest, p, few, few', many, many');
    } else if Misses(request, few) {
      var v :| Farthest(rest, few, v) && few' == few - {v} + {p};
      FewMiss(m, few, many, Resident(rest), p, v);
    }
  }

  // ---------- over a whole run ----------

  lemma FarthestFrameIsFarthest(frames: seq<Page>, rest: seq<Page>)
    requires frames != []
    ensures Farthest(rest, Resident(frames), frames[FarthestFrame(frames, rest)])
  {
  }

  ghost predicate MovesAt(n: Positive, pages: seq<Page>, requests: Requests, run: Run, k: nat)
    requires k < |pages| == |requests| && |run.held| == |run.faults| == |pages| + 1
  {
    && |run.held[k]| <= n
    && Moves(n, pages[k + 1..], requests[k], run.held[k], run.held[k + 1])
    && run.faults[k + 1] == run.faults[k] + (if Misses(requests[k], run.held[k]) then 1 else 0)
  }

  lemma OptMoves(n: Positive, lines: seq<Line>, k: nat)
    requires k < |lines|
    ensures MovesAt(n, Pages(lines), Served(lines), RunOf(Opt, n, lines), k)
  {
    var frames, rest := After(Opt, n, lines, k).frames, Pages(lines)[k + 1..];
    OptResidentsInRun(n, lines, k);
    RunStep(Opt, n, lines, k);
    ResidentCount(frames);
    if |frames| == n {
      FarthestFrameIsFarthest(frames, rest);
    }
  }

  ghost predicate IsOptRun(n: Positive, pages: seq<Page>, requests: Requests, run: Run) {
    && |run.held| == |run.faults| == |pages| + 1 == |requests| + 1
    && run.held[0] == {}
    && run.faults[0] == 0
    && forall k :: 0 <= k < |pages| ==> MovesAt(n, pages, requests, run, k)
  }

  lemma OptRunsSo(n: Positive, lines: seq<Line>)
    ensures IsOptRun(n, Pages(lines), Served(lines), RunOf(Opt, n, lines))
  {
    forall k | 0 <= k < |lines|
      ensures MovesAt(n, Pages(lines), Served(lines), RunOf(Opt, n, lines), k)
    {
      OptMoves(n, lines, k);
    }
  }

  /** The two runs before line `k`. */
  ghost predicate NestedAt(m: Positive, pages: seq<Page>, few: Run, many: Run, k: nat)
    requires k <= |pages| < |few.held| == |few.faults| == |many.held| == |many.faults|
  {
    && Nested(m, few.held[k], many.held[k], Resident(pages[k..]))
    && many.faults[k] <= few.faults[k]
  }

  ghost predicate OnePage(pages: seq<Page>, requests: Requests) {
    |pages| == |requests| &&
    forall k :: 0 <= k < |pages| ==> requests[k] == None || requests[k] == Some(pages[k])
  }

  lemma {:induction false} NestedThroughout(m: Positive, n: Positive, pages: seq<Page>, requests: Requests, few: Run,
                                            many: Run, k: nat)
    requires m <= n && k <= |pages| && OnePage(pages, requests)
    requires IsOptRun(m, pages, requests, few) && IsOptRun(n, pages, requests, many)
    ensures NestedAt(m, pages, few, many, k)
  {
    if k > 0 {
      NestedThroughout(m, n, pages, requests, few, many, k - 1);
      var p, rest := pages[k - 1], pages[k..];
      assert pages[k - 1..] == [p] + rest;
      assert Resident([p] + rest) == Resident(rest) + {p};
      assert MovesAt(m, pages, requests, few, k - 1) && MovesAt(n, pages, requests, many, k - 1);
      MovesKeepNested(m, n, rest, p, requests[k - 1], few.held[k - 1], few.held[k], many.held[k - 1], many.held[k]);
    }
  }

  /** On every trace, whether some branch serves every line or not, more frames never make `opt` fault more. */
  lemma MoreFramesNeverHurt(m: Positive, n: Positive, lines: seq<Line>)
    requires m <= n
    ensures Faults(Opt, n, lines) <= Faults(Opt, m, lines)
  {
    OptRunsSo(m, lines);
    OptRunsSo(n, lines);
    NestedThroughout(m, n, Pages(lines), Served(lines), RunOf(Opt, m, lines), RunOf(Opt, n, lines), |lines|);
  }
}
