/** `draw_circle`: Jesko's method, and the shape of what it plots. */
module Circle {

  /** An offset from the centre, or a pixel. */
  type Point = (int, int)

  /** A 16-bit colour. */
  type Color = c: int | 0 <= c < 0x1_0000

  // ---------- the points of one octant ----------

  /** The offset and error term after one turn of the loop. */
  function Turn(a: int, b: int, t: int): (int, int, int) {
    var raised := t + b + 1;
    if raised - a >= 0 then (a - 1, b + 1, raised - a) else (a, b + 1, raised)
  }

  /** The points the loop passes through from offset `(a, b)` with error term `t`. */
  function Octant(a: int, b: int, t: int): seq<Point>
    decreases if a >= b then a - b + 1 else 0
  {
    if a < b then []
    else
      var (a', b', t') := Turn(a, b, t);
      [(a, b)] + Octant(a', b', t')
  }

  /** What the loop keeps for radius `r`: the error term measures the distance from the circle exactly, and stays
      below `a` as long as the loop runs. */
  ghost predicate OnCourse(r: int, a: int, b: int, t: int) {
    && 0 <= b && a <= r
    && 2 * t == 2 * (r / 16) + a * a + a + b * b + b - r * r - r
    && (a >= b ==> 0 <= t < a)
  }

  lemma StartsOnCourse(r: int)
    requires r >= 1
    ensures OnCourse(r, r, 0, r / 16)
  {
  }

  lemma StaysOnCourse(r: int, a: int, b: int, t: int)
    requires r >= 1 && OnCourse(r, a, b, t) && a >= b
    ensures var (a', b', t') := Turn(a, b, t);
      OnCourse(r, a', b', t')
  {
    assert (b + 1) * (b + 1) == b * b + 2 * b + 1;
    assert (a - 1) * (a - 1) == a * a - 2 * a + 1;
  }

  /** Less than one pixel off the circle, inside and outside. */
  ghost predicate NearCircle(r: int, p: Point) {
    (r - 1) * (r - 1) <= p.0 * p.0 + p.1 * p.1 < (r + 1) * (r + 1)
  }

  lemma OnCourseIsNear(r: int, a: int, b: int, t: int)
    requires r >= 1 && OnCourse(r, a, b, t) && a >= b
    ensures NearCircle(r, (a, b))
  {
    assert (r - 1) * (r - 1) == r * r - 2 * r + 1 && (r + 1) * (r + 1) == r * r + 2 * r + 1;
  }

  /** Consecutive points touch, the first is `(a, b)` and the last touches the diagonal. */
  ghost predicate Descends(points: seq<Point>) {
    && (forall i :: 0 <= i < |points| ==> 0 <= points[i].1 <= points[i].0)
    && (forall i :: 0 <= i < |points| - 1 ==> Adjacent(points[i], points[i + 1]))
    && (points != [] ==> points[|points| - 1].0 - points[|points| - 1].1 <= 1)
  }

  /** The same point or one of its eight neighbours. */
  predicate Adjacent(p: Point, q: Point) {
    -1 <= p.0 - q.0 <= 1 && -1 <= p.1 - q.1 <= 1
  }

  ghost predicate AllNear(r: int, points: seq<Point>) {
    forall i :: 0 <= i < |points| ==> NearCircle(r, points[i])
  }

  lemma PrependShape(r: int, p: Point, rest: seq<Point>)
    requires AllNear(r, rest) && Descends(rest) && NearCircle(r, p) && 0 <= p.1 <= p.0
    requires if rest == [] then p.0 - p.1 <= 1 else Adjacent(p, rest[0])
    ensures AllNear(r, [p] + rest) && Descends([p] + rest)
  {
    var points := [p] + rest;
    forall i | 0 <= i < |points| - 1
      ensures Adjacent(points[i], points[i + 1])
    {
      assert points[i + 1] == rest[i];
      if i > 0 {
        assert points[i] == rest[i - 1];
      }
    }
  }

  lemma {:induction false} OctantShape(r: int, a: int, b: int, t: int)
    requires r >= 1 && OnCourse(r, a, b, t)
    ensures var points := Octant(a, b, t);
      && AllNear(r, points)
      && Descends(points)
      && if a >= b then points != [] && points[0] == (a, b) else points == []
    decreases if a >= b then a - b + 1 else 0
  {
    if a >= b {
      StaysOnCourse(r, a, b, t);
      OnCourseIsNear(r, a, b, t);
      var (a', b', t') := Turn(a, b, t);
      OctantShape(r, a', b', t');
      PrependShape(r, (a, b), Octant(a', b', t'));
    }
  }

  // ---------- the eight octants ----------

  function Swap(p: Point): Point {
    (p.1, p.0)
  }

  function FlipX(p: Point): Point {
    (-p.0, p.1)
  }

  function FlipY(p: Point): Point {
    (p.0, -p.1)
  }

  /** The eight images of an offset. */
  function Images(p: Point): set<Point> {
    {(p.0, p.1), (p.1, p.0), (-p.1, p.0), (-p.0, p.1), (-p.0, -p.1), (-p.1, -p.0), (p.1, -p.0), (p.0, -p.1)}
  }

  function Mirrored(points: seq<Point>): set<Point> {
    if points == [] then {} else Mirrored(points[..|points| - 1]) + Images(points[|points| - 1])
  }

  lemma {:induction false} MirroredMembers(points: seq<Point>, q: Point)
    ensures q in Mirrored(points) <==> (exists i :: 0 <= i < |points| && q in Images(points[i]))
  {
    if points != [] {
      var shorter := points[..|points| - 1];
      MirroredMembers(shorter, q);
      if q in Mirrored(shorter) {
        var i :| 0 <= i < |shorter| && q in Images(shorter[i]);
        assert q in Images(points[i]);
      }
    }
  }

  /** The offsets `draw_circle` plots for radius `r`. */
  function Offsets(r: int): set<Point> {
    Mirrored(Octant(r, 0, r / 16))
  }

  /** No radius below zero plots anything, and radius 0 plots the centre alone. */
  lemma SmallRadii(r: int)
    requires r <= 0
    ensures Offsets(r) == if r == 0 then {(0, 0)} else {}
  {
    if r == 0 {
      assert Octant(0, 0, 0) == [(0, 0)] + Octant(-1, 1, 1);
      assert Octant(0, 0, 0)[..0] == [];
    }
  }

  lemma SquareOfNegative(a: int)
    ensures (-a) * (-a) == a * a
  {
  }

  lemma ImagesAreNear(r: int, q: Point, p: Point)
    requires NearCircle(r, q) && p in Images(q)
    ensures NearCircle(r, p)
  {
    SquareOfNegative(q.0);
    SquareOfNegative(q.1);
  }

  lemma ImagesAreClosed(q: Point, p: Point)
    requires p in Images(q)
    ensures Swap(p) in Images(q) && FlipX(p) in Images(q) && FlipY(p) in Images(q)
  {
  }

  /** Every offset is an image of a point of the first octant. */
  lemma OffsetSource(r: int, p: Point) returns (i: nat)
    requires r >= 1 && p in Offsets(r)
    ensures i < |Octant(r, 0, r / 16)| && p in Images(Octant(r, 0, r / 16)[i])
  {
    var points := Octant(r, 0, r / 16);
    MirroredMembers(points, p);
    i :| 0 <= i < |points| && p in Images(points[i]);
  }

  /** Every pixel is less than one pixel off the circle. */
  lemma OffsetsAreNear(r: int, p: Point)
    requires r >= 1 && p in Offsets(r)
    ensures NearCircle(r, p)
  {
    var i := OffsetSource(r, p);
    StartsOnCourse(r);
    OctantShape(r, r, 0, r / 16);
    ImagesAreNear(r, Octant(r, 0, r / 16)[i], p);
  }

  /** The figure has the eight symmetries of the square. */
  lemma OffsetsAreSymmetric(r: int, p: Point)
    requires r >= 1 && p in Offsets(r)
    ensures Swap(p) in Offsets(r) && FlipX(p) in Offsets(r) && FlipY(p) in Offsets(r)
  {
    var points := Octant(r, 0, r / 16);
    var i := OffsetSource(r, p);
    ImagesAreClosed(points[i], p);
    MirroredMembers(points, Swap(p));
    MirroredMembers(points, FlipX(p));
    MirroredMembers(points, FlipY(p));
  }

  // ---------- exactly which pixels ----------

  function Oblong(x: int): int {
    x * x + x
  }

  lemma OblongGrows(x: int, y: int)
    requires -1 <= x <= y
    ensures Oblong(x) <= Oblong(y)
  {
    if x >= 0 {
      assert x * x <= x * y <= y * y;
    }
  }

  lemma OblongBelow(x: int)
    ensures Oblong(x - 1) == Oblong(x) - 2 * x
  {
    assert (x - 1) * (x - 1) == x * x - 2 * x + 1;
  }

  /** Twice the error term of the point `(a, b)`. */
  function Excess(r: int, a: int, b: int): int {
    2 * (r / 16) + Oblong(a) + Oblong(b) - Oblong(r)
  }

  /** In each row of the first octant exactly one pixel is chosen: the first at which the error is not negative. */
  predicate Chosen(r: int, p: Point) {
    0 <= p.1 <= p.0 && 0 <= Excess(r, p.0, p.1) < 2 * p.0
  }

  /** No pixel left of the first one in its row, and none right of it. */
  lemma OneInRow(r: int, a: int, a': int, b: int)
    requires Chosen(r, (a, b)) && Chosen(r, (a', b))
    ensures a == a'
  {
    OblongBelow(a);
    OblongBelow(a');
    if a' < a {
      OblongGrows(a', a - 1);
    } else if a < a' {
      OblongGrows(a, a' - 1);
    }
  }

  /** Past the diagonal no row has a pixel to choose. */
  lemma NoneBeyond(r: int, a: int, b: int, p: Point)
    requires -1 <= a < b && 0 <= b && Excess(r, a, b) >= 0 && p.1 >= b
    ensures !Chosen(r, p)
  {
    if Chosen(r, p) {
      OblongBelow(p.0);
      OblongGrows(a, p.0 - 1);
      OblongGrows(b, p.1);
    }
  }

  lemma PrependMember(p: Point, rest: seq<Point>, q: Point)
    ensures q in [p] + rest <==> q == p || q in rest
  {
  }

  lemma {:induction false} OctantIsExact(r: int, a: int, b: int, t: int, p: Point)
    requires r >= 1 && OnCourse(r, a, b, t) && t >= 0 && a >= -1
    ensures p in Octant(a, b, t) <==> p.1 >= b && Chosen(r, p)
    decreases if a >= b then a - b + 1 else 0
  {
    assert Excess(r, a, b) == 2 * t;
    if a >= b {
      StaysOnCourse(r, a, b, t);
      var (a', b', t') := Turn(a, b, t);
      OctantIsExact(r, a', b', t', p);
      PrependMember((a, b), Octant(a', b', t'), p);
      assert Chosen(r, (a, b));
      if p.1 == b && Chosen(r, p) {
        OneInRow(r, a, p.0, b);
      }
    } else if p.1 >= b {
      NoneBeyond(r, a, b, p);
    }
  }

  function Abs(x: int): int {
    if x < 0 then -x else x
  }

  /** The image of an offset in the first octant. */
  function Folded(p: Point): Point {
    var x, y := Abs(p.0), Abs(p.1);
    if y <= x then (x, y) else (y, x)
  }

  lemma ImagesFold(q: Point, p: Point)
    requires 0 <= q.1 <= q.0
    ensures p in Images(q) <==> Folded(p) == q
  {
  }

  /** The figure, pixel by pixel: an offset is plotted exactly if its image in the first octant is the one chosen in its
      row. */
  lemma FigureIsExact(r: int, p: Point)
    requires r >= 1
    ensures p in Offsets(r) <==> Chosen(r, Folded(p))
  {
    var points := Octant(r, 0, r / 16);
    StartsOnCourse(r);
    OctantShape(r, r, 0, r / 16);
    MirroredMembers(points, p);
    OctantIsExact(r, r, 0, r / 16, Folded(p));
    if p in Offsets(r) {
      var i :| 0 <= i < |points| && p in Images(points[i]);
      ImagesFold(points[i], p);
    }
    if Folded(p) in points {
      var i :| 0 <= i < |points| && points[i] == Folded(p);
      ImagesFold(points[i], p);
    }
  }

  // ---------- the figure has no gaps ----------

  ghost predicate IsPath(figure: set<Point>, path: seq<Point>) {
    && path != []
    && (forall i :: 0 <= i < |path| ==> path[i] in figure)
    && forall i :: 0 <= i < |path| - 1 ==> Adjacent(path[i], path[i + 1])
  }

  /** One can walk from `p` to `q` inside the figure, from neighbour to neighbour. */
  ghost predicate Linked(figure: set<Point>, p: Point, q: Point) {
    exists path :: IsPath(figure, path) && path[0] == p && path[|path| - 1] == q
  }

  lemma LinkThrough(figure: set<Point>, p: Point, q: Point, s: Point)
    requires Linked(figure, p, q) && Linked(figure, q, s)
    ensures Linked(figure, p, s)
  {
    var a :| IsPath(figure, a) && a[0] == p && a[|a| - 1] == q;
    var b :| IsPath(figure, b) && b[0] == q && b[|b| - 1] == s;
    var path := a + b;
    assert path[0] == p && path[|path| - 1] == s;
    assert IsPath(figure, path);
  }

  lemma LinkBack(figure: set<Point>, p: Point, q: Point)
    requires Linked(figure, p, q)
    ensures Linked(figure, q, p)
  {
    var a :| IsPath(figure, a) && a[0] == p && a[|a| - 1] == q;
    var path := seq(|a|, i requires 0 <= i < |a| => a[|a| - 1 - i]);
    assert path[0] == q && path[|path| - 1] == p;
    assert IsPath(figure, path);
  }

  lemma LinkNeighbours(figure: set<Point>, p: Point, q: Point)
    requires p in figure && q in figure && Adjacent(p, q)
    ensures Linked(figure, p, q)
  {
    assert IsPath(figure, [p, q]);
  }

  /** A symmetry of the figure carries links over. */
  lemma LinkImage(figure: set<Point>, f: Point -> Point, p: Point, q: Point)
    requires Linked(figure, p, q)
    requires forall s :: s in figure ==> f(s) in figure
    requires forall s, t :: Adjacent(s, t) ==> Adjacent(f(s), f(t))
    ensures Linked(figure, f(p), f(q))
  {
    var a :| IsPath(figure, a) && a[0] == p && a[|a| - 1] == q;
    var path := seq(|a|, i requires 0 <= i < |a| => f(a[i]));
    assert path[0] == f(p) && path[|path| - 1] == f(q);
    forall i | 0 <= i < |path| - 1
      ensures Adjacent(path[i], path[i + 1])
    {
      assert Adjacent(a[i], a[i + 1]);
    }
    assert IsPath(figure, path);
  }

  ghost predicate Symmetric(figure: set<Point>) {
    forall s :: s in figure ==> Swap(s) in figure && FlipX(s) in figure && FlipY(s) in figure
  }

  lemma FigureIsSymmetric(r: int)
    requires r >= 1
    ensures Symmetric(Offsets(r))
  {
    forall s | s in Offsets(r)
      ensures Swap(s) in Offsets(r) && FlipX(s) in Offsets(r) && FlipY(s) in Offsets(r)
    {
      OffsetsAreSymmetric(r, s);
    }
  }

  lemma SymmetricLinks(figure: set<Point>, p: Point, q: Point)
    requires Symmetric(figure) && Linked(figure, p, q)
    ensures Linked(figure, Swap(p), Swap(q))
    ensures Linked(figure, FlipX(p), FlipX(q))
    ensures Linked(figure, FlipY(p), FlipY(q))
  {
    LinkImage(figure, Swap, p, q);
    LinkImage(figure, FlipX, p, q);
    LinkImage(figure, FlipY, p, q);
  }

  lemma {:induction false} OctantIsLinked(r: int, points: seq<Point>, i: nat)
    requires r >= 1 && points == Octant(r, 0, r / 16) && i < |points| && Descends(points)
    ensures points[i] in Offsets(r) && Linked(Offsets(r), points[i], points[0])
  {
    MirroredMembers(points, points[i]);
    assert points[i] in Images(points[i]);
    if i == 0 {
      LinkNeighbours(Offsets(r), points[0], points[0]);
    } else {
      OctantIsLinked(r, points, i - 1);
      LinkNeighbours(Offsets(r), points[i], points[i - 1]);
      LinkThrough(Offsets(r), points[i], points[i - 1], points[0]);
    }
  }

  /** The first octant meets its mirror image on the diagonal. */
  lemma AcrossTheDiagonal(r: int)
    requires r >= 1
    ensures Linked(Offsets(r), (0, r), (r, 0))
  {
    var figure, points := Offsets(r), Octant(r, 0, r / 16);
    StartsOnCourse(r);
    OctantShape(r, r, 0, r / 16);
    var last := points[|points| - 1];
    OctantIsLinked(r, points, |points| - 1);
    OffsetsAreSymmetric(r, last);
    LinkNeighbours(figure, Swap(last), last);
    FigureIsSymmetric(r);
    SymmetricLinks(figure, last, (r, 0));
    LinkBack(figure, Swap(last), (0, r));
    LinkThrough(figure, (0, r), Swap(last), last);
    LinkThrough(figure, (0, r), last, (r, 0));
  }

  /** The four extreme points are linked: across the diagonal, and then by symmetry. */
  lemma ExtremesAreLinked(figure: set<Point>, r: int)
    requires Symmetric(figure) && Linked(figure, (0, r), (r, 0))
    ensures Linked(figure, (-r, 0), (r, 0)) && Linked(figure, (0, -r), (r, 0))
  {
    SymmetricLinks(figure, (0, r), (r, 0));
    LinkBack(figure, (0, r), (-r, 0));
    LinkThrough(figure, (-r, 0), (0, r), (r, 0));
  }

  lemma SwapToStart(figure: set<Point>, r: int, p: Point)
    requires Symmetric(figure) && Linked(figure, (0, r), (r, 0)) && Linked(figure, p, (r, 0))
    ensures Linked(figure, Swap(p), (r, 0))
  {
    SymmetricLinks(figure, p, (r, 0));
    LinkThrough(figure, Swap(p), (0, r), (r, 0));
  }

  lemma FlipToStart(figure: set<Point>, r: int, p: Point)
    requires Symmetric(figure) && Linked(figure, (0, r), (r, 0)) && Linked(figure, p, (r, 0))
    ensures Linked(figure, FlipX(p), (r, 0)) && Linked(figure, FlipY(p), (r, 0))
  {
    SymmetricLinks(figure, p, (r, 0));
    ExtremesAreLinked(figure, r);
    LinkThrough(figure, FlipX(p), (-r, 0), (r, 0));
  }

  predicate IsFlip(p: Point, q: Point) {
    p == q || p == FlipX(q) || p == FlipY(q) || p == FlipY(FlipX(q))
  }

  lemma ImageIsFlip(q: Point, p: Point)
    requires p in Images(q)
    ensures IsFlip(p, q) || IsFlip(p, Swap(q))
  {
  }

  lemma FlipsAreLinked(figure: set<Point>, r: int, q: Point, p: Point)
    requires Symmetric(figure) && Linked(figure, (0, r), (r, 0)) && Linked(figure, q, (r, 0)) && IsFlip(p, q)
    ensures Linked(figure, p, (r, 0))
  {
    FlipToStart(figure, r, q);
    FlipToStart(figure, r, FlipX(q));
  }

  /** The images of a point linked to `(r, 0)` are linked to it too. */
  lemma ImagesAreLinked(figure: set<Point>, r: int, q: Point, p: Point)
    requires Symmetric(figure) && Linked(figure, (0, r), (r, 0)) && Linked(figure, q, (r, 0)) && p in Images(q)
    ensures Linked(figure, p, (r, 0))
  {
    SwapToStart(figure, r, q);
    if IsFlip(p, q) {
      FlipsAreLinked(figure, r, q, p);
    } else {
      ImageIsFlip(q, p);
      FlipsAreLinked(figure, r, Swap(q), p);
    }
  }

  /** The figure is 8-connected. */
  lemma FigureIsConnected(r: int, p: Point, q: Point)
    requires r >= 1 && p in Offsets(r) && q in Offsets(r)
    ensures Linked(Offsets(r), p, q)
  {
    LinkedToStart(r, p);
    LinkedToStart(r, q);
    LinkBack(Offsets(r), q, (r, 0));
    LinkThrough(Offsets(r), p, (r, 0), q);
  }

  lemma LinkedToStart(r: int, p: Point)
    requires r >= 1 && p in Offsets(r)
    ensures Linked(Offsets(r), p, (r, 0))
  {
    var points := Octant(r, 0, r / 16);
    StartsOnCourse(r);
    OctantShape(r, r, 0, r / 16);
    var i := OffsetSource(r, p);
    OctantIsLinked(r, points, i);
    FigureIsSymmetric(r);
    AcrossTheDiagonal(r);
    ImagesAreLinked(Offsets(r), r, points[i], p);
  }

  // ---------- drawing ----------

  function Around(x: int, y: int, offsets: set<Point>): set<Point> {
    set p | p in offsets :: (x + p.0, y + p.1)
  }

  function Painted(pixels: map<Point, Color>, points: set<Point>, c: Color): map<Point, Color> {
    map p | p in pixels.Keys + points :: if p in points then c else pixels[p]
  }

  lemma AroundImages(x: int, y: int, a: int, b: int)
    ensures Around(x, y, Images((a, b))) ==
            {(x + a, y + b), (x + b, y + a), (x - b, y + a), (x - a, y + b)} +
            {(x - a, y - b), (x - b, y - a), (x + b, y - a), (x + a, y - b)}
  {
    var images := Images((a, b));
    assert (a, b) in images && (b, a) in images && (-b, a) in images && (-a, b) in images;
    assert (-a, -b) in images && (-b, -a) in images && (b, -a) in images && (a, -b) in images;
  }

  lemma PaintFour(pixels: map<Point, Color>, p: Point, q: Point, s: Point, t: Point, c: Color)
    ensures pixels[p := c][q := c][s := c][t := c] == Painted(pixels, {p, q, s, t}, c)
  {
  }

  lemma PaintBoth(pixels: map<Point, Color>, first: set<Point>, second: set<Point>, c: Color)
    ensures Painted(Painted(pixels, first, c), second, c) == Painted(pixels, first + second, c)
  {
  }

  /** The points drawn so far and those to come make up the octant. */
  ghost predicate Drawn(goal: seq<Point>, done: seq<Point>, a: int, b: int, t: int) {
    done + Octant(a, b, t) == goal
  }

  lemma DrawnTurn(goal: seq<Point>, done: seq<Point>, a: int, b: int, t: int)
    requires a >= b && Drawn(goal, done, a, b, t)
    ensures var (a', b', t') := Turn(a, b, t);
      Drawn(goal, done + [(a, b)], a', b', t')
  {
    var (a', b', t') := Turn(a, b, t);
    assert done + ([(a, b)] + Octant(a', b', t')) == done + [(a, b)] + Octant(a', b', t');
  }

  /** Below radius 0 the error term does not matter: nothing is drawn. */
  lemma OctantOfRadius(r: int, t: int)
    requires r >= 0 ==> t == r / 16
    ensures Mirrored(Octant(r, 0, t)) == Offsets(r)
  {
  }

  lemma DrawnAll(goal: seq<Point>, done: seq<Point>, a: int, b: int, t: int)
    requires a < b && Drawn(goal, done, a, b, t)
    ensures done == goal
  {
  }

  /** The pixels after the turns at the offsets `done`. */
  ghost function AfterTurns(pixels: map<Point, Color>, x: int, y: int, done: seq<Point>, c: Color): map<Point, Color> {
    if done == [] then pixels
    else
      var last := |done| - 1;
      Painted(AfterTurns(pixels, x, y, done[..last], c), Around(x, y, Images(done[last])), c)
  }

  lemma OneMoreTurn(pixels: map<Point, Color>, x: int, y: int, done: seq<Point>, p: Point, c: Color)
    ensures AfterTurns(pixels, x, y, done + [p], c) ==
            Painted(AfterTurns(pixels, x, y, done, c), Around(x, y, Images(p)), c)
  {
    assert (done + [p])[..|done|] == done;
  }

  lemma {:induction false} TurnsPaintMirrored(pixels: map<Point, Color>, x: int, y: int, done: seq<Point>, c: Color)
    ensures AfterTurns(pixels, x, y, done, c) == Painted(pixels, Around(x, y, Mirrored(done)), c)
  {
    if done != [] {
      var last := |done| - 1;
      TurnsPaintMirrored(pixels, x, y, done[..last], c);
      PaintBoth(pixels, Around(x, y, Mirrored(done[..last])), Around(x, y, Images(done[last])), c);
      assert Around(x, y, Mirrored(done)) ==
             Around(x, y, Mirrored(done[..last])) + Around(x, y, Images(done[last]));
    }
  }

  class Canvas {
    var pixels: map<Point, Color>

    method DrawPixel(x: int, y: int, c: Color)
      modifies this
      ensures pixels == old(pixels)[(x, y) := c]
    {
      pixels := pixels[(x, y) := c];
    }

    method DrawFour(p: Point, q: Point, s: Point, t: Point, c: Color)
      modifies this
      ensures pixels == Painted(old(pixels), {p, q, s, t}, c)
    {
      DrawPixel(p.0, p.1, c);
      DrawPixel(q.0, q.1, c);
      DrawPixel(s.0, s.1, c);
      DrawPixel(t.0, t.1, c);
      PaintFour(old(pixels), p, q, s, t, c);
    }

    /** The eight pixels of one turn of the loop. */
    method DrawImages(x: int, y: int, a: int, b: int, c: Color)
      modifies this
      ensures pixels == Painted(old(pixels), Around(x, y, Images((a, b))), c)
    {
      DrawFour((x + a, y + b), (x + b, y + a), (x - b, y + a), (x - a, y + b), c);
      DrawFour((x - a, y - b), (x - b, y - a), (x + b, y - a), (x + a, y - b), c);
      AroundImages(x, y, a, b);
      PaintBoth(old(pixels), {(x + a, y + b), (x + b, y + a), (x - b, y + a), (x - a, y + b)},
                {(x - a, y - b), (x - b, y - a), (x + b, y - a), (x + a, y - b)}, c);
    }

    /** One turn of the loop, after the turns at the offsets `done`. */
    method DrawTurn(x: int, y: int, a: int, b: int, c: Color, ghost before: map<Point, Color>, ghost done: seq<Point>)
      requires pixels == AfterTurns(before, x, y, done, c)
      modifies this
      ensures pixels == AfterTurns(before, x, y, done + [(a, b)], c)
    {
      DrawImages(x, y, a, b, c);
      OneMoreTurn(before, x, y, done, (a, b), c);
    }

    /** Paints the offsets of radius `r` around `(x, y)` and nothing else. */
    method DrawCircle(x: int, y: int, r: int, c: Color)
      modifies this
      ensures pixels == Painted(old(pixels), Around(x, y, Offsets(r)), c)
    {
      var t1 := if r >= 0 then r / 16 else -(-r / 16);
      var xCord, yCord := r, 0;
      ghost var done: seq<Point>, start, goal := [], t1, Octant(r, 0, t1);
      while xCord >= yCord
        invariant Drawn(goal, done, xCord, yCord, t1)
        invariant pixels == AfterTurns(old(pixels), x, y, done, c)
        decreases xCord - yCord
      {
        DrawTurn(x, y, xCord, yCord, c, old(pixels), done);
        DrawnTurn(goal, done, xCord, yCord, t1);
        done := done + [(xCord, yCord)];

        yCord := yCord + 1;
        t1 := t1 + yCord;
        var t2 := t1 - xCord;
        if t2 >= 0 {
          t1 := t2;
          xCord := xCord - 1;
        }
      }
      DrawnAll(goal, done, xCord, yCord, t1);
      OctantOfRadius(r, start);
      TurnsPaintMirrored(old(pixels), x, y, done, c);
    }
  }
}
