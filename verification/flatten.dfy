/**
 * `FlatteningPathIterator` as `Path2D.getPathIterator(null, 0.01)` builds
 * it, the only way the geometry kernel iterates a path: moves, lines and
 * closes pass through, and every quad or cubic becomes the line-tos to the
 * end points of the pieces that recursive midpoint subdivision leaves, depth
 * first, stopping at a piece whose control points lie within the flatness of
 * its chord or at the tenth level.
 */
module Flattening {
  import opened Geom2D
  import opened Paths

  /** The square of the flatness 0.01 every caller passes. */
  const SquareFlat: real := 0.0001

  /** The subdivision limit of the two-argument constructor. */
  const Limit: nat := 10

  /** A path with only moves, lines and closes. */
  predicate Flat(segs: seq<Seg>) {
    forall i :: 0 <= i < |segs| ==> !segs[i].SegQuad? && !segs[i].SegCubic?
  }

  function Mid(a: Point, b: Point): Point {
    Point((a.x + b.x) / 2.0, (a.y + b.y) / 2.0)
  }

  function Pow2(n: nat): (r: nat)
    ensures r >= 1
  {
    if n == 0 then 1 else 2 * Pow2(n - 1)
  }

  // ---------------------------------------------------------------------------
  // The curves themselves

  /** One coordinate of the quadratic Bézier curve at parameter `t`. */
  function Quad1(a: real, c: real, b: real, t: real): real {
    (1.0 - t) * (1.0 - t) * a + 2.0 * t * (1.0 - t) * c + t * t * b
  }

  /** The point of the quadratic curve from `p0` through control `c` to `p1` at parameter `t`. */
  function QuadPoint(p0: Point, c: Point, p1: Point, t: real): Point {
    Point(Quad1(p0.x, c.x, p1.x, t), Quad1(p0.y, c.y, p1.y, t))
  }

  /** One coordinate of the cubic Bézier curve at parameter `t`. */
  function Cubic1(a: real, c1: real, c2: real, b: real, t: real): real {
    var s := 1.0 - t;
    s * s * s * a + 3.0 * t * s * s * c1 + 3.0 * t * t * s * c2 + t * t * t * b
  }

  /** The point of the cubic curve from `p0` through controls `c1`, `c2` to `p1` at parameter `t`. */
  function CubicPoint(p0: Point, c1: Point, c2: Point, p1: Point, t: real): Point {
    Point(Cubic1(p0.x, c1.x, c2.x, p1.x, t), Cubic1(p0.y, c1.y, c2.y, p1.y, t))
  }

  // ---------------------------------------------------------------------------
  // Subdivision (QuadCurve2D / CubicCurve2D)

  /** `QuadCurve2D.getFlatnessSq`: squared distance of the control point from the chord. */
  function QuadFlatnessSq(p0: Point, c: Point, p1: Point): real {
    PtSegDistSq(Line(p0, p1), c)
  }

  /** `CubicCurve2D.getFlatnessSq`: the larger squared distance of the two control points from the chord. */
  function CubicFlatnessSq(p0: Point, c1: Point, c2: Point, p1: Point): real {
    Max(PtSegDistSq(Line(p0, p1), c1), PtSegDistSq(Line(p0, p1), c2))
  }

  /** A test that stops the subdivision of a quad, and one for a cubic. */
  type QuadStop = (Point, Point, Point) -> bool
  type CubicStop = (Point, Point, Point, Point) -> bool

  /**
   * The end points of the pieces a quad with `depth` levels of subdivision left
   * flattens to, in order: one piece when `stop` holds or at the limit,
   * otherwise the left half's points then the right half's
   * (`QuadCurve2D.subdivide`).
   */
  function SubdivideQuad(stop: QuadStop, p0: Point, c: Point, p1: Point, depth: nat): (r: seq<Point>)
    ensures 1 <= |r|
    ensures r[|r| - 1] == p1
    decreases depth
  {
    if depth == 0 || stop(p0, c, p1) then [p1]
    else
      var l := Mid(p0, c);
      var r := Mid(c, p1);
      var m := Mid(l, r);
      SubdivideQuad(stop, p0, l, m, depth - 1) + SubdivideQuad(stop, m, r, p1, depth - 1)
  }

  /** The same for a cubic (`CubicCurve2D.subdivide`, de Casteljau at one half). */
  function SubdivideCubic(stop: CubicStop, p0: Point, c1: Point, c2: Point, p1: Point, depth: nat): (r: seq<Point>)
    ensures 1 <= |r|
    ensures r[|r| - 1] == p1
    decreases depth
  {
    if depth == 0 || stop(p0, c1, c2, p1) then [p1]
    else
      var l1 := Mid(p0, c1);
      var r2 := Mid(c2, p1);
      var center := Mid(c1, c2);
      var l2 := Mid(l1, center);
      var r1 := Mid(center, r2);
      var m := Mid(l2, r1);
      SubdivideCubic(stop, p0, l1, l2, m, depth - 1) + SubdivideCubic(stop, m, r1, r2, p1, depth - 1)
  }

  /** The iterator's test: the piece is within the flatness of its chord. */
  predicate QuadIsFlat(p0: Point, c: Point, p1: Point) {
    QuadFlatnessSq(p0, c, p1) < SquareFlat
  }

  predicate CubicIsFlat(p0: Point, c1: Point, c2: Point, p1: Point) {
    CubicFlatnessSq(p0, c1, c2, p1) < SquareFlat
  }

  /** The end points of the line-tos a quad from `p0` becomes, the last one `p1`. */
  function FlattenQuad(p0: Point, c: Point, p1: Point): (r: seq<Point>)
    ensures 1 <= |r| && r[|r| - 1] == p1
  {
    SubdivideQuad(QuadIsFlat, p0, c, p1, Limit)
  }

  /** The same for a cubic. */
  function FlattenCubic(p0: Point, c1: Point, c2: Point, p1: Point): (r: seq<Point>)
    ensures 1 <= |r| && r[|r| - 1] == p1
  {
    SubdivideCubic(CubicIsFlat, p0, c1, c2, p1, Limit)
  }

  /** The subdivision limit bounds a curve's pieces: at most 2¹⁰ line-tos. */
  lemma FlattenBound(p0: Point, c1: Point, c2: Point, p1: Point)
    ensures |FlattenQuad(p0, c1, p1)| <= 1024
    ensures |FlattenCubic(p0, c1, c2, p1)| <= 1024
  {
    QuadPieces(QuadIsFlat, p0, c1, p1, Limit);
    CubicPieces(CubicIsFlat, p0, c1, c2, p1, Limit);
    Pow2Limit();
  }

  /** Each level of subdivision at most doubles the pieces. */
  lemma {:induction false} QuadPieces(stop: QuadStop, p0: Point, c: Point, p1: Point, depth: nat)
    ensures |SubdivideQuad(stop, p0, c, p1, depth)| <= Pow2(depth)
    decreases depth
  {
    QuadUnfold(stop, p0, c, p1, depth);
    var l := Mid(p0, c);
    var m := Mid(l, Mid(c, p1));
    if SubdivideQuad(stop, p0, c, p1, depth) != [p1] {
      var left := SubdivideQuad(stop, p0, l, m, depth - 1);
      var right := SubdivideQuad(stop, m, Mid(c, p1), p1, depth - 1);
      QuadPieces(stop, p0, l, m, depth - 1);
      QuadPieces(stop, m, Mid(c, p1), p1, depth - 1);
      var n := depth - 1;
      assert Pow2(n + 1) == 2 * Pow2(n);
      assert |left + right| == |left| + |right|;
    }
  }

  lemma {:induction false} CubicPieces(stop: CubicStop, p0: Point, c1: Point, c2: Point, p1: Point, depth: nat)
    ensures |SubdivideCubic(stop, p0, c1, c2, p1, depth)| <= Pow2(depth)
    decreases depth
  {
    CubicUnfold(stop, p0, c1, c2, p1, depth);
    var l1 := Mid(p0, c1);
    var r2 := Mid(c2, p1);
    var center := Mid(c1, c2);
    var l2 := Mid(l1, center);
    var r1 := Mid(center, r2);
    var m := Mid(l2, r1);
    if SubdivideCubic(stop, p0, c1, c2, p1, depth) != [p1] {
      var left := SubdivideCubic(stop, p0, l1, l2, m, depth - 1);
      var right := SubdivideCubic(stop, m, r1, r2, p1, depth - 1);
      CubicPieces(stop, p0, l1, l2, m, depth - 1);
      CubicPieces(stop, m, r1, r2, p1, depth - 1);
      var n := depth - 1;
      assert Pow2(n + 1) == 2 * Pow2(n);
      assert |left + right| == |left| + |right|;
    }
  }

  lemma Pow2Limit()
    ensures Pow2(Limit) == 1024
  {
    assert Pow2(2) == 4;
    assert Pow2(5) == 32;
    assert Pow2(8) == 256;
  }

  /** A curve whose control points already lie within the flatness of its chord becomes that chord. */
  lemma FlatCurveIsChord(p0: Point, c1: Point, c2: Point, p1: Point)
    ensures QuadFlatnessSq(p0, c1, p1) < SquareFlat ==> FlattenQuad(p0, c1, p1) == [p1]
    ensures CubicFlatnessSq(p0, c1, c2, p1) < SquareFlat ==> FlattenCubic(p0, c1, c2, p1) == [p1]
  {
  }

  /** A quad coordinate in power form. */
  lemma QuadPower(a: real, c: real, b: real, t: real)
    ensures Quad1(a, c, b, t) == a + 2.0 * t * (c - a) + t * t * (a - 2.0 * c + b)
  {
  }

  /** The left half of a quad is the curve over [0, 1/2], the right half the curve over [1/2, 1]. */
  lemma QuadHalves(a: real, c: real, b: real, t: real)
    ensures var l := (a + c) / 2.0;
            var r := (c + b) / 2.0;
            var m := (l + r) / 2.0;
            && Quad1(a, l, m, t) == Quad1(a, c, b, t / 2.0)
            && Quad1(m, r, b, t) == Quad1(a, c, b, (1.0 + t) / 2.0)
  {
    var l := (a + c) / 2.0;
    var r := (c + b) / 2.0;
    var m := (l + r) / 2.0;
    QuadHalf(a, c, b, t);
    QuadHalf(b, c, a, 1.0 - t);
    QuadReverse(a, c, b, (1.0 + t) / 2.0);
    QuadReverse(m, r, b, t);
    assert 1.0 - (1.0 + t) / 2.0 == (1.0 - t) / 2.0;
  }

  /** The left half of a quad, by power form. */
  lemma QuadHalf(a: real, c: real, b: real, t: real)
    ensures var l := (a + c) / 2.0;
            var m := (l + (c + b) / 2.0) / 2.0;
            Quad1(a, l, m, t) == Quad1(a, c, b, t / 2.0)
  {
    var l := (a + c) / 2.0;
    var m := (l + (c + b) / 2.0) / 2.0;
    var u := t / 2.0;
    var k1 := c - a;
    var k2 := a - 2.0 * c + b;
    QuadPower(a, l, m, t);
    QuadPower(a, c, b, u);
    assert l - a == k1 / 2.0;
    assert a - 2.0 * l + m == k2 / 4.0;
    assert 2.0 * t * (k1 / 2.0) == 2.0 * u * k1;
    assert t * t * (k2 / 4.0) == u * u * k2;
  }

  /** A quad read backwards is the same curve. */
  lemma QuadReverse(a: real, c: real, b: real, t: real)
    ensures Quad1(a, c, b, t) == Quad1(b, c, a, 1.0 - t)
  {
    assert 1.0 - (1.0 - t) == t;
  }

  /** A cubic coordinate in power form. */
  lemma CubicPower(a: real, c1: real, c2: real, b: real, t: real)
    ensures Cubic1(a, c1, c2, b, t)
            == a + 3.0 * t * (c1 - a) + 3.0 * (t * t) * (a - 2.0 * c1 + c2) + (t * t * t) * (b - 3.0 * c2 + 3.0 * c1 - a)
  {
    var s := 1.0 - t;
    assert s * s == 1.0 - 2.0 * t + t * t;
    assert s * s * s == 1.0 - 3.0 * t + 3.0 * (t * t) - t * t * t;
  }

  /** The left half of a cubic, by power form. */
  lemma CubicHalf(a: real, c1: real, c2: real, b: real, t: real)
    ensures var l1 := (a + c1) / 2.0;
            var center := (c1 + c2) / 2.0;
            var l2 := (l1 + center) / 2.0;
            var r1 := (center + (c2 + b) / 2.0) / 2.0;
            var m := (l2 + r1) / 2.0;
            Cubic1(a, l1, l2, m, t) == Cubic1(a, c1, c2, b, t / 2.0)
  {
    var l1 := (a + c1) / 2.0;
    var center := (c1 + c2) / 2.0;
    var l2 := (l1 + center) / 2.0;
    var r1 := (center + (c2 + b) / 2.0) / 2.0;
    var m := (l2 + r1) / 2.0;
    var u := t / 2.0;
    var k1 := c1 - a;
    var k2 := a - 2.0 * c1 + c2;
    var k3 := b - 3.0 * c2 + 3.0 * c1 - a;
    CubicPower(a, l1, l2, m, t);
    CubicPower(a, c1, c2, b, u);
    assert l1 - a == k1 / 2.0;
    assert a - 2.0 * l1 + l2 == k2 / 4.0;
    assert m - 3.0 * l2 + 3.0 * l1 - a == k3 / 8.0;
    assert 3.0 * t * (k1 / 2.0) == 3.0 * u * k1;
    assert 3.0 * (t * t) * (k2 / 4.0) == 3.0 * (u * u) * k2;
    assert (t * t * t) * (k3 / 8.0) == (u * u * u) * k3;
  }

  /** A cubic read backwards is the same curve. */
  lemma CubicReverse(a: real, c1: real, c2: real, b: real, t: real)
    ensures Cubic1(a, c1, c2, b, t) == Cubic1(b, c2, c1, a, 1.0 - t)
  {
    assert 1.0 - (1.0 - t) == t;
  }

  /** The left half of a cubic is the curve over [0, 1/2], the right half the curve over [1/2, 1]. */
  lemma CubicHalves(a: real, c1: real, c2: real, b: real, t: real)
    ensures var l1 := (a + c1) / 2.0;
            var r2 := (c2 + b) / 2.0;
            var center := (c1 + c2) / 2.0;
            var l2 := (l1 + center) / 2.0;
            var r1 := (center + r2) / 2.0;
            var m := (l2 + r1) / 2.0;
            && Cubic1(a, l1, l2, m, t) == Cubic1(a, c1, c2, b, t / 2.0)
            && Cubic1(m, r1, r2, b, t) == Cubic1(a, c1, c2, b, (1.0 + t) / 2.0)
  {
    var l1 := (a + c1) / 2.0;
    var r2 := (c2 + b) / 2.0;
    var center := (c1 + c2) / 2.0;
    var l2 := (l1 + center) / 2.0;
    var r1 := (center + r2) / 2.0;
    var m := (l2 + r1) / 2.0;
    CubicHalf(a, c1, c2, b, t);
    CubicHalf(b, c2, c1, a, 1.0 - t);
    assert (c2 + c1) / 2.0 == center && (r2 + center) / 2.0 == r1 && (center + l1) / 2.0 == l2;
    assert (r1 + l2) / 2.0 == m;
    CubicReverse(a, c1, c2, b, (1.0 + t) / 2.0);
    CubicReverse(m, r1, r2, b, t);
    assert 1.0 - (1.0 + t) / 2.0 == (1.0 - t) / 2.0;
  }

  /** `QuadHalves` for points, on the halves `SubdivideQuad` makes. */
  lemma QuadPointHalves(p0: Point, c: Point, p1: Point, t: real)
    ensures var l := Mid(p0, c);
            var r := Mid(c, p1);
            var m := Mid(l, r);
            && QuadPoint(p0, l, m, t) == QuadPoint(p0, c, p1, t / 2.0)
            && QuadPoint(m, r, p1, t) == QuadPoint(p0, c, p1, (1.0 + t) / 2.0)
  {
    QuadHalves(p0.x, c.x, p1.x, t);
    QuadHalves(p0.y, c.y, p1.y, t);
  }

  /** `CubicHalves` for points, on the halves `SubdivideCubic` makes. */
  lemma CubicPointHalves(p0: Point, c1: Point, c2: Point, p1: Point, t: real)
    ensures var l1 := Mid(p0, c1);
            var r2 := Mid(c2, p1);
            var center := Mid(c1, c2);
            var l2 := Mid(l1, center);
            var r1 := Mid(center, r2);
            var m := Mid(l2, r1);
            && CubicPoint(p0, l1, l2, m, t) == CubicPoint(p0, c1, c2, p1, t / 2.0)
            && CubicPoint(m, r1, r2, p1, t) == CubicPoint(p0, c1, c2, p1, (1.0 + t) / 2.0)
  {
    CubicHalves(p0.x, c1.x, c2.x, p1.x, t);
    CubicHalves(p0.y, c1.y, c2.y, p1.y, t);
  }

  /** A quad flattens to its end point alone, or to its two halves' points. */
  lemma QuadUnfold(stop: QuadStop, p0: Point, c: Point, p1: Point, depth: nat)
    ensures var l := Mid(p0, c);
            var m := Mid(l, Mid(c, p1));
            || SubdivideQuad(stop, p0, c, p1, depth) == [p1]
            || (depth > 0 && SubdivideQuad(stop, p0, c, p1, depth) == SubdivideQuad(stop, p0, l, m, depth - 1) + SubdivideQuad(stop, m, Mid(c, p1), p1, depth - 1))
  {
  }

  /** A cubic flattens to its end point alone, or to its two halves' points. */
  lemma CubicUnfold(stop: CubicStop, p0: Point, c1: Point, c2: Point, p1: Point, depth: nat)
    ensures var l1 := Mid(p0, c1);
            var r2 := Mid(c2, p1);
            var center := Mid(c1, c2);
            var l2 := Mid(l1, center);
            var r1 := Mid(center, r2);
            var m := Mid(l2, r1);
            || SubdivideCubic(stop, p0, c1, c2, p1, depth) == [p1]
            || (depth > 0 && SubdivideCubic(stop, p0, c1, c2, p1, depth) == SubdivideCubic(stop, p0, l1, l2, m, depth - 1) + SubdivideCubic(stop, m, r1, r2, p1, depth - 1))
  {
  }

  /** Every point a quad flattens to lies on the curve, at a parameter in (0, 1]. */
  lemma FlattenQuadOnCurve(p0: Point, c: Point, p1: Point, i: nat)
    requires i < |FlattenQuad(p0, c, p1)|
    ensures exists t :: 0.0 < t <= 1.0 && FlattenQuad(p0, c, p1)[i] == QuadPoint(p0, c, p1, t)
  {
    var t := QuadParameter(QuadIsFlat, p0, c, p1, Limit, i);
  }

  /** The parameter at which the `i`-th point a quad flattens to lies on it. */
  lemma {:induction false} QuadParameter(stop: QuadStop, p0: Point, c: Point, p1: Point, depth: nat, i: nat) returns (t: real)
    requires i < |SubdivideQuad(stop, p0, c, p1, depth)|
    ensures 0.0 < t <= 1.0 && SubdivideQuad(stop, p0, c, p1, depth)[i] == QuadPoint(p0, c, p1, t)
    decreases depth, 2
  {
    var r := SubdivideQuad(stop, p0, c, p1, depth);
    QuadUnfold(stop, p0, c, p1, depth);
    if r == [p1] {
      assert r[i] == p1;
      QuadAtOne(p0, c, p1);
      t := 1.0;
    } else {
      t := QuadHalfParameter(stop, p0, c, p1, depth, i);
    }
  }

  /** `QuadParameter` when the quad is split: the parameter within the half, scaled to the whole. */
  lemma {:induction false} QuadHalfParameter(stop: QuadStop, p0: Point, c: Point, p1: Point, depth: nat, i: nat) returns (t: real)
    requires depth > 0 && i < |SubdivideQuad(stop, p0, c, p1, depth)|
    requires var m := Mid(Mid(p0, c), Mid(c, p1));
             SubdivideQuad(stop, p0, c, p1, depth) == SubdivideQuad(stop, p0, Mid(p0, c), m, depth - 1) + SubdivideQuad(stop, m, Mid(c, p1), p1, depth - 1)
    ensures 0.0 < t <= 1.0 && SubdivideQuad(stop, p0, c, p1, depth)[i] == QuadPoint(p0, c, p1, t)
    decreases depth, 1
  {
    var m := Mid(Mid(p0, c), Mid(c, p1));
    var left := SubdivideQuad(stop, p0, Mid(p0, c), m, depth - 1);
    var right := SubdivideQuad(stop, m, Mid(c, p1), p1, depth - 1);
    ConcatIndex(left, right, i);
    if i < |left| {
      t := QuadLeftParameter(stop, p0, c, p1, depth, i);
    } else {
      t := QuadRightParameter(stop, p0, c, p1, depth, i - |left|);
    }
  }

  lemma {:induction false} QuadLeftParameter(stop: QuadStop, p0: Point, c: Point, p1: Point, depth: nat, i: nat) returns (t: real)
    requires depth > 0
    requires i < |SubdivideQuad(stop, p0, Mid(p0, c), Mid(Mid(p0, c), Mid(c, p1)), depth - 1)|
    ensures 0.0 < t <= 1.0
    ensures SubdivideQuad(stop, p0, Mid(p0, c), Mid(Mid(p0, c), Mid(c, p1)), depth - 1)[i] == QuadPoint(p0, c, p1, t)
    decreases depth, 0
  {
    var u := QuadParameter(stop, p0, Mid(p0, c), Mid(Mid(p0, c), Mid(c, p1)), depth - 1, i);
    QuadPointHalves(p0, c, p1, u);
    t := u / 2.0;
  }

  lemma {:induction false} QuadRightParameter(stop: QuadStop, p0: Point, c: Point, p1: Point, depth: nat, i: nat) returns (t: real)
    requires depth > 0
    requires i < |SubdivideQuad(stop, Mid(Mid(p0, c), Mid(c, p1)), Mid(c, p1), p1, depth - 1)|
    ensures 0.0 < t <= 1.0
    ensures SubdivideQuad(stop, Mid(Mid(p0, c), Mid(c, p1)), Mid(c, p1), p1, depth - 1)[i] == QuadPoint(p0, c, p1, t)
    decreases depth, 0
  {
    var u := QuadParameter(stop, Mid(Mid(p0, c), Mid(c, p1)), Mid(c, p1), p1, depth - 1, i);
    QuadPointHalves(p0, c, p1, u);
    t := (1.0 + u) / 2.0;
  }

  /** Indexing into a concatenation. */
  lemma ConcatIndex<T>(a: seq<T>, b: seq<T>, i: nat)
    requires i < |a| + |b|
    ensures i < |a| ==> (a + b)[i] == a[i]
    ensures i >= |a| ==> (a + b)[i] == b[i - |a|]
  {
  }

  lemma QuadAtOne(p0: Point, c: Point, p1: Point)
    ensures QuadPoint(p0, c, p1, 1.0) == p1
  {
  }

  /** Every point a cubic flattens to lies on the curve, at a parameter in (0, 1]. */
  lemma FlattenCubicOnCurve(p0: Point, c1: Point, c2: Point, p1: Point, i: nat)
    requires i < |FlattenCubic(p0, c1, c2, p1)|
    ensures exists t :: 0.0 < t <= 1.0 && FlattenCubic(p0, c1, c2, p1)[i] == CubicPoint(p0, c1, c2, p1, t)
  {
    var t := CubicParameter(CubicIsFlat, p0, c1, c2, p1, Limit, i);
  }

  /** The parameter at which the `i`-th point a cubic flattens to lies on it. */
  lemma {:induction false} CubicParameter(stop: CubicStop, p0: Point, c1: Point, c2: Point, p1: Point, depth: nat, i: nat) returns (t: real)
    requires i < |SubdivideCubic(stop, p0, c1, c2, p1, depth)|
    ensures 0.0 < t <= 1.0 && SubdivideCubic(stop, p0, c1, c2, p1, depth)[i] == CubicPoint(p0, c1, c2, p1, t)
    decreases depth, 2
  {
    var r := SubdivideCubic(stop, p0, c1, c2, p1, depth);
    CubicUnfold(stop, p0, c1, c2, p1, depth);
    if r == [p1] {
      assert r[i] == p1;
      CubicAtOne(p0, c1, c2, p1);
      t := 1.0;
    } else {
      t := CubicHalfParameter(stop, p0, c1, c2, p1, depth, i);
    }
  }

  /** `CubicParameter` when the cubic is split: the parameter within the half, scaled to the whole. */
  lemma {:induction false} CubicHalfParameter(stop: CubicStop, p0: Point, c1: Point, c2: Point, p1: Point, depth: nat, i: nat) returns (t: real)
    requires depth > 0 && i < |SubdivideCubic(stop, p0, c1, c2, p1, depth)|
    requires var l1 := Mid(p0, c1);
             var r2 := Mid(c2, p1);
             var center := Mid(c1, c2);
             var l2 := Mid(l1, center);
             var r1 := Mid(center, r2);
             var m := Mid(l2, r1);
             SubdivideCubic(stop, p0, c1, c2, p1, depth) == SubdivideCubic(stop, p0, l1, l2, m, depth - 1) + SubdivideCubic(stop, m, r1, r2, p1, depth - 1)
    ensures 0.0 < t <= 1.0 && SubdivideCubic(stop, p0, c1, c2, p1, depth)[i] == CubicPoint(p0, c1, c2, p1, t)
    decreases depth, 1
  {
    var l1 := Mid(p0, c1);
    var r2 := Mid(c2, p1);
    var center := Mid(c1, c2);
    var l2 := Mid(l1, center);
    var r1 := Mid(center, r2);
    var m := Mid(l2, r1);
    var left := SubdivideCubic(stop, p0, l1, l2, m, depth - 1);
    var right := SubdivideCubic(stop, m, r1, r2, p1, depth - 1);
    ConcatIndex(left, right, i);
    if i < |left| {
      t := CubicLeftParameter(stop, p0, c1, c2, p1, depth, i);
    } else {
      t := CubicRightParameter(stop, p0, c1, c2, p1, depth, i - |left|);
    }
  }

  lemma {:induction false} CubicLeftParameter(stop: CubicStop, p0: Point, c1: Point, c2: Point, p1: Point, depth: nat, i: nat) returns (t: real)
    requires depth > 0
    requires var l1 := Mid(p0, c1);
             var l2 := Mid(l1, Mid(c1, c2));
             var m := Mid(l2, Mid(Mid(c1, c2), Mid(c2, p1)));
             i < |SubdivideCubic(stop, p0, l1, l2, m, depth - 1)|
    ensures 0.0 < t <= 1.0
    ensures var l1 := Mid(p0, c1);
            var l2 := Mid(l1, Mid(c1, c2));
            var m := Mid(l2, Mid(Mid(c1, c2), Mid(c2, p1)));
            SubdivideCubic(stop, p0, l1, l2, m, depth - 1)[i] == CubicPoint(p0, c1, c2, p1, t)
    decreases depth, 0
  {
    var l1 := Mid(p0, c1);
    var l2 := Mid(l1, Mid(c1, c2));
    var m := Mid(l2, Mid(Mid(c1, c2), Mid(c2, p1)));
    var u := CubicParameter(stop, p0, l1, l2, m, depth - 1, i);
    CubicLeftHalf(p0, c1, c2, p1, u);
    t := u / 2.0;
  }

  lemma {:induction false} CubicRightParameter(stop: CubicStop, p0: Point, c1: Point, c2: Point, p1: Point, depth: nat, i: nat) returns (t: real)
    requires depth > 0
    requires var r2 := Mid(c2, p1);
             var r1 := Mid(Mid(c1, c2), r2);
             var m := Mid(Mid(Mid(p0, c1), Mid(c1, c2)), r1);
             i < |SubdivideCubic(stop, m, r1, r2, p1, depth - 1)|
    ensures 0.0 < t <= 1.0
    ensures var r2 := Mid(c2, p1);
            var r1 := Mid(Mid(c1, c2), r2);
            var m := Mid(Mid(Mid(p0, c1), Mid(c1, c2)), r1);
            SubdivideCubic(stop, m, r1, r2, p1, depth - 1)[i] == CubicPoint(p0, c1, c2, p1, t)
    decreases depth, 0
  {
    var r2 := Mid(c2, p1);
    var r1 := Mid(Mid(c1, c2), r2);
    var m := Mid(Mid(Mid(p0, c1), Mid(c1, c2)), r1);
    var u := CubicParameter(stop, m, r1, r2, p1, depth - 1, i);
    CubicRightHalf(p0, c1, c2, p1, u);
    t := (1.0 + u) / 2.0;
  }

  lemma CubicLeftHalf(p0: Point, c1: Point, c2: Point, p1: Point, t: real)
    ensures var l1 := Mid(p0, c1);
            var l2 := Mid(l1, Mid(c1, c2));
            var m := Mid(l2, Mid(Mid(c1, c2), Mid(c2, p1)));
            CubicPoint(p0, l1, l2, m, t) == CubicPoint(p0, c1, c2, p1, t / 2.0)
  {
    CubicPointHalves(p0, c1, c2, p1, t);
  }

  lemma CubicRightHalf(p0: Point, c1: Point, c2: Point, p1: Point, t: real)
    ensures var r2 := Mid(c2, p1);
            var r1 := Mid(Mid(c1, c2), r2);
            var m := Mid(Mid(Mid(p0, c1), Mid(c1, c2)), r1);
            CubicPoint(m, r1, r2, p1, t) == CubicPoint(p0, c1, c2, p1, (1.0 + t) / 2.0)
  {
    CubicPointHalves(p0, c1, c2, p1, t);
  }

  lemma CubicAtOne(p0: Point, c1: Point, c2: Point, p1: Point)
    ensures CubicPoint(p0, c1, c2, p1, 1.0) == p1
  {
  }

  // ---------------------------------------------------------------------------
  // The iterator over a whole path

  /** A line-to for each point. */
  function LinesTo(pts: seq<Point>): (r: seq<Seg>)
    ensures |r| == |pts|
    ensures forall i :: 0 <= i < |r| ==> r[i] == SegLine(pts[i])
  {
    if pts == [] then [] else [SegLine(pts[0])] + LinesTo(pts[1..])
  }

  /** What one segment flattens to when the current point is `cur`. */
  function FlattenSeg(cur: Point, s: Seg): (r: seq<Seg>)
    ensures |r| >= 1 && Flat(r)
    ensures !s.SegQuad? && !s.SegCubic? ==> r == [s]
    ensures s.SegQuad? || s.SegCubic? ==> (forall i :: 0 <= i < |r| ==> r[i].SegLine?) && r[|r| - 1].p == s.p
  {
    match s
    case SegQuad(c, p) => LinesTo(FlattenQuad(cur, c, p))
    case SegCubic(c1, c2, p) => LinesTo(FlattenCubic(cur, c1, c2, p))
    case _ => [s]
  }

  /** The current point after `s`: its end point, or the subpath's start `mov` after a close. */
  function NextCur(mov: Point, s: Seg): Point {
    if s.SegClose? then mov else s.p
  }

  function NextMov(mov: Point, s: Seg): Point {
    if s.SegMove? then s.p else mov
  }

  /** The flattened segments of `segs`, with current point `cur` and subpath start `mov`. */
  function FlattenFrom(cur: Point, mov: Point, segs: seq<Seg>): (r: seq<Seg>)
    ensures Flat(r) && |r| >= |segs|
    decreases |segs|, 1
  {
    if segs == [] then [] else FlattenNext(cur, mov, segs)
  }

  /** The iterator's `next` over a path that is not done: the first segment's pieces, then the rest. */
  function FlattenNext(cur: Point, mov: Point, segs: seq<Seg>): (r: seq<Seg>)
    requires segs != []
    ensures Flat(r) && |r| >= |segs|
    decreases |segs|, 0
  {
    var head := FlattenSeg(cur, segs[0]);
    var rest := FlattenFrom(NextCur(mov, segs[0]), NextMov(mov, segs[0]), segs[1..]);
    FlatAppend(head, rest);
    head + rest
  }

  lemma FlatAppend(a: seq<Seg>, b: seq<Seg>)
    requires Flat(a) && Flat(b)
    ensures Flat(a + b)
  {
    forall i | 0 <= i < |a + b| ensures !(a + b)[i].SegQuad? && !(a + b)[i].SegCubic? {
      if i >= |a| {
        assert (a + b)[i] == b[i - |a|];
      }
    }
  }

  /** `getPathIterator(null, 0.01)` over the whole path; its coordinates start at the origin. */
  function Flattened(segs: seq<Seg>): (r: seq<Seg>)
    ensures Flat(r)
  {
    FlattenFrom(Origin, Origin, segs)
  }

  /** A path without curves flattens to itself, so flattening twice changes nothing. */
  lemma {:induction false} FlatUnchanged(cur: Point, mov: Point, segs: seq<Seg>)
    requires Flat(segs)
    ensures FlattenFrom(cur, mov, segs) == segs
    decreases |segs|
  {
    if segs != [] {
      assert Flat(segs[1..]) by {
        forall i | 0 <= i < |segs[1..]| ensures !segs[1..][i].SegQuad? && !segs[1..][i].SegCubic? {
          assert segs[1..][i] == segs[i + 1];
        }
      }
      assert !segs[0].SegQuad? && !segs[0].SegCubic?;
      FlatUnchanged(NextCur(mov, segs[0]), NextMov(mov, segs[0]), segs[1..]);
      assert FlattenFrom(cur, mov, segs) == FlattenNext(cur, mov, segs);
      assert segs == [segs[0]] + segs[1..];
    }
  }

  lemma FlattenedIdempotent(segs: seq<Seg>)
    ensures Flattened(Flattened(segs)) == Flattened(segs)
  {
    FlatUnchanged(Origin, Origin, Flattened(segs));
  }

  /**
   * Flattening keeps the shape the builder guarantees: it starts with a move
   * and never puts two moves or two closes next to each other.
   */
  lemma {:induction false} FlattenKeepsWellFormed(cur: Point, mov: Point, segs: seq<Seg>)
    requires WellFormedSegs(segs)
    ensures WellFormedSegs(FlattenFrom(cur, mov, segs))
    decreases |segs|
  {
    if segs != [] {
      NoDoublesFrom(cur, mov, segs);
    }
  }

  /** The kind-pairs condition of `WellFormedSegs`, without the leading move. */
  predicate NoDoubles(segs: seq<Seg>) {
    && (forall i :: 0 <= i < |segs| - 1 ==> !(segs[i].SegMove? && segs[i + 1].SegMove?))
    && (forall i :: 0 <= i < |segs| - 1 ==> !(segs[i].SegClose? && segs[i + 1].SegClose?))
  }

  /** The flattened path keeps the pair condition, and starts with a move or close exactly when `segs` does. */
  lemma {:induction false} NoDoublesFrom(cur: Point, mov: Point, segs: seq<Seg>)
    requires NoDoubles(segs) && segs != []
    ensures var r := FlattenFrom(cur, mov, segs);
            && NoDoubles(r) && r != []
            && (r[0].SegMove? <==> segs[0].SegMove?) && (r[0].SegClose? <==> segs[0].SegClose?)
    decreases |segs|
  {
    var head := FlattenSeg(cur, segs[0]);
    var r := FlattenFrom(cur, mov, segs);
    assert r == FlattenNext(cur, mov, segs);
    assert r == head + FlattenFrom(NextCur(mov, segs[0]), NextMov(mov, segs[0]), segs[1..]);
    if |segs| == 1 {
      assert r == head;
    } else {
      var rest := FlattenFrom(NextCur(mov, segs[0]), NextMov(mov, segs[0]), segs[1..]);
      assert NoDoubles(segs[1..]) by {
        forall i | 0 <= i < |segs[1..]| - 1 ensures !(segs[1..][i].SegMove? && segs[1..][i + 1].SegMove?) {
          assert segs[1..][i] == segs[i + 1] && segs[1..][i + 1] == segs[i + 2];
        }
        forall i | 0 <= i < |segs[1..]| - 1 ensures !(segs[1..][i].SegClose? && segs[1..][i + 1].SegClose?) {
          assert segs[1..][i] == segs[i + 1] && segs[1..][i + 1] == segs[i + 2];
        }
      }
      NoDoublesFrom(NextCur(mov, segs[0]), NextMov(mov, segs[0]), segs[1..]);
      assert segs[1..][0] == segs[1];
      JoinNoDoubles(segs[0], segs[1], head, rest);
    }
  }

  /** Two flattened blocks join without a double when their source segments did. */
  lemma JoinNoDoubles(s0: Seg, s1: Seg, head: seq<Seg>, rest: seq<Seg>)
    requires NoDoubles(rest) && rest != [] && head != []
    requires !(s0.SegMove? && s1.SegMove?) && !(s0.SegClose? && s1.SegClose?)
    requires !s0.SegQuad? && !s0.SegCubic? ==> head == [s0]
    requires s0.SegQuad? || s0.SegCubic? ==> forall i :: 0 <= i < |head| ==> head[i].SegLine?
    requires (rest[0].SegMove? <==> s1.SegMove?) && (rest[0].SegClose? <==> s1.SegClose?)
    ensures NoDoubles(head + rest)
  {
    var r := head + rest;
    forall i | 0 <= i < |r| - 1 ensures !(r[i].SegMove? && r[i + 1].SegMove?) && !(r[i].SegClose? && r[i + 1].SegClose?) {
      if i + 1 < |head| {
        assert r[i] == head[i] && r[i + 1] == head[i + 1];
      } else if i + 1 == |head| {
        assert r[i] == head[|head| - 1] && r[i + 1] == rest[0];
      } else {
        assert r[i] == rest[i - |head|] && r[i + 1] == rest[i - |head| + 1];
      }
    }
  }
}
