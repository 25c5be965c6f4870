/**
 * Points, line segments and axis-aligned rectangles over exact reals, with the
 * JDK `Line2D` primitives the geometry kernel relies on (`relativeCCW`,
 * `linesIntersect`, `ptLineDistSq`, `ptSegDistSq`, `Rectangle2D.intersectsLine`)
 * and the R-tree `Rectangle` operations (`intersects`, `area`, `intersectionArea`).
 */
module Geom2D {
  import opened Wrappers

  datatype Point = Point(x: real, y: real)

  /** Where Java's coordinate fields start before anything is read. */
  const Origin: Point := Point(0.0, 0.0)

  /** A segment from `p1` to `p2` (`Line2D.Double`). */
  datatype Line = Line(p1: Point, p2: Point)

  /** An R-tree rectangle with corners (x1, y1) and (x2, y2). */
  datatype Rect = Rect(x1: real, y1: real, x2: real, y2: real)

  // ---------------------------------------------------------------------------
  // Vector helpers

  /** `a² + b²`, kept behind a name so that the solver treats it as one term. */
  function SumSq(a: real, b: real): real { a * a + b * b }

  /** Squared Euclidean distance between two points (`Point2D.distanceSq`). */
  function PointDistSq(a: Point, b: Point): (r: real)
    ensures r >= 0.0
  {
    var dx := a.x - b.x;
    var dy := a.y - b.y;
    SquaresNonNeg(dx, dy);
    SumSq(dx, dy)
  }

  /** A sum of two squares is never negative. */
  lemma SquaresNonNeg(a: real, b: real)
    ensures a * a + b * b >= 0.0
  {
    SquareSign(a);
    SquareSign(b);
  }

  lemma SquareSign(a: real)
    ensures a * a >= 0.0
  {
    if a < 0.0 {
      assert a * a == (-a) * (-a);
    }
  }

  /** Cross product of the segment direction with the vector from `p1` to `p`. */
  function Cross(l: Line, p: Point): real {
    (p.x - l.p1.x) * (l.p2.y - l.p1.y) - (p.y - l.p1.y) * (l.p2.x - l.p1.x)
  }

  /** Dot product of the segment direction with the vector from `p1` to `p`. */
  function Dot(l: Line, p: Point): real {
    (p.x - l.p1.x) * (l.p2.x - l.p1.x) + (p.y - l.p1.y) * (l.p2.y - l.p1.y)
  }

  /** Squared length of the segment. */
  function LenSq(l: Line): real {
    PointDistSq(l.p2, l.p1)
  }

  /** `p` lies on the closed segment `l` (exact arithmetic). */
  predicate OnSegment(l: Line, p: Point) {
    Cross(l, p) == 0.0 && 0.0 <= Dot(l, p) <= LenSq(l)
  }

  /** The point `p1 + t * (p2 - p1)` of the segment's supporting line. */
  function PointAt(l: Line, t: real): Point {
    Point(At(l.p1.x, l.p2.x - l.p1.x, t), At(l.p1.y, l.p2.y - l.p1.y, t))
  }

  // ---------------------------------------------------------------------------
  // Line2D

  /**
   * `Line2D.relativeCCW`: on which side of the segment `l` the point `p` lies;
   * for a collinear point, -1 behind the start, 1 beyond the end, 0 on it.
   */
  function RelativeCCW(l: Line, p: Point): (r: int)
    ensures -1 <= r <= 1
    ensures r == 0 <==> OnSegment(l, p)
    ensures Cross(l, p) != 0.0 ==> (r < 0 <==> Cross(l, p) < 0.0)
  {
    var dx := l.p2.x - l.p1.x;
    var dy := l.p2.y - l.p1.y;
    var qx := p.x - l.p1.x;
    var qy := p.y - l.p1.y;
    var ccw := qx * dy - qy * dx;
    var ccw' :=
      if ccw == 0.0 then
        var dot := qx * dx + qy * dy;
        if dot > 0.0 then
          var beyond := (qx - dx) * dx + (qy - dy) * dy;
          if beyond < 0.0 then 0.0 else beyond
        else dot
      else ccw;
    assert (qx - dx) * dx + (qy - dy) * dy == Dot(l, p) - LenSq(l);
    if ccw' < 0.0 then -1 else if ccw' > 0.0 then 1 else 0
  }

  /** `Line2D.linesIntersect`: the closed segments `a` and `b` meet. */
  function LinesIntersect(a: Line, b: Line): bool {
    && RelativeCCW(a, b.p1) * RelativeCCW(a, b.p2) <= 0
    && RelativeCCW(b, a.p1) * RelativeCCW(b, a.p2) <= 0
  }

  /**
   * `Line2D.ptLineDistSq`: squared distance from `p` to the infinite line
   * through `l`; `None` is the NaN the JDK computes (0/0) for a zero-length `l`.
   */
  function PtLineDistSq(l: Line, p: Point): (r: Option<real>)
    ensures r.Some? <==> LenSq(l) != 0.0
    ensures r.Some? ==> r.value >= 0.0
    ensures r.Some? ==> r.value * LenSq(l) == Cross(l, p) * Cross(l, p)
    ensures r.Some? && Cross(l, p) == 0.0 ==> r.value == 0.0
  {
    var dx := l.p2.x - l.p1.x;
    var dy := l.p2.y - l.p1.y;
    var qx := p.x - l.p1.x;
    var qy := p.y - l.p1.y;
    if SumSq(dx, dy) == 0.0 then None
    else
      var lenSq := Rejection(qx, qy, dx, dy);
      Projection(qx, qy, dx, dy);
      Some(if lenSq < 0.0 then 0.0 else lenSq)
  }

  /** What the JDK computes as `|q|² - (q·d)² / |d|²`: the squared length of `q` with its projection on `d` taken away. */
  function Rejection(qx: real, qy: real, dx: real, dy: real): real
    requires SumSq(dx, dy) != 0.0
  {
    var dot := qx * dx + qy * dy;
    SumSq(qx, qy) - dot * dot / SumSq(dx, dy)
  }

  /** The cross product of `q` and `d`. */
  function Perp(qx: real, qy: real, dx: real, dy: real): real {
    qx * dy - qy * dx
  }

  /**
   * Lagrange's identity in the plane: the rejection is the squared cross
   * product over `|d|²`, so the JDK's clamp at 0 never fires in exact
   * arithmetic, and the distance is 0 on the line.
   */
  lemma Projection(qx: real, qy: real, dx: real, dy: real)
    requires SumSq(dx, dy) != 0.0
    ensures Rejection(qx, qy, dx, dy) * SumSq(dx, dy) == Perp(qx, qy, dx, dy) * Perp(qx, qy, dx, dy)
    ensures Rejection(qx, qy, dx, dy) >= 0.0
    ensures Perp(qx, qy, dx, dy) == 0.0 ==> Rejection(qx, qy, dx, dy) == 0.0
  {
    var dot := qx * dx + qy * dy;
    var len2 := SumSq(dx, dy);
    var c := Perp(qx, qy, dx, dy);
    SquaresNonNeg(dx, dy);
    assert SumSq(qx, qy) * len2 - dot * dot == c * c;
    assert (dot * dot / len2) * len2 == dot * dot;
    ScaledSquare(Rejection(qx, qy, dx, dy), len2, c);
  }

  /** A quantity that times a positive factor is a square is not negative, and it vanishes with the square's root. */
  lemma ScaledSquare(x: real, k: real, c: real)
    requires k > 0.0 && x * k == c * c
    ensures x >= 0.0 && (c == 0.0 ==> x == 0.0)
  {
    SquareSign(c);
    if x < 0.0 {
      MulNegPos(x, k);
    }
    if c == 0.0 {
      assert x * k == 0.0;
    }
  }

  lemma MulNegPos(a: real, b: real)
    requires a < 0.0 && b > 0.0
    ensures a * b < 0.0
  {
  }

  /** `line.ptLineDist(p) == 0.0`: `p` lies on the infinite line through `l`. */
  predicate OnInfiniteLine(l: Line, p: Point) {
    PtLineDistSq(l, p) == Some(0.0)
  }

  /**
   * `Line2D.ptSegDistSq`: squared distance from `p` to the closed segment `l`.
   * The projection of `p` is clamped to the segment: before the start the
   * distance is to `p1`, beyond the end it is to `p2`.
   */
  function PtSegDistSq(l: Line, p: Point): (r: real)
    ensures r >= 0.0
    ensures Dot(l, p) <= 0.0 ==> r == PointDistSq(p, l.p1)
    ensures Dot(l, p) > 0.0 && Dot(l, p) >= LenSq(l) ==> r == PointDistSq(p, l.p2)
    ensures 0.0 < Dot(l, p) < LenSq(l) ==> r * LenSq(l) == Cross(l, p) * Cross(l, p)
  {
    var dx, dy := l.p2.x - l.p1.x, l.p2.y - l.p1.y;
    var qx, qy := p.x - l.p1.x, p.y - l.p1.y;
    SegmentTerms(l, p);
    SegDistSq(qx, qy, dx, dy)
  }

  /** The segment's measures in terms of `q = p - p1` and `d = p2 - p1`. */
  lemma SegmentTerms(l: Line, p: Point)
    ensures var dx, dy := l.p2.x - l.p1.x, l.p2.y - l.p1.y;
            var qx, qy := p.x - l.p1.x, p.y - l.p1.y;
            && Dot(l, p) == Inner(qx, qy, dx, dy)
            && LenSq(l) == SumSq(dx, dy)
            && Cross(l, p) == Perp(qx, qy, dx, dy)
            && PointDistSq(p, l.p1) == SumSq(qx, qy)
            && PointDistSq(p, l.p2) == SumSq(dx - qx, dy - qy)
  {
    NegSumSq(l.p2.x - p.x, l.p2.y - p.y);
  }

  /**
   * The JDK's computation with `q = p - p1` and `d = p2 - p1`: the projection
   * of `q` on `d` is clamped to the segment, and inside it the rejection is
   * taken from the end point.
   */
  function SegDistSq(qx: real, qy: real, dx: real, dy: real): (r: real)
    ensures r >= 0.0
    ensures Inner(qx, qy, dx, dy) <= 0.0 ==> r == SumSq(qx, qy)
    ensures 0.0 < Inner(qx, qy, dx, dy) && SumSq(dx, dy) <= Inner(qx, qy, dx, dy) ==> r == SumSq(dx - qx, dy - qy)
    ensures 0.0 < Inner(qx, qy, dx, dy) < SumSq(dx, dy) ==> r * SumSq(dx, dy) == Perp(qx, qy, dx, dy) * Perp(qx, qy, dx, dy)
  {
    SquaresNonNeg(qx, qy);
    if Inner(qx, qy, dx, dy) <= 0.0 then SumSq(qx, qy)
    else
      var rx, ry := dx - qx, dy - qy;
      FromEnd(qx, qy, dx, dy);
      SquaresNonNeg(rx, ry);
      if Inner(rx, ry, dx, dy) <= 0.0 then SumSq(rx, ry)
      else
        var lenSq := Rejection(rx, ry, dx, dy);
        Projection(rx, ry, dx, dy);
        if lenSq < 0.0 then 0.0 else lenSq
  }

  /** The dot product of `q` and `d`. */
  function Inner(qx: real, qy: real, dx: real, dy: real): real {
    qx * dx + qy * dy
  }

  /**
   * Seen from the end point, the dot product is the squared length minus the
   * one from the start, and the cross product changes sign.
   */
  lemma FromEnd(qx: real, qy: real, dx: real, dy: real)
    ensures Inner(dx - qx, dy - qy, dx, dy) == SumSq(dx, dy) - Inner(qx, qy, dx, dy)
    ensures Perp(dx - qx, dy - qy, dx, dy) == -Perp(qx, qy, dx, dy)
  {
  }

  lemma NegSumSq(a: real, b: real)
    ensures SumSq(-a, -b) == SumSq(a, b)
  {
  }

  /**
   * `Line2D.intersects(x, y, w, h)` (`Rectangle2D.intersectsLine`): the closed
   * segment `l` meets the closed box [lo, hi]. The JDK clips ey outcodes; the
   * model computes the same predicate by clipping the segment's parameter
   * interval [0, 1] against each slab (`SegmentMeetsBoxCorrect`).
   */
  function SegmentMeetsBox(l: Line, lo: Point, hi: Point): bool {
    var (ok1, t0, t1) := Slab(l.p1.x, l.p2.x - l.p1.x, lo.x, hi.x, 0.0, 1.0);
    var (ok2, s0, s1) := Slab(l.p1.y, l.p2.y - l.p1.y, lo.y, hi.y, t0, t1);
    ok1 && ok2 && s0 <= s1
  }

  /** The coordinate `a + t * d` reached at parameter `t`. */
  function At(a: real, d: real, t: real): real { a + t * d }

  /** Restricts the parameter interval [t0, t1] to where `At(a, d, t)` lies in [lo, hi]. */
  function Slab(a: real, d: real, lo: real, hi: real, t0: real, t1: real): (r: (bool, real, real))
    ensures r.1 >= t0 && r.2 <= t1
    ensures forall t :: r.0 && r.1 <= t <= r.2 ==> lo <= At(a, d, t) <= hi
    ensures forall t :: t0 <= t <= t1 && lo <= At(a, d, t) <= hi ==> r.0 && r.1 <= t <= r.2
  {
    if d == 0.0 then
      (lo <= a <= hi, t0, t1)
    else if d > 0.0 then
      SlabCrossing(a, d, lo, hi);
      (true, Max((lo - a) / d, t0), Min((hi - a) / d, t1))
    else
      SlabCrossing(a, d, lo, hi);
      (true, Max((hi - a) / d, t0), Min((lo - a) / d, t1))
  }

  lemma SlabCrossing(a: real, d: real, lo: real, hi: real)
    requires d != 0.0
    ensures d > 0.0 ==> forall t :: ((lo <= At(a, d, t) <==> (lo - a) / d <= t)
                                  && (At(a, d, t) <= hi <==> t <= (hi - a) / d))
    ensures d < 0.0 ==> forall t :: ((lo <= At(a, d, t) <==> t <= (lo - a) / d)
                                  && (At(a, d, t) <= hi <==> (hi - a) / d <= t))
  {
    forall t
      ensures d > 0.0 ==> ((lo <= At(a, d, t) <==> (lo - a) / d <= t)
                       && (At(a, d, t) <= hi <==> t <= (hi - a) / d))
      ensures d < 0.0 ==> ((lo <= At(a, d, t) <==> t <= (lo - a) / d)
                       && (At(a, d, t) <= hi <==> (hi - a) / d <= t))
    {
      var ea := (lo - a) / d;
      var eb := (hi - a) / d;
      assert At(a, d, t) - lo == (t - ea) * d;
      assert hi - At(a, d, t) == (eb - t) * d;
      MulSign(t - ea, d);
      MulSign(eb - t, d);
    }
  }

  /** The sign of a product with a non-zero factor `d`. */
  lemma MulSign(x: real, d: real)
    requires d != 0.0
    ensures d > 0.0 ==> (x * d >= 0.0 <==> x >= 0.0)
    ensures d < 0.0 ==> (x * d >= 0.0 <==> x <= 0.0)
    ensures x * d == 0.0 <==> x == 0.0
  {
    if x > 0.0 && d > 0.0 { assert x * d > 0.0; }
    if x < 0.0 && d > 0.0 { assert x * d < 0.0; }
    if x > 0.0 && d < 0.0 { assert x * d < 0.0; }
    if x < 0.0 && d < 0.0 { assert x * d > 0.0; }
  }

  /** Some point of the closed segment lies in the closed box. */
  ghost predicate SegmentMeetsBoxSpec(l: Line, lo: Point, hi: Point) {
    exists t :: 0.0 <= t <= 1.0 && InBox(PointAt(l, t), lo, hi)
  }

  predicate InBox(p: Point, lo: Point, hi: Point) {
    lo.x <= p.x <= hi.x && lo.y <= p.y <= hi.y
  }

  /** The clipping computation decides exactly whether the segment meets the box. */
  lemma SegmentMeetsBoxCorrect(l: Line, lo: Point, hi: Point)
    ensures SegmentMeetsBox(l, lo, hi) <==> SegmentMeetsBoxSpec(l, lo, hi)
  {
    var dx := l.p2.x - l.p1.x;
    var dy := l.p2.y - l.p1.y;
    var (ok1, t0, t1) := Slab(l.p1.x, dx, lo.x, hi.x, 0.0, 1.0);
    var (ok2, s0, s1) := Slab(l.p1.y, dy, lo.y, hi.y, t0, t1);
    if SegmentMeetsBox(l, lo, hi) {
      assert lo.y <= At(l.p1.y, dy, s0) <= hi.y;
      assert lo.x <= At(l.p1.x, dx, s0) <= hi.x;
      assert InBox(PointAt(l, s0), lo, hi);
    }
    if SegmentMeetsBoxSpec(l, lo, hi) {
      var t :| 0.0 <= t <= 1.0 && InBox(PointAt(l, t), lo, hi);
      assert lo.x <= At(l.p1.x, dx, t) <= hi.x;
      assert ok1 && t0 <= t <= t1;
      assert lo.y <= At(l.p1.y, dy, t) <= hi.y;
    }
  }

  // ---------------------------------------------------------------------------
  // R-tree rectangles

  predicate WellFormed(r: Rect) {
    r.x1 <= r.x2 && r.y1 <= r.y2
  }

  /** `Rectangle.intersects`: the closed rectangles share a point. */
  predicate Intersects(a: Rect, b: Rect) {
    a.x1 <= b.x2 && b.x1 <= a.x2 && a.y1 <= b.y2 && b.y1 <= a.y2
  }

  function Area(r: Rect): real {
    (r.x2 - r.x1) * (r.y2 - r.y1)
  }

  function Max(a: real, b: real): real { if a >= b then a else b }
  function Min(a: real, b: real): real { if a <= b then a else b }

  /** The point lies in the closed rectangle. */
  predicate InRect(p: Point, r: Rect) {
    InBox(p, Point(r.x1, r.y1), Point(r.x2, r.y2))
  }

  /** The rectangle two rectangles have in common (ill-formed when they are disjoint). */
  function Overlap(a: Rect, b: Rect): Rect {
    Rect(Max(a.x1, b.x1), Max(a.y1, b.y1), Min(a.x2, b.x2), Min(a.y2, b.y2))
  }

  /**
   * The overlap holds exactly the points of both rectangles, and two
   * well-formed rectangles intersect exactly when they share a point, the
   * overlap's low corner.
   */
  lemma OverlapMeaning(a: Rect, b: Rect, p: Point)
    ensures InRect(p, Overlap(a, b)) <==> InRect(p, a) && InRect(p, b)
    ensures WellFormed(a) && WellFormed(b) ==>
              (Intersects(a, b) <==> WellFormed(Overlap(a, b)))
    ensures WellFormed(a) && WellFormed(b) && Intersects(a, b) ==>
              var o := Overlap(a, b);
              InRect(Point(o.x1, o.y1), a) && InRect(Point(o.x1, o.y1), b)
    ensures InRect(p, a) && InRect(p, b) ==> Intersects(a, b)
  {
  }

  /** `Rectangle.intersectionArea`: the area of the overlap, 0 when disjoint. */
  function IntersectionArea(a: Rect, b: Rect): (r: real)
    ensures WellFormed(a) && WellFormed(b) ==> 0.0 <= r <= Area(a) && r <= Area(b)
    ensures !Intersects(a, b) ==> r == 0.0
    ensures Intersects(a, b) ==> r == Area(Overlap(a, b))
  {
    if !Intersects(a, b) then
      AreaNonNeg(a);
      AreaNonNeg(b);
      0.0
    else
      OverlapBounded(a, b);
      Area(Overlap(a, b))
  }

  lemma AreaNonNeg(r: Rect)
    ensures WellFormed(r) ==> Area(r) >= 0.0
  {
    if WellFormed(r) {
      MulMono(0.0, 0.0, r.x2 - r.x1, r.y2 - r.y1);
    }
  }

  lemma OverlapBounded(a: Rect, b: Rect)
    requires Intersects(a, b)
    ensures WellFormed(a) && WellFormed(b) ==> 0.0 <= Area(Overlap(a, b)) <= Area(a) && Area(Overlap(a, b)) <= Area(b)
  {
    if WellFormed(a) && WellFormed(b) {
      var o := Overlap(a, b);
      var w, h := o.x2 - o.x1, o.y2 - o.y1;
      assert Area(o) == w * h;
      assert 0.0 <= w <= a.x2 - a.x1 && w <= b.x2 - b.x1;
      assert 0.0 <= h <= a.y2 - a.y1 && h <= b.y2 - b.y1;
      MulMono(w, h, a.x2 - a.x1, a.y2 - a.y1);
      MulMono(w, h, b.x2 - b.x1, b.y2 - b.y1);
    }
  }

  /** The overlap is symmetric, and a well-formed rectangle overlaps itself completely. */
  lemma IntersectionAreaSymmetric(a: Rect, b: Rect)
    ensures IntersectionArea(a, b) == IntersectionArea(b, a)
    ensures WellFormed(a) ==> IntersectionArea(a, a) == Area(a)
  {
  }

  lemma MulMono(w: real, h: real, W: real, H: real)
    ensures 0.0 <= w <= W && 0.0 <= h <= H ==> 0.0 <= w * h <= W * H
  {
    if 0.0 <= w <= W && 0.0 <= h <= H {
      assert w * h <= W * h;
      assert W * h <= W * H;
    }
  }

  /** Centre of the rectangle (`ShapeData.getCenterX/Y`). */
  function Center(r: Rect): (c: Point)
    ensures WellFormed(r) ==> r.x1 <= c.x <= r.x2 && r.y1 <= c.y <= r.y2
    ensures c.x - r.x1 == r.x2 - c.x && c.y - r.y1 == r.y2 - c.y
  {
    Point(r.x1 + (r.x2 - r.x1) / 2.0, r.y1 + (r.y2 - r.y1) / 2.0)
  }
}
