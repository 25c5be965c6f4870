/**
 * `Path2D.Double` as the geometry kernel uses it: a winding rule and a
 * sequence of segments, the builder operations that keep `moveTo`/`closePath`
 * canonical, the bounding box and current point the JDK derives from the
 * coordinate array, and the 4-decimal rounding of `GeomUtils.trunc4` /
 * `GeomUtils.roundPath`.
 */
module Paths {
  import opened Wrappers
  import opened Geom2D

  /** One path segment, carrying the coordinates `PathIterator.currentSegment` reports. */
  datatype Seg =
    | SegMove(p: Point)
    | SegLine(p: Point)
    | SegQuad(c: Point, p: Point)
    | SegCubic(c1: Point, c2: Point, p: Point)
    | SegClose

  /** `Path2D.WIND_EVEN_ODD` and `Path2D.WIND_NON_ZERO`. */
  datatype Winding = EvenOdd | NonZero

  datatype Path = Path(winding: Winding, segs: seq<Seg>)

  /** `IllegalPathStateException("missing initial moveto in path definition")`. */
  datatype PathError = MissingInitialMove

  /** The kind of a segment (`SEG_MOVETO`, `SEG_LINETO`, ...), without its coordinates. */
  datatype Kind = KMove | KLine | KQuad | KCubic | KClose

  function KindOf(s: Seg): Kind {
    match s
    case SegMove(_) => KMove
    case SegLine(_) => KLine
    case SegQuad(_, _) => KQuad
    case SegCubic(_, _, _) => KCubic
    case SegClose => KClose
  }

  function Kinds(segs: seq<Seg>): (ks: seq<Kind>)
    ensures |ks| == |segs|
    ensures forall i :: 0 <= i < |segs| ==> ks[i] == KindOf(segs[i])
  {
    if segs == [] then [] else [KindOf(segs[0])] + Kinds(segs[1..])
  }

  // ---------------------------------------------------------------------------
  // Builder (Path2D.moveTo / lineTo / quadTo / curveTo / closePath)

  function EmptyPath(w: Winding): Path {
    Path(w, [])
  }

  /**
   * `Path2D.moveTo`: a move directly after a move replaces it, so a path never
   * holds two consecutive moves.
   */
  function MoveTo(path: Path, p: Point): (r: Path)
    ensures r.winding == path.winding
    ensures |path.segs| > 0 && path.segs[|path.segs| - 1].SegMove? ==>
              r.segs == path.segs[..|path.segs| - 1] + [SegMove(p)]
    ensures !(|path.segs| > 0 && path.segs[|path.segs| - 1].SegMove?) ==>
              r.segs == path.segs + [SegMove(p)]
  {
    var n := |path.segs|;
    if n > 0 && path.segs[n - 1].SegMove? then Path(path.winding, path.segs[..n - 1] + [SegMove(p)])
    else Path(path.winding, path.segs + [SegMove(p)])
  }

  /** Appends a drawing segment; the JDK refuses one on an empty path. */
  function Draw(path: Path, s: Seg): (r: Result<Path, PathError>)
    requires s.SegLine? || s.SegQuad? || s.SegCubic?
    ensures r.Err? <==> path.segs == []
    ensures r.Ok? ==> r.value == Path(path.winding, path.segs + [s])
  {
    if path.segs == [] then Err(MissingInitialMove) else Ok(Path(path.winding, path.segs + [s]))
  }

  function LineTo(path: Path, p: Point): Result<Path, PathError> {
    Draw(path, SegLine(p))
  }

  function QuadTo(path: Path, c: Point, p: Point): Result<Path, PathError> {
    Draw(path, SegQuad(c, p))
  }

  function CurveTo(path: Path, c1: Point, c2: Point, p: Point): Result<Path, PathError> {
    Draw(path, SegCubic(c1, c2, p))
  }

  /**
   * `Path2D.closePath`: a close directly after a close is dropped, and the JDK
   * refuses to close an empty path.
   */
  function ClosePath(path: Path): (r: Result<Path, PathError>)
    ensures r.Err? <==> path.segs == []
    ensures |path.segs| > 0 && path.segs[|path.segs| - 1].SegClose? ==> r == Ok(path)
    ensures |path.segs| > 0 && !path.segs[|path.segs| - 1].SegClose? ==>
              r == Ok(Path(path.winding, path.segs + [SegClose]))
  {
    var n := |path.segs|;
    if n == 0 then Err(MissingInitialMove)
    else if path.segs[n - 1].SegClose? then Ok(path)
    else Ok(Path(path.winding, path.segs + [SegClose]))
  }

  /**
   * The shape of every path the builder can produce: it starts with a move,
   * and never holds two consecutive moves or two consecutive closes.
   */
  predicate WellFormedSegs(segs: seq<Seg>) {
    && (|segs| > 0 ==> segs[0].SegMove?)
    && (forall i :: 0 <= i < |segs| - 1 ==> !(segs[i].SegMove? && segs[i + 1].SegMove?))
    && (forall i :: 0 <= i < |segs| - 1 ==> !(segs[i].SegClose? && segs[i + 1].SegClose?))
  }

  /** Same well-formedness, stated on kinds only. */
  predicate WellFormedKinds(ks: seq<Kind>) {
    && (|ks| > 0 ==> ks[0] == KMove)
    && (forall i :: 0 <= i < |ks| - 1 ==> !(ks[i] == KMove && ks[i + 1] == KMove))
    && (forall i :: 0 <= i < |ks| - 1 ==> !(ks[i] == KClose && ks[i + 1] == KClose))
  }

  lemma WellFormedByKinds(segs: seq<Seg>)
    ensures WellFormedSegs(segs) <==> WellFormedKinds(Kinds(segs))
  {
    var ks := Kinds(segs);
    if WellFormedSegs(segs) {
      forall i | 0 <= i < |ks| - 1
        ensures !(ks[i] == KMove && ks[i + 1] == KMove) && !(ks[i] == KClose && ks[i + 1] == KClose)
      {
        assert !(segs[i].SegMove? && segs[i + 1].SegMove?);
        assert !(segs[i].SegClose? && segs[i + 1].SegClose?);
      }
    }
    if WellFormedKinds(ks) {
      forall i | 0 <= i < |segs| - 1
        ensures !(segs[i].SegMove? && segs[i + 1].SegMove?) && !(segs[i].SegClose? && segs[i + 1].SegClose?)
      {
        assert !(ks[i] == KMove && ks[i + 1] == KMove);
        assert !(ks[i] == KClose && ks[i + 1] == KClose);
      }
    }
  }

  /** The builder keeps paths well-formed. */
  lemma BuilderKeepsWellFormed(path: Path, p: Point, c1: Point, c2: Point)
    requires WellFormedSegs(path.segs)
    ensures WellFormedSegs(MoveTo(path, p).segs)
    ensures ClosePath(path).Ok? ==> WellFormedSegs(ClosePath(path).value.segs)
    ensures LineTo(path, p).Ok? ==> WellFormedSegs(LineTo(path, p).value.segs)
    ensures QuadTo(path, c1, p).Ok? ==> WellFormedSegs(QuadTo(path, c1, p).value.segs)
    ensures CurveTo(path, c1, c2, p).Ok? ==> WellFormedSegs(CurveTo(path, c1, c2, p).value.segs)
  {
    var s := path.segs;
    var n := |s|;
    if n > 0 && s[n - 1].SegMove? {
      var m := MoveTo(path, p).segs;
      assert m == s[..n - 1] + [SegMove(p)];
      forall i | 0 <= i < |m| - 1
        ensures !(m[i].SegMove? && m[i + 1].SegMove?) && !(m[i].SegClose? && m[i + 1].SegClose?)
      {
        assert m[i] == s[i];
        if i + 1 < n - 1 {
          assert m[i + 1] == s[i + 1];
        }
      }
    }
  }

  // ---------------------------------------------------------------------------
  // Coordinates (the `doubleCoords` array, read point by point)

  /** The points a segment contributes to the coordinate array. */
  function SegPoints(s: Seg): seq<Point> {
    match s
    case SegMove(p) => [p]
    case SegLine(p) => [p]
    case SegQuad(c, p) => [c, p]
    case SegCubic(c1, c2, p) => [c1, c2, p]
    case SegClose => []
  }

  /** All points of the path, in storage order. */
  function Points(segs: seq<Seg>): seq<Point> {
    if segs == [] then [] else Points(segs[..|segs| - 1]) + SegPoints(segs[|segs| - 1])
  }

  lemma {:induction false} PointsAppend(a: seq<Seg>, b: seq<Seg>)
    ensures Points(a + b) == Points(a) + Points(b)
    decreases |b|
  {
    if b == [] {
      assert a + b == a;
    } else {
      var b' := b[..|b| - 1];
      var last := b[|b| - 1];
      assert (a + b)[..|a + b| - 1] == a + b' && (a + b)[|a + b| - 1] == last;
      PointsAppend(a, b');
      assert Points(a + b) == Points(a + b') + SegPoints(last);
      assert Points(b) == Points(b') + SegPoints(last);
    }
  }

  /**
   * `Path2D.getBounds2D` (JDK 8): the box spanned by every stored coordinate,
   * control points included, and (0, 0, 0, 0) for a path with no coordinates.
   */
  function Bounds(path: Path): (r: Rect)
    ensures WellFormed(r)
    ensures forall q :: q in Points(path.segs) ==> r.x1 <= q.x <= r.x2 && r.y1 <= q.y <= r.y2
    ensures Points(path.segs) == [] ==> r == Rect(0.0, 0.0, 0.0, 0.0)
    ensures Points(path.segs) != [] ==>
              && (exists q :: q in Points(path.segs) && q.x == r.x1)
              && (exists q :: q in Points(path.segs) && q.x == r.x2)
              && (exists q :: q in Points(path.segs) && q.y == r.y1)
              && (exists q :: q in Points(path.segs) && q.y == r.y2)
  {
    var pts := Points(path.segs);
    if pts == [] then Rect(0.0, 0.0, 0.0, 0.0) else BoxOf(pts)
  }

  /** The smallest box holding every point of a non-empty sequence. */
  function BoxOf(pts: seq<Point>): (r: Rect)
    requires pts != []
    ensures WellFormed(r)
    ensures forall q :: q in pts ==> r.x1 <= q.x <= r.x2 && r.y1 <= q.y <= r.y2
    ensures exists q :: q in pts && q.x == r.x1
    ensures exists q :: q in pts && q.x == r.x2
    ensures exists q :: q in pts && q.y == r.y1
    ensures exists q :: q in pts && q.y == r.y2
  {
    var last := pts[|pts| - 1];
    if |pts| == 1 then Rect(last.x, last.y, last.x, last.y)
    else
      var b := BoxOf(pts[..|pts| - 1]);
      assert forall q :: q in pts ==> q in pts[..|pts| - 1] || q == last;
      assert forall q :: q in pts[..|pts| - 1] ==> q in pts;
      Rect(Min(b.x1, last.x), Min(b.y1, last.y), Max(b.x2, last.x), Max(b.y2, last.y))
  }

  // ---------------------------------------------------------------------------
  // Current point (Path2D.getCurrentPoint)

  /** The number of points each segment kind stores. */
  function PointCount(s: Seg): nat {
    |SegPoints(s)|
  }

  /**
   * The JDK's walk back from the segment before a trailing close: every
   * segment at index `i >= 1` that is not a move gives back its points, and the
   * walk stops at the first move (or at index 0).
   */
  function WalkBack(segs: seq<Seg>, i: int, index: int): int
    requires i < |segs|
    decreases i
  {
    if i <= 0 then index
    else if segs[i].SegMove? then index
    else WalkBack(segs, i - 1, index - PointCount(segs[i]))
  }

  /**
   * `Path2D.getCurrentPoint` as the JDK computes it: `None` when no coordinate
   * is stored, the last stored point unless the path ends with a close, and
   * otherwise the point the walk back lands on. Defined for paths that start
   * with a move, the only ones `ShapeData.calculate1dEndpoints` asks about.
   */
  function CurrentPoint(segs: seq<Seg>): (r: Option<Point>)
    requires segs != [] ==> segs[0].SegMove?
    ensures r.None? <==> segs == []
  {
    if segs == [] then None
    else if !segs[|segs| - 1].SegClose? then Some(LastStoredPoint(segs))
    else Some(ClosedSubpathPoint(segs))
  }

  /** The last entry of the coordinate array: the end point of the last segment. */
  function LastStoredPoint(segs: seq<Seg>): (r: Point)
    requires segs != [] && segs[0].SegMove? && !segs[|segs| - 1].SegClose?
    ensures r == segs[|segs| - 1].p
  {
    var n := |segs|;
    var pts := Points(segs);
    var tail := SegPoints(segs[n - 1]);
    assert pts == Points(segs[..n - 1]) + tail;
    assert tail[|tail| - 1] == segs[n - 1].p;
    pts[|pts| - 1]
  }

  /**
   * The entry the JDK's walk back from a trailing close lands on: the point
   * of the last move before the close, where the closed subpath started.
   */
  function ClosedSubpathPoint(segs: seq<Seg>): (r: Point)
    requires segs != [] && segs[0].SegMove? && segs[|segs| - 1].SegClose?
    ensures r == segs[LastMoveIndex(segs, |segs| - 2)].p
  {
    ClosedSubpathWalk(segs);
    Points(segs)[WalkBack(segs, |segs| - 2, |Points(segs)|) - 1]
  }

  /** The walk back from a trailing close ends on the point of the last move before it. */
  lemma ClosedSubpathWalk(segs: seq<Seg>)
    requires segs != [] && segs[0].SegMove? && segs[|segs| - 1].SegClose?
    ensures var w := WalkBack(segs, |segs| - 2, |Points(segs)|);
            1 <= w <= |Points(segs)| && Points(segs)[w - 1] == segs[LastMoveIndex(segs, |segs| - 2)].p
  {
    var k := LastMoveIndex(segs, |segs| - 2);
    WalkBackFromClose(segs);
    PrefixPoints(segs, k);
  }

  lemma WalkBackFromClose(segs: seq<Seg>)
    requires segs != [] && segs[0].SegMove? && segs[|segs| - 1].SegClose?
    ensures WalkBack(segs, |segs| - 2, |Points(segs)|) == |Points(segs[..LastMoveIndex(segs, |segs| - 2) + 1])|
    ensures segs[LastMoveIndex(segs, |segs| - 2)].SegMove?
  {
    var i := |segs| - 2;
    DropClose(segs);
    WalkBackLandsOnMove(segs, i);
    assert segs[..i + 1] == segs[..|segs| - 1];
  }

  /** A trailing close adds no point. */
  lemma DropClose(segs: seq<Seg>)
    requires segs != [] && segs[|segs| - 1].SegClose?
    ensures Points(segs) == Points(segs[..|segs| - 1])
  {
    assert SegPoints(segs[|segs| - 1]) == [];
  }

  /** The index of the last move among `segs[..i + 1]`, falling back to 0. */
  function LastMoveIndex(segs: seq<Seg>, i: int): (k: nat)
    requires i < |segs|
    ensures k <= (if i < 0 then 0 else i)
    ensures i >= 1 ==> (segs[k].SegMove? || k == 0)
    ensures i >= 1 ==> forall j :: k < j <= i ==> !segs[j].SegMove?
    decreases i
  {
    if i <= 0 then 0
    else if segs[i].SegMove? then i
    else LastMoveIndex(segs, i - 1)
  }

  /**
   * Walking back from `i` over the points of `segs[..i + 1]` ends just after
   * the points of the last move at or before `i`.
   */
  lemma {:induction false} WalkBackLandsOnMove(segs: seq<Seg>, i: int)
    requires segs != [] && segs[0].SegMove?
    requires 0 <= i < |segs|
    ensures WalkBack(segs, i, |Points(segs[..i + 1])|) == |Points(segs[..LastMoveIndex(segs, i) + 1])|
    decreases i
  {
    if i > 0 && !segs[i].SegMove? {
      assert segs[..i + 1][..i] == segs[..i];
      assert |Points(segs[..i + 1])| == |Points(segs[..i])| + PointCount(segs[i]);
      WalkBackLandsOnMove(segs, i - 1);
    }
  }

  /** The points of a prefix that ends in a move end with that move's point. */
  lemma PrefixPoints(segs: seq<Seg>, k: nat)
    requires k < |segs| && segs[k].SegMove?
    ensures |Points(segs[..k + 1])| >= 1
    ensures |Points(segs[..k + 1])| <= |Points(segs)|
    ensures Points(segs)[|Points(segs[..k + 1])| - 1] == segs[k].p
  {
    var pre, rest := segs[..k + 1], segs[k + 1..];
    assert pre[..|pre| - 1] == segs[..k];
    var ps := Points(pre);
    assert ps == Points(segs[..k]) + SegPoints(segs[k]);
    assert ps[|ps| - 1] == segs[k].p;
    assert pre + rest == segs;
    PointsAppend(pre, rest);
    assert Points(segs) == ps + Points(rest);
  }

  /**
   * What the current point means: the end of the last segment, or, after a
   * close, the start of the closed subpath (the last move before the close).
   */
  lemma CurrentPointMeaning(segs: seq<Seg>)
    requires segs != [] && segs[0].SegMove?
    ensures var n := |segs|;
            !segs[n - 1].SegClose? ==> CurrentPoint(segs) == Some(segs[n - 1].p)
    ensures var n := |segs|;
            var k := LastMoveIndex(segs, n - 2);
            segs[n - 1].SegClose? ==> CurrentPoint(segs) == Some(segs[k].p)
  {
  }

  // ---------------------------------------------------------------------------
  // Rounding (GeomUtils.trunc, trunc4, roundPath)

  /** `Math.pow(10, precision)` for an integer exponent. */
  function Pow10(precision: int): (r: real)
    ensures r > 0.0
    decreases if precision < 0 then -precision else precision
  {
    if precision == 0 then 1.0
    else if precision > 0 then 10.0 * Pow10(precision - 1)
    else Pow10(precision + 1) / 10.0
  }

  /** `Math.round`: the nearest integer, halves rounded up (`floor(x + 1/2)`). */
  function Round(x: real): (k: int)
    ensures x - 0.5 < k as real <= x + 0.5
  {
    (x + 0.5).Floor
  }

  /** `GeomUtils.trunc(number, precision)`: rounds to `precision` decimal places. */
  function Trunc(x: real, precision: int): (r: real)
    ensures OnScale(r, Pow10(precision))
    ensures WithinHalfStep(x, r, Pow10(precision))
    ensures OnScale(x, Pow10(precision)) ==> r == x
  {
    RoundAt(x, Pow10(precision))
  }

  /** `x` is a whole number of steps of `1/scale`. */
  predicate OnScale(x: real, scale: real) {
    (x * scale).Floor as real == x * scale
  }

  /** `r` is within half a step of `1/scale` of `x`, halves rounded up. */
  predicate WithinHalfStep(x: real, r: real, scale: real) {
    x * scale - 0.5 < r * scale <= x * scale + 0.5
  }

  /**
   * Rounding at a positive scale lands on the grid of that scale, moves the
   * scaled value by at most one half, and leaves grid values alone.
   */
  function RoundAt(x: real, scale: real): (r: real)
    requires scale > 0.0
    ensures OnScale(r, scale)
    ensures WithinHalfStep(x, r, scale)
    ensures OnScale(x, scale) ==> r == x
  {
    var k := Round(x * scale) as real;
    DivTimes(k, scale);
    assert OnScale(k / scale, scale);
    if OnScale(x, scale) then
      assert (x * scale + 0.5).Floor == (x * scale).Floor;
      assert k == x * scale;
      TimesDiv(x, scale);
      k / scale
    else k / scale
  }

  lemma TimesDiv(a: real, s: real)
    requires s > 0.0
    ensures (a * s) / s == a
  {
  }

  lemma DivTimes(a: real, s: real)
    requires s > 0.0
    ensures (a / s) * s == a
  {
  }

  /** A coordinate already on the 10⁻⁴ grid. */
  predicate OnGrid(x: real) {
    (x * 10000.0).Floor as real == x * 10000.0
  }

  /**
   * `GeomUtils.trunc4`: rounds to the nearest multiple of 10⁻⁴ (halves up),
   * lands on the grid, moves `x` by at most half a grid step, and leaves grid
   * values alone.
   */
  function Trunc4(x: real): (r: real)
    ensures OnGrid(r)
    ensures x - 0.00005 < r <= x + 0.00005
    ensures OnGrid(x) ==> r == x
  {
    var k := Round(x * 10000.0);
    var r := k as real / 10000.0;
    assert r * 10000.0 == k as real;
    assert OnGrid(r);
    GridRoundsToItself(x);
    r
  }

  lemma GridRoundsToItself(x: real)
    ensures OnGrid(x) ==> Round(x * 10000.0) as real / 10000.0 == x
  {
    if OnGrid(x) {
      var n := (x * 10000.0).Floor;
      assert (x * 10000.0 + 0.5).Floor == n;
    }
  }

  /** `trunc4` is `trunc` at precision 4, and rounding twice changes nothing. */
  lemma Trunc4Idempotent(x: real)
    ensures Trunc4(Trunc4(x)) == Trunc4(x)
    ensures Trunc4(x) == Trunc(x, 4)
  {
    assert Pow10(4) == 10000.0 by {
      assert Pow10(1) == 10.0;
      assert Pow10(2) == 100.0;
      assert Pow10(3) == 1000.0;
    }
  }

  function RoundPoint(p: Point): Point {
    Point(Trunc4(p.x), Trunc4(p.y))
  }

  /** A segment with every coordinate passed through `trunc4`. */
  function RoundSeg(s: Seg): (r: Seg)
    ensures KindOf(r) == KindOf(s)
  {
    match s
    case SegMove(p) => SegMove(RoundPoint(p))
    case SegLine(p) => SegLine(RoundPoint(p))
    case SegQuad(c, p) => SegQuad(RoundPoint(c), RoundPoint(p))
    case SegCubic(c1, c2, p) => SegCubic(RoundPoint(c1), RoundPoint(c2), RoundPoint(p))
    case SegClose => SegClose
  }

  function RoundSegs(segs: seq<Seg>): (r: seq<Seg>)
    ensures |r| == |segs|
    ensures forall i :: 0 <= i < |segs| ==> r[i] == RoundSeg(segs[i])
  {
    if segs == [] then [] else RoundSegs(segs[..|segs| - 1]) + [RoundSeg(segs[|segs| - 1])]
  }

  /** Replays one segment of the input on the output path, as the `switch` in `roundPath` does. */
  function Replay(acc: Path, s: Seg): Result<Path, PathError> {
    match s
    case SegClose => ClosePath(acc)
    case SegCubic(c1, c2, p) => CurveTo(acc, RoundPoint(c1), RoundPoint(c2), RoundPoint(p))
    case SegLine(p) => LineTo(acc, RoundPoint(p))
    case SegMove(p) => Ok(MoveTo(acc, RoundPoint(p)))
    case SegQuad(c, p) => QuadTo(acc, RoundPoint(c), RoundPoint(p))
  }

  function ReplayAll(acc: Path, segs: seq<Seg>): Result<Path, PathError>
    decreases |segs|
  {
    if segs == [] then Ok(acc)
    else
      var acc' :- Replay(acc, segs[0]);
      ReplayAll(acc', segs[1..])
  }

  /**
   * `GeomUtils.roundPath`: rebuilds the path through the builder with every
   * coordinate rounded by `trunc4`, keeping the winding rule.
   */
  function RoundPath(path: Path): Result<Path, PathError> {
    ReplayAll(EmptyPath(path.winding), path.segs)
  }

  /**
   * On a well-formed path the builder never merges or drops a segment, so
   * `roundPath` keeps the winding rule and the sequence of segment kinds and
   * rounds every coordinate.
   */
  lemma RoundPathMeaning(path: Path)
    requires WellFormedSegs(path.segs)
    ensures RoundPath(path) == Ok(Path(path.winding, RoundSegs(path.segs)))
    ensures Kinds(RoundSegs(path.segs)) == Kinds(path.segs)
  {
    ReplayPrefix(path.winding, path.segs, 0);
    assert path.segs[..0] == [];
    assert path.segs[0..] == path.segs;
    assert Kinds(RoundSegs(path.segs)) == Kinds(path.segs);
  }

  /** Replaying the rest of a well-formed path onto the rounding of its prefix. */
  lemma {:induction false} ReplayPrefix(w: Winding, segs: seq<Seg>, i: nat)
    requires WellFormedSegs(segs) && i <= |segs|
    ensures ReplayAll(Path(w, RoundSegs(segs[..i])), segs[i..]) == Ok(Path(w, RoundSegs(segs)))
    decreases |segs| - i
  {
    if i == |segs| {
      assert segs[..i] == segs;
      assert segs[i..] == [];
    } else {
      var acc := Path(w, RoundSegs(segs[..i]));
      var s := segs[i];
      assert segs[i..][0] == s;
      assert segs[i..][1..] == segs[i + 1..];
      assert segs[..i + 1][..i] == segs[..i];
      var next := Path(w, RoundSegs(segs[..i + 1]));
      assert next.segs == acc.segs + [RoundSeg(s)];
      match s {
        case SegMove(p) =>
          if i > 0 {
            assert !segs[i - 1].SegMove?;
            assert acc.segs[i - 1] == RoundSeg(segs[i - 1]);
            assert KindOf(acc.segs[i - 1]) == KindOf(segs[i - 1]);
          }
          assert Replay(acc, s) == Ok(next);
        case SegClose =>
          assert i > 0;
          assert !segs[i - 1].SegClose?;
          assert acc.segs[i - 1] == RoundSeg(segs[i - 1]);
          assert KindOf(acc.segs[i - 1]) == KindOf(segs[i - 1]);
          assert Replay(acc, s) == Ok(next);
        case SegLine(p) =>
          assert i > 0;
          assert Replay(acc, s) == Ok(next);
        case SegQuad(c, p) =>
          assert i > 0;
          assert Replay(acc, s) == Ok(next);
        case SegCubic(c1, c2, p) =>
          assert i > 0;
          assert Replay(acc, s) == Ok(next);
      }
      ReplayPrefix(w, segs, i + 1);
    }
  }

  lemma RoundSegIdempotent(s: Seg)
    ensures RoundSeg(RoundSeg(s)) == RoundSeg(s)
  {
    match s {
      case SegMove(p) => Trunc4Idempotent(p.x); Trunc4Idempotent(p.y);
      case SegLine(p) => Trunc4Idempotent(p.x); Trunc4Idempotent(p.y);
      case SegQuad(c, p) =>
        Trunc4Idempotent(c.x); Trunc4Idempotent(c.y);
        Trunc4Idempotent(p.x); Trunc4Idempotent(p.y);
      case SegCubic(c1, c2, p) =>
        Trunc4Idempotent(c1.x); Trunc4Idempotent(c1.y);
        Trunc4Idempotent(c2.x); Trunc4Idempotent(c2.y);
        Trunc4Idempotent(p.x); Trunc4Idempotent(p.y);
      case SegClose =>
    }
  }

  /** Rounding a well-formed path twice gives the same path as rounding it once. */
  lemma RoundPathIdempotent(path: Path)
    requires WellFormedSegs(path.segs)
    ensures RoundPath(path).Ok?
    ensures WellFormedSegs(RoundPath(path).value.segs)
    ensures RoundPath(RoundPath(path).value) == RoundPath(path)
  {
    RoundPathMeaning(path);
    var once := RoundSegs(path.segs);
    WellFormedByKinds(path.segs);
    WellFormedByKinds(once);
    RoundPathMeaning(Path(path.winding, once));
    RoundSegsIdempotent(path.segs);
  }

  /**
   * `roundPath` of a path the builder produced: it succeeds, keeps the winding
   * rule and the segment kinds, and leaves a well-formed path.
   */
  function Rounded(path: Path): (r: Path)
    requires WellFormedSegs(path.segs)
    ensures RoundPath(path) == Ok(r)
    ensures r.winding == path.winding && Kinds(r.segs) == Kinds(path.segs)
    ensures WellFormedSegs(r.segs)
  {
    RoundPathMeaning(path);
    RoundPathIdempotent(path);
    RoundPath(path).value
  }

  lemma RoundSegsIdempotent(segs: seq<Seg>)
    ensures RoundSegs(RoundSegs(segs)) == RoundSegs(segs)
  {
    var once := RoundSegs(segs);
    forall i | 0 <= i < |once|
      ensures RoundSegs(once)[i] == once[i]
    {
      RoundSegIdempotent(segs[i]);
    }
  }
}
