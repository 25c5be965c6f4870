/**
 * The path queries of `GeomUtils`: the intersection point of two segments,
 * the three `findIntersections` overloads, the three `pathIntersects`
 * overloads, `pathDistance` and `isInsideOrOnBoundary`. All of them walk the
 * items of `Segments.Items`.
 */
module GeomUtils {
  import opened Wrappers
  import opened Geom2D
  import opened Paths
  import opened Segments
  import opened Flattening
  import opened Seqs

  // ---------------------------------------------------------------------------
  // One item against a line or a point (PathSegmentIterator.intersects)

  /** `psit.intersects(line)`: a point item must lie on the line's supporting line. */
  predicate ItemMeetsLine(it: Item, seg: Line) {
    match it
    case PtItem(p) => OnInfiniteLine(seg, p)
    case LnItem(l) => LinesIntersect(l, seg)
  }

  /** `psit.intersects(pt)`: a point item must equal `pt` exactly. */
  predicate ItemMeetsPoint(it: Item, pt: Point) {
    match it
    case PtItem(p) => p == pt
    case LnItem(l) => OnInfiniteLine(l, pt)
  }

  // ---------------------------------------------------------------------------
  // getLineIntersection

  /** The determinant `sx * ry - sy * rx` of the two directions; zero when they are parallel. */
  function Det(l1: Line, l2: Line): real {
    (l2.p2.x - l2.p1.x) * (l1.p2.y - l1.p1.y) - (l2.p2.y - l2.p1.y) * (l1.p2.x - l1.p1.x)
  }

  /**
   * `GeomUtils.getLineIntersection`: `None` unless the closed segments meet.
   * For non-parallel segments the result lies on both supporting lines; for
   * parallel ones it is an end point of one of them, the first end point found
   * on the other segment's supporting line.
   */
  function LineIntersection(l1: Line, l2: Line): (r: Option<Point>)
    ensures r.Some? <==> LinesIntersect(l1, l2)
    ensures r.Some? && Det(l1, l2) != 0.0 ==> Cross(l1, r.value) == 0.0 && Cross(l2, r.value) == 0.0
    ensures r.Some? && Det(l1, l2) == 0.0 ==> r.value in [l1.p1, l1.p2, l2.p1, l2.p2]
    ensures r.Some? && Det(l1, l2) == 0.0 && OnInfiniteLine(l2, l1.p1) ==> r.value == l1.p1
  {
    if !LinesIntersect(l1, l2) then None
    else if Det(l1, l2) == 0.0 then
      if OnInfiniteLine(l2, l1.p1) then Some(l1.p1)
      else if OnInfiniteLine(l2, l1.p2) then Some(l1.p2)
      else if OnInfiniteLine(l1, l2.p1) then Some(l2.p1)
      else Some(l2.p2)
    else
      Some(Meet(l1, l2))
  }

  /** The crossing point `p + z * r` of two non-parallel supporting lines. */
  function Meet(l1: Line, l2: Line): (r: Point)
    requires Det(l1, l2) != 0.0
    ensures Cross(l1, r) == 0.0 && Cross(l2, r) == 0.0
  {
    var px := l1.p1.x;
    var py := l1.p1.y;
    var rx := l1.p2.x - px;
    var ry := l1.p2.y - py;
    var qx := l2.p1.x;
    var qy := l2.p1.y;
    var sx := l2.p2.x - qx;
    var sy := l2.p2.y - qy;
    var det := sx * ry - sy * rx;
    var z := (sx * (qy - py) + sy * (px - qx)) / det;
    OnBoth(px, py, rx, ry, qx, qy, sx, sy, det, z);
    Point(px + z * rx, py + z * ry)
  }

  lemma OnBoth(px: real, py: real, rx: real, ry: real, qx: real, qy: real,
               sx: real, sy: real, det: real, z: real)
    requires det == sx * ry - sy * rx && det != 0.0
    requires z * det == sx * (qy - py) + sy * (px - qx)
    ensures (z * rx) * ry - (z * ry) * rx == 0.0
    ensures (px + z * rx - qx) * sy - (py + z * ry - qy) * sx == 0.0
  {
    assert (px + z * rx - qx) * sy - (py + z * ry - qy) * sx
        == (px - qx) * sy - (py - qy) * sx + z * (rx * sy - ry * sx);
  }

  // ---------------------------------------------------------------------------
  // findIntersections

  /**
   * `findIntersections(path, line, points, flatness)`: the points appended to
   * `points`, one per item that meets the line, in path order: the item's
   * point, or where its segment meets the line.
   */
  function FindLineIntersections(path: Path, seg: Line): (r: seq<Point>)
    ensures |r| == |MeetingLine(Items(path), seg)|
    ensures forall k :: 0 <= k < |r| ==> r[k] == LineHit(MeetingLine(Items(path), seg)[k], seg)
    ensures r == [] <==> forall i :: 0 <= i < |Items(path)| ==> !ItemMeetsLine(Items(path)[i], seg)
  {
    LineHits(Items(path), seg)
  }

  /** The items that meet the line, in path order. */
  function MeetingLine(items: seq<Item>, seg: Line): (r: seq<Item>)
    ensures forall k :: 0 <= k < |r| ==> ItemMeetsLine(r[k], seg)
  {
    Filter(items, (it: Item) => ItemMeetsLine(it, seg))
  }

  /** What an item that meets the line contributes: its point, or where its segment meets the line. */
  function LineHit(it: Item, seg: Line): Point
    requires ItemMeetsLine(it, seg)
  {
    match it
    case PtItem(p) => p
    case LnItem(l) => LineIntersection(l, seg).value
  }

  function LineHits(items: seq<Item>, seg: Line): (r: seq<Point>)
    ensures |r| == |MeetingLine(items, seg)|
    ensures forall k :: 0 <= k < |r| ==> r[k] == LineHit(MeetingLine(items, seg)[k], seg)
    ensures r == [] <==> forall i :: 0 <= i < |items| ==> !ItemMeetsLine(items[i], seg)
  {
    MeetingLineEmpty(items, seg);
    if items == [] then []
    else
      var rest := LineHits(items[1..], seg);
      LineHitsCons(items, seg, rest);
      if !ItemMeetsLine(items[0], seg) then rest
      else [LineHit(items[0], seg)] + rest
  }

  /** No item meets the line exactly when none is kept. */
  lemma MeetingLineEmpty(items: seq<Item>, seg: Line)
    ensures MeetingLine(items, seg) == [] <==> forall i :: 0 <= i < |items| ==> !ItemMeetsLine(items[i], seg)
  {
    var m := MeetingLine(items, seg);
    if m != [] {
      assert m[0] in items;
    }
    if i :| 0 <= i < |items| && ItemMeetsLine(items[i], seg) {
      assert items[i] in m;
    }
  }

  /** The first item's hit, if any, followed by the others' hits, one per meeting item. */
  lemma LineHitsCons(items: seq<Item>, seg: Line, rest: seq<Point>)
    requires items != []
    requires |rest| == |MeetingLine(items[1..], seg)|
    requires forall k :: 0 <= k < |rest| ==> rest[k] == LineHit(MeetingLine(items[1..], seg)[k], seg)
    ensures var r := if ItemMeetsLine(items[0], seg) then [LineHit(items[0], seg)] + rest else rest;
            && |r| == |MeetingLine(items, seg)|
            && forall k :: 0 <= k < |r| ==> r[k] == LineHit(MeetingLine(items, seg)[k], seg)
  {
    FilterFirst(items, (it: Item) => ItemMeetsLine(it, seg));
  }

  /**
   * `findIntersections(path, pt, points, flatness)`: one entry per item that
   * meets `pt`, in path order: `psit.pt`, which is `pt` itself for a point
   * item and `null` (here `None`) for a segment item.
   */
  function FindPointIntersections(path: Path, pt: Point): (r: seq<Option<Point>>)
    ensures |r| == |MeetingPoint(Items(path), pt)|
    ensures forall k :: 0 <= k < |r| ==> r[k] == PointHit(MeetingPoint(Items(path), pt)[k])
    ensures r == [] <==> forall i :: 0 <= i < |Items(path)| ==> !ItemMeetsPoint(Items(path)[i], pt)
    ensures forall k :: 0 <= k < |r| ==> r[k] == None || r[k] == Some(pt)
  {
    PointHits(Items(path), pt)
  }

  /** The items that meet the point, in path order. */
  function MeetingPoint(items: seq<Item>, pt: Point): (r: seq<Item>)
    ensures forall k :: 0 <= k < |r| ==> ItemMeetsPoint(r[k], pt)
  {
    Filter(items, (it: Item) => ItemMeetsPoint(it, pt))
  }

  /** What an item that meets the point contributes: a point item's point, nothing for a segment. */
  function PointHit(it: Item): Option<Point> {
    match it
    case PtItem(p) => Some(p)
    case LnItem(_) => None
  }

  function PointHits(items: seq<Item>, pt: Point): (r: seq<Option<Point>>)
    ensures |r| == |MeetingPoint(items, pt)|
    ensures forall k :: 0 <= k < |r| ==> r[k] == PointHit(MeetingPoint(items, pt)[k])
    ensures r == [] <==> forall i :: 0 <= i < |items| ==> !ItemMeetsPoint(items[i], pt)
    ensures forall k :: 0 <= k < |r| ==> r[k] == None || r[k] == Some(pt)
  {
    MeetingPointEmpty(items, pt);
    if items == [] then []
    else
      var rest := PointHits(items[1..], pt);
      PointHitsCons(items, pt, rest);
      if !ItemMeetsPoint(items[0], pt) then rest
      else [PointHit(items[0])] + rest
  }

  /** No item meets the point exactly when none is kept. */
  lemma MeetingPointEmpty(items: seq<Item>, pt: Point)
    ensures MeetingPoint(items, pt) == [] <==> forall i :: 0 <= i < |items| ==> !ItemMeetsPoint(items[i], pt)
  {
    var m := MeetingPoint(items, pt);
    if m != [] {
      assert m[0] in items;
    }
    if i :| 0 <= i < |items| && ItemMeetsPoint(items[i], pt) {
      assert items[i] in m;
    }
  }

  /** The first item's entry, if any, followed by the others' entries, one per meeting item. */
  lemma PointHitsCons(items: seq<Item>, pt: Point, rest: seq<Option<Point>>)
    requires items != []
    requires |rest| == |MeetingPoint(items[1..], pt)|
    requires forall k :: 0 <= k < |rest| ==> rest[k] == PointHit(MeetingPoint(items[1..], pt)[k])
    ensures var r := if ItemMeetsPoint(items[0], pt) then [PointHit(items[0])] + rest else rest;
            && |r| == |MeetingPoint(items, pt)|
            && forall k :: 0 <= k < |r| ==> r[k] == PointHit(MeetingPoint(items, pt)[k])
  {
    FilterFirst(items, (it: Item) => ItemMeetsPoint(it, pt));
  }

  /**
   * `findIntersections(path1, path2, points, flatness)`: for every item of
   * `path1` in order, the hits of that item's point or segment on `path2`.
   */
  function FindPathIntersections(path1: Path, path2: Path): (r: seq<Option<Point>>)
    ensures r == [] <==> forall i :: 0 <= i < |Items(path1)| ==> ItemHits(Items(path1)[i], path2) == []
  {
    PathHits(Items(path1), path2)
  }

  /** What one item of the first path contributes. */
  function ItemHits(it: Item, path2: Path): seq<Option<Point>> {
    match it
    case PtItem(p) => FindPointIntersections(path2, p)
    case LnItem(l) => Lift(FindLineIntersections(path2, l))
  }

  function Lift(ps: seq<Point>): (r: seq<Option<Point>>)
    ensures |r| == |ps|
    ensures forall k :: 0 <= k < |ps| ==> r[k] == Some(ps[k])
  {
    if ps == [] then [] else [Some(ps[0])] + Lift(ps[1..])
  }

  function PathHits(items: seq<Item>, path2: Path): (r: seq<Option<Point>>)
    ensures r == [] <==> forall i :: 0 <= i < |items| ==> ItemHits(items[i], path2) == []
  {
    if items == [] then []
    else
      var rest := PathHits(items[1..], path2);
      PathHitsCons(items, path2, rest);
      ItemHits(items[0], path2) + rest
  }

  lemma PathHitsCons(items: seq<Item>, path2: Path, rest: seq<Option<Point>>)
    requires items != []
    requires rest == [] <==> forall i :: 0 <= i < |items[1..]| ==> ItemHits(items[1..][i], path2) == []
    ensures ItemHits(items[0], path2) + rest == [] <==> forall i :: 0 <= i < |items| ==> ItemHits(items[i], path2) == []
  {
    assert forall i :: 0 < i < |items| ==> items[i] == items[1..][i - 1];
  }

  /** The hits of a run of items are the hits of its parts, one after the other. */
  lemma {:induction false} PathHitsAppend(a: seq<Item>, b: seq<Item>, path2: Path)
    ensures PathHits(a + b, path2) == PathHits(a, path2) + PathHits(b, path2)
    decreases |a|
  {
    if a == [] {
      assert a + b == b;
    } else {
      assert (a + b)[0] == a[0] && (a + b)[1..] == a[1..] + b;
      PathHitsAppend(a[1..], b, path2);
    }
  }

  /**
   * Each item of the first path contributes its own hits in place: those of
   * the items before it come first, those of the items after it follow.
   */
  lemma FindPathIntersectionsInPlace(path1: Path, path2: Path, k: nat)
    requires k < |Items(path1)|
    ensures var items := Items(path1);
            FindPathIntersections(path1, path2)
              == PathHits(items[..k], path2) + ItemHits(items[k], path2) + PathHits(items[k + 1..], path2)
  {
    var items := Items(path1);
    assert items == items[..k] + items[k..];
    PathHitsAppend(items[..k], items[k..], path2);
    assert items[k..][1..] == items[k + 1..];
  }

  // ---------------------------------------------------------------------------
  // pathIntersects

  /** `pathIntersects(path, line, flatness)`: some item of the path meets the line. */
  function PathIntersectsLine(path: Path, seg: Line): (r: bool)
    ensures r <==> exists i :: 0 <= i < |Items(path)| && ItemMeetsLine(Items(path)[i], seg)
  {
    AnyMeetsLine(Items(path), seg)
  }

  function AnyMeetsLine(items: seq<Item>, seg: Line): (r: bool)
    ensures r <==> exists i :: 0 <= i < |items| && ItemMeetsLine(items[i], seg)
  {
    if items == [] then false
    else
      assert forall i :: 0 < i < |items| ==> items[i] == items[1..][i - 1];
      ItemMeetsLine(items[0], seg) || AnyMeetsLine(items[1..], seg)
  }

  /** `pathIntersects` against a line holds exactly when `findIntersections` finds a point. */
  lemma PathIntersectsLineFinds(path: Path, seg: Line)
    ensures PathIntersectsLine(path, seg) <==> FindLineIntersections(path, seg) != []
  {
  }

  /** Half the side of the box `pathIntersects(path, pt)` draws around the point. */
  const Tolerance: real := 0.00001

  function BoxLo(pt: Point): Point { Point(pt.x - Tolerance, pt.y - Tolerance) }
  function BoxHi(pt: Point): Point { Point(pt.x + Tolerance, pt.y + Tolerance) }

  /**
   * The point test of `pathIntersects(path, pt, flatness)`: a point item must
   * equal `pt`, a segment item must meet the 2·10⁻⁵ box centred on `pt`.
   */
  predicate ItemNearPoint(it: Item, pt: Point) {
    match it
    case PtItem(p) => p == pt
    case LnItem(l) => SegmentMeetsBox(l, BoxLo(pt), BoxHi(pt))
  }

  function PathIntersectsPoint(path: Path, pt: Point): (r: bool)
    ensures r <==> exists i :: 0 <= i < |Items(path)| && ItemNearPoint(Items(path)[i], pt)
  {
    AnyNearPoint(Items(path), pt)
  }

  function AnyNearPoint(items: seq<Item>, pt: Point): (r: bool)
    ensures r <==> exists i :: 0 <= i < |items| && ItemNearPoint(items[i], pt)
  {
    if items == [] then false
    else
      assert forall i :: 0 < i < |items| ==> items[i] == items[1..][i - 1];
      ItemNearPoint(items[0], pt) || AnyNearPoint(items[1..], pt)
  }

  /** Some point of the segment is within 10⁻⁵ of `pt` on both axes. */
  ghost predicate SegmentNear(l: Line, pt: Point) {
    exists t :: 0.0 <= t <= 1.0 && Abs(PointAt(l, t).x - pt.x) <= Tolerance && Abs(PointAt(l, t).y - pt.y) <= Tolerance
  }

  /** The box test of a segment item means: some point of the segment is that close to `pt`. */
  lemma ItemNearPointMeaning(l: Line, pt: Point)
    ensures ItemNearPoint(LnItem(l), pt) <==> SegmentNear(l, pt)
  {
    SegmentMeetsBoxCorrect(l, BoxLo(pt), BoxHi(pt));
    if SegmentNear(l, pt) {
      var t :| 0.0 <= t <= 1.0 && Abs(PointAt(l, t).x - pt.x) <= Tolerance && Abs(PointAt(l, t).y - pt.y) <= Tolerance;
      assert InBox(PointAt(l, t), BoxLo(pt), BoxHi(pt));
    }
    if SegmentMeetsBoxSpec(l, BoxLo(pt), BoxHi(pt)) {
      var t :| 0.0 <= t <= 1.0 && InBox(PointAt(l, t), BoxLo(pt), BoxHi(pt));
      assert Abs(PointAt(l, t).x - pt.x) <= Tolerance && Abs(PointAt(l, t).y - pt.y) <= Tolerance;
    }
  }

  /** `pathIntersects(path1, path2, flatness)`: some item of `path1` meets `path2`. */
  function PathIntersectsPath(path1: Path, path2: Path): (r: bool)
    ensures r <==> exists i :: 0 <= i < |Items(path1)| && ItemMeetsPath(Items(path1)[i], path2)
  {
    AnyMeetsPath(Items(path1), path2)
  }

  /** A point item is tested with the point overload, a segment item with the line overload. */
  predicate ItemMeetsPath(it: Item, path2: Path) {
    match it
    case PtItem(p) => PathIntersectsPoint(path2, p)
    case LnItem(l) => PathIntersectsLine(path2, l)
  }

  function AnyMeetsPath(items: seq<Item>, path2: Path): (r: bool)
    ensures r <==> exists i :: 0 <= i < |items| && ItemMeetsPath(items[i], path2)
  {
    if items == [] then false
    else
      assert forall i :: 0 < i < |items| ==> items[i] == items[1..][i - 1];
      ItemMeetsPath(items[0], path2) || AnyMeetsPath(items[1..], path2)
  }

  /** A one-point path: a move and a line-to back to the same point. */
  function Dot2(p: Point): Path {
    Path(NonZero, [SegMove(p), SegLine(p)])
  }

  function Segment2(a: Point, b: Point): Path {
    Path(NonZero, [SegMove(a), SegLine(b)])
  }

  lemma TwoSegmentItems(a: Point, b: Point)
    ensures Items(Path(NonZero, [SegMove(a), SegLine(b)])) == [MakeItem(a, b)]
  {
    var segs := [SegMove(a), SegLine(b)];
    assert segs[..1] == [SegMove(a)];
    assert [SegMove(a)][..0] == [];
    assert CursorAfter(Intended, segs[..1]) == Cursor(a, Point(0.0, 0.0));
    assert ItemsOf(Intended, segs[..1]) == [];
    assert segs[..|segs| - 1] == segs[..1];
    assert ItemsOf(Intended, segs) == [] + Emit(Cursor(a, Point(0.0, 0.0)), SegLine(b));
    FlatUnchanged(Origin, Origin, segs);
  }

  /**
   * `pathIntersects(path1, path2)` is not symmetric: a point 10⁻⁶ off a
   * segment passes the box test one way and fails the exact supporting-line
   * test the other way.
   */
  lemma PathIntersectsNotSymmetric()
    ensures PathIntersectsPath(Dot2(Point(0.0, 0.000001)), Segment2(Point(-1.0, 0.0), Point(1.0, 0.0)))
    ensures !PathIntersectsPath(Segment2(Point(-1.0, 0.0), Point(1.0, 0.0)), Dot2(Point(0.0, 0.000001)))
  {
    DotNearSegment();
    SegmentMissesDot();
  }

  /** The point lies within the box tolerance of the segment. */
  lemma DotNearSegment()
    ensures PathIntersectsPath(Dot2(Point(0.0, 0.000001)), Segment2(Point(-1.0, 0.0), Point(1.0, 0.0)))
  {
    var p := Point(0.0, 0.000001);
    var a := Point(-1.0, 0.0);
    var b := Point(1.0, 0.0);
    var l := Line(a, b);
    TwoSegmentItems(p, p);
    TwoSegmentItems(a, b);
    assert Items(Dot2(p)) == [PtItem(p)];
    assert Items(Segment2(a, b)) == [LnItem(l)];
    assert InBox(PointAt(l, 0.5), BoxLo(p), BoxHi(p));
    SegmentMeetsBoxCorrect(l, BoxLo(p), BoxHi(p));
    assert ItemNearPoint(LnItem(l), p);
    assert PathIntersectsPoint(Segment2(a, b), p);
    assert ItemMeetsPath(PtItem(p), Segment2(a, b));
  }

  /** The point is off the segment's supporting line, so the exact test fails. */
  lemma SegmentMissesDot()
    ensures !PathIntersectsPath(Segment2(Point(-1.0, 0.0), Point(1.0, 0.0)), Dot2(Point(0.0, 0.000001)))
  {
    var p := Point(0.0, 0.000001);
    var a := Point(-1.0, 0.0);
    var b := Point(1.0, 0.0);
    var l := Line(a, b);
    TwoSegmentItems(p, p);
    TwoSegmentItems(a, b);
    assert Items(Dot2(p)) == [PtItem(p)];
    assert Items(Segment2(a, b)) == [LnItem(l)];
    assert PtLineDistSq(l, p) == Some(0.000000000001);
    assert !ItemMeetsLine(PtItem(p), l);
    assert !PathIntersectsLine(Dot2(p), l);
  }

  // ---------------------------------------------------------------------------
  // pathDistance and isInsideOrOnBoundary

  /**
   * A distance as `pathDistance` reports it, kept squared: `Far` is the
   * `Double.MAX_VALUE` it starts from and returns for a path with no items.
   */
  datatype Dist = Far | Near(sq: real)

  /** Strictly closer: every `Near` distance beats `Far`. */
  predicate Closer(a: Dist, b: Dist) {
    a.Near? && (b.Far? || a.sq < b.sq)
  }

  /** Squared distance from `pt` to an item: to its point, or to its closed segment. */
  function ItemDistSq(it: Item, pt: Point): (r: real)
    ensures r >= 0.0
  {
    match it
    case PtItem(q) => PointDistSq(q, pt)
    case LnItem(l) => PtSegDistSq(l, pt)
  }

  /**
   * `GeomUtils.pathDistance`: the smallest distance from `pt` to an item of
   * the path, or `Far` when the path has none.
   */
  function PathDistance(path: Path, pt: Point): (d: Dist)
    ensures d.Far? <==> Items(path) == []
    ensures d.Near? ==> d.sq >= 0.0
    ensures d.Near? ==> forall i :: 0 <= i < |Items(path)| ==> d.sq <= ItemDistSq(Items(path)[i], pt)
    ensures d.Near? ==> exists i :: 0 <= i < |Items(path)| && d.sq == ItemDistSq(Items(path)[i], pt)
  {
    MinDist(Items(path), pt)
  }

  function MinDist(items: seq<Item>, pt: Point): (d: Dist)
    ensures d.Far? <==> items == []
    ensures d.Near? ==> d.sq >= 0.0
    ensures d.Near? ==> forall i :: 0 <= i < |items| ==> d.sq <= ItemDistSq(items[i], pt)
    ensures d.Near? ==> exists i :: 0 <= i < |items| && d.sq == ItemDistSq(items[i], pt)
  {
    if items == [] then Far
    else
      var rest := MinDist(items[1..], pt);
      var here := ItemDistSq(items[0], pt);
      assert forall i :: 0 < i < |items| ==> items[i] == items[1..][i - 1];
      if rest.Far? || here <= rest.sq then Near(here) else rest
  }

  /**
   * `GeomUtils.isInsideOrOnBoundary`: `Path2D.contains` (a parameter here)
   * or the point test of `pathIntersects`.
   */
  function IsInsideOrOnBoundary(contains: (Path, Point) -> bool, path: Path, pt: Point): bool {
    contains(path, pt) || PathIntersectsPoint(path, pt)
  }

  /** The first point of an item: its point, or the start of its segment. */
  function ItemStart(it: Item): Point {
    match it
    case PtItem(p) => p
    case LnItem(l) => l.p1
  }

  /**
   * Wherever `contains` places them, the start point of every item is inside
   * or on the boundary, because the point test accepts it.
   */
  lemma ItemStartsOnBoundary(contains: (Path, Point) -> bool, path: Path, i: nat)
    requires i < |Items(path)|
    ensures PathIntersectsPoint(path, ItemStart(Items(path)[i]))
    ensures IsInsideOrOnBoundary(contains, path, ItemStart(Items(path)[i]))
  {
    var it := Items(path)[i];
    var pt := ItemStart(it);
    match it {
      case PtItem(p) =>
      case LnItem(l) =>
        assert PointAt(l, 0.0) == l.p1;
        assert InBox(PointAt(l, 0.0), BoxLo(pt), BoxHi(pt));
        SegmentMeetsBoxCorrect(l, BoxLo(pt), BoxHi(pt));
    }
    assert ItemNearPoint(Items(path)[i], pt);
  }
}
