/**
 * `ShapeData`: what the page parser keeps about one shape once POI has
 * applied the global transform — a 1-D path with its two end points or a 2-D
 * outline, the bounding rectangle and its area, the text state and the line
 * style — and the two ways of making one.
 */
module Shapes {
  import opened Wrappers
  import opened Geom2D
  import opened Paths
  import opened Errors

  /**
   * The attributes of an `XDGFShape` the parser reads, with both paths
   * already in page coordinates. `localTextCenter` is the text centre before
   * the transform; `textCenter` after it. Colours are RGB values.
   */
  datatype SourceShape = SourceShape(
    id: int,
    parentId: Option<int>,
    width: real,
    is1d: bool,
    boundsPath: Path,
    path: Path,
    hasText: bool,
    hasMaster: bool,
    hasMasterShape: bool,
    textCenter: Point,
    localTextCenter: Point,
    textAsString: string,
    textContent: string,
    lineColor: Option<int>,
    linePattern: Option<IntegerRef>,
    name: string,
    symbolName: string,
    shapeType: string)

  /**
   * A `java.lang.Integer` reference. Boxing a value in -128..127 yields the
   * one object `Integer.valueOf` caches for it; any other value lives in an
   * object of its own, told apart by `box`. Java's `==` on two such
   * references is equality of this datatype: both the same cached value, or
   * the same boxed object (`box`).
   */
  datatype IntegerRef = Cached(value: int) | Boxed(value: int, box: nat)

  /** How autoboxing makes references: cached exactly for the values -128..127. */
  predicate ValidRef(r: IntegerRef) {
    r.Cached? <==> -128 <= r.value <= 127
  }

  /**
   * What `!=` on two autoboxed patterns decides: two absent patterns, or
   * the same value when it is cached, or the same object otherwise. Equal
   * values outside -128..127 in two objects compare as different.
   */
  lemma SameReference(r1: Option<IntegerRef>, r2: Option<IntegerRef>)
    requires (r1.Some? ==> ValidRef(r1.value)) && (r2.Some? ==> ValidRef(r2.value))
    ensures r1 == r2 <==>
            || (r1.None? && r2.None?)
            || (r1.Some? && r2.Some? && r1.value.value == r2.value.value
                && (-128 <= r1.value.value <= 127 || r1.value.box == r2.value.box))
  {
  }

  /**
   * A shape is either 1-D (`path1D` with its start and, when the path stores
   * a point, its end) or 2-D (`path2D`): never both, never neither.
   */
  datatype Geometry =
    | OneD(path1D: Path, start: Point, end: Option<Point>)
    | TwoD(path2D: Path)

  datatype ShapeData = ShapeData(
    shapeId: int,
    parentId: Option<int>,
    bounds: Rect,
    area: real,
    geom: Geometry,
    textCenter: Option<Point>,
    hasText: bool,
    isTextbox: bool,
    lineColor: Option<int>,
    linePattern: Option<IntegerRef>,
    removed: bool)

  /** `is1d`: the shape holds a 1-D path. */
  predicate Is1d(sd: ShapeData) {
    sd.geom.OneD?
  }

  /** `getPath`: the 1-D path when there is one, else the 2-D outline. */
  function GetPath(sd: ShapeData): (r: Path)
    ensures Is1d(sd) ==> r == sd.geom.path1D
    ensures !Is1d(sd) ==> r == sd.geom.path2D
  {
    match sd.geom
    case OneD(p, _, _) => p
    case TwoD(p) => p
  }

  /**
   * `calculate1dEndpoints`: the first segment must be a move, whose point is
   * the start; the end is `getCurrentPoint`. An empty `Path2D` reports a move
   * to the origin from its zero-filled arrays and has no current point.
   */
  function Endpoints(path: Path): (r: Result<(Point, Option<Point>), Error>)
    ensures r.Err? <==> path.segs != [] && !path.segs[0].SegMove?
    ensures r.Err? ==> r.error == InvalidPath
    ensures path.segs == [] ==> r == Ok((Origin, None))
    ensures r.Ok? && path.segs != [] ==> r.value.0 == path.segs[0].p && r.value.1.Some?
    ensures r.Ok? && path.segs != [] && !path.segs[|path.segs| - 1].SegClose? ==>
              r.value.1 == Some(path.segs[|path.segs| - 1].p)
  {
    if path.segs == [] then Ok((Origin, None))
    else if !path.segs[0].SegMove? then Err(InvalidPath)
    else Ok((path.segs[0].p, CurrentPoint(path.segs)))
  }

  /** A path the builder produced always passes the check of `calculate1dEndpoints`. */
  lemma EndpointsOfBuiltPath(path: Path)
    requires WellFormedSegs(path.segs)
    ensures Endpoints(path).Ok?
    ensures path.segs != [] && path.segs[|path.segs| - 1].SegClose? ==>
              Endpoints(path).value.1 == Some(path.segs[LastMoveIndex(path.segs, |path.segs| - 2)].p)
  {
    if path.segs != [] {
      CurrentPointMeaning(path.segs);
    }
  }

  /** The 1-D geometry of a built path. */
  function OneDOf(path: Path): (g: Geometry)
    requires WellFormedSegs(path.segs)
    ensures g.OneD? && g.path1D == path
    ensures Endpoints(path) == Ok((g.start, g.end))
  {
    EndpointsOfBuiltPath(path);
    var ends := Endpoints(path).value;
    OneD(path, ends.0, ends.1)
  }

  /** Well-formed bounds have a non-negative area. */
  lemma AreaNonNegative(r: Rect)
    requires WellFormed(r)
    ensures Area(r) >= 0.0
  {
    MulMono(0.0, 0.0, r.x2 - r.x1, r.y2 - r.y1);
  }

  /**
   * The constructor from a POI shape: the outline is rounded and becomes the
   * bounds (and, for a 2-D shape, the path); a 1-D shape keeps its own
   * rounded path and end points. A shape with text and neither master nor
   * master shape is a textbox.
   */
  function NewShape(src: SourceShape): (r: ShapeData)
    requires WellFormedSegs(src.boundsPath.segs) && WellFormedSegs(src.path.segs)
    ensures Is1d(r) <==> src.is1d
    ensures Is1d(r) ==> r.geom.path1D == Rounded(src.path)
    ensures !Is1d(r) ==> r.geom.path2D == Rounded(src.boundsPath)
    ensures r.bounds == Bounds(Rounded(src.boundsPath)) && WellFormed(r.bounds)
    ensures r.area == Area(r.bounds) && r.area >= 0.0
    ensures r.shapeId == src.id && r.parentId == src.parentId
    ensures r.lineColor == src.lineColor && r.linePattern == src.linePattern
    ensures r.hasText == src.hasText
    ensures r.isTextbox <==> src.hasText && !src.hasMaster && !src.hasMasterShape
    ensures r.isTextbox ==> r.hasText
    ensures r.textCenter == (if src.hasText then Some(src.textCenter) else None)
    ensures !r.removed
  {
    var outline := Rounded(src.boundsPath);
    var geom := if src.is1d then OneDOf(Rounded(src.path)) else TwoD(outline);
    var bounds := Bounds(outline);
    AreaNonNegative(bounds);
    ShapeData(
      shapeId := src.id,
      parentId := src.parentId,
      bounds := bounds,
      area := Area(bounds),
      geom := geom,
      textCenter := if src.hasText then Some(src.textCenter) else None,
      hasText := src.hasText,
      isTextbox := src.hasText && !src.hasMaster && !src.hasMasterShape,
      lineColor := src.lineColor,
      linePattern := src.linePattern,
      removed := false)
  }

  /**
   * The clone constructor for a piece of a split connector: a 1-D shape on
   * `path` with a new id, the parent and line style of `other`, bounds taken
   * from the (unrounded) path, and no text.
   */
  function CloneShape(shapeId: int, other: ShapeData, path: Path): (r: ShapeData)
    requires WellFormedSegs(path.segs)
    ensures Is1d(r) && r.geom.path1D == path
    ensures Endpoints(path) == Ok((r.geom.start, r.geom.end))
    ensures r.bounds == Bounds(path) && WellFormed(r.bounds)
    ensures forall q :: q in Points(path.segs) ==> r.bounds.x1 <= q.x <= r.bounds.x2 && r.bounds.y1 <= q.y <= r.bounds.y2
    ensures r.area == Area(r.bounds) && r.area >= 0.0
    ensures r.shapeId == shapeId && r.parentId == other.parentId
    ensures r.lineColor == other.lineColor && r.linePattern == other.linePattern
    ensures !r.hasText && !r.isTextbox && r.textCenter.None? && !r.removed
  {
    var bounds := Bounds(path);
    AreaNonNegative(bounds);
    ShapeData(
      shapeId := shapeId,
      parentId := other.parentId,
      bounds := bounds,
      area := Area(bounds),
      geom := OneDOf(path),
      textCenter := None,
      hasText := false,
      isTextbox := false,
      lineColor := other.lineColor,
      linePattern := other.linePattern,
      removed := false)
  }

  /** `getCenterX` / `getCenterY`: the middle of the bounds. */
  function CenterOf(sd: ShapeData): (c: Point)
    ensures WellFormed(sd.bounds) ==> sd.bounds.x1 <= c.x <= sd.bounds.x2 && sd.bounds.y1 <= c.y <= sd.bounds.y2
    ensures c.x - sd.bounds.x1 == sd.bounds.x2 - c.x && c.y - sd.bounds.y1 == sd.bounds.y2 - c.y
  {
    Center(sd.bounds)
  }

  /** `OrderByLargestAreaFirst.compare`: `Float.compare(o2.area, o1.area)`. */
  function CompareByArea(a: ShapeData, b: ShapeData): (r: int)
    ensures r < 0 <==> a.area > b.area
    ensures r == 0 <==> a.area == b.area
    ensures r > 0 <==> a.area < b.area
  {
    if b.area < a.area then -1 else if b.area > a.area then 1 else 0
  }

  /** The comparator is a total preorder: antisymmetric and transitive. */
  lemma CompareByAreaOrder(a: ShapeData, b: ShapeData, c: ShapeData)
    ensures CompareByArea(a, b) == -CompareByArea(b, a)
    ensures CompareByArea(a, b) <= 0 && CompareByArea(b, c) <= 0 ==> CompareByArea(a, c) <= 0
  {
  }
}
