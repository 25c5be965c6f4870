# poi-visio-graph page parser in Dafny

This project models the page parser of poi-visio-graph. The parser turns one
Visio page into a property graph:
- one vertex per interesting shape;
- one edge per connection, whether drawn by the user or inferred from the geometry.

The model covers three parts of the Java source:
- `GeomUtils`: the path-segment iterator, path/line/point intersection tests, path distance and coordinate rounding;
- `ShapeData`: a shape's geometry record, its clone constructor, its 1-d endpoints and the area comparator;
- `VisioPageParser`: the parser and its six stages, run in this order by `process()`:
  1. collect shapes;
  2. collect real connections;
  3. join grouped shapes;
  4. add group labels;
  5. infer connections (split 1-d lines where they cross 2-d shapes, then link overlapping 1-d lines);
  6. associate free text with the nearest shape.

Java object identity is modelled by a heap. The parser's mutable state becomes an immutable `Page` record:
- `heap: seq<ShapeData>` holds every shape record ever allocated, and a `Ref` is an index into it;
- `shapes` (the sorted list) and `shapesMap` (id to record) hold `Ref`s;
- `rtree` is a sequence of `Entry(ref, rect)`; search filters it and delete removes the entry;
- the TinkerGraph is a `Graph` with a vertex set, a property record per shape id, and its edges in insertion order.

Each stage is a function from `Page` to `Result<Page, Error>`. An exception in the source, such as a
`NullPointerException` or a `POIXMLException`, becomes an `Err` value. Each stage preserves the
invariant `Tracked`: the heap, lists, map, rtree and graph agree with each other. Separate lemmas state what each
stage adds, removes or relabels.

Modules follow the source:
- `Segments`, `GeomUtils`, `Paths` and `Geom2D` model `GeomUtils.java`, plus the JDK geometry it calls (`Line2D`, `Path2D`, `Rectangle`);
- `Shapes` models `ShapeData.java`;
- `Page`, `Collect`, `Grouping`, `Splitting`, `Inference`, `Association` and `Parser` model `VisioPageParser.java`;
- `PropertyGraph`, `Sorting`, `Seqs`, `Wrappers` and `Errors` are supporting definitions: the graph store, the stable sort behind `Collections.sort`, sequence filtering, `Result`/`Option`, and the error values.

Reals are exact. Distances are kept squared, because the source only compares them and the square root is monotone.

## Model

| member | source | states |
|---|---|---|
| Segments.ArePointsEqualProperties | src/main/java/com/bbn/poi/xdgf/geom/GeomUtils.java:31-33 | The 10⁻⁴ tolerance comparison is reflexive and symmetric. It is not transitive: two steps of 6·10⁻⁵ are each "equal", but their sum is not. |
| Segments.MakeItem | src/main/java/com/bbn/poi/xdgf/geom/GeomUtils.java:298-311 | A line-to yields a point item exactly when its end is within tolerance of the cursor, and that point is the cursor. Otherwise it yields the segment from the cursor to the end. |
| Segments.Advance | src/main/java/com/bbn/poi/xdgf/geom/GeomUtils.java:289-325 | After any segment except close, the intended iterator's cursor is that segment's end point. A close leaves the cursor unchanged. |
| Segments.ItemsFollowLines | src/main/java/com/bbn/poi/xdgf/geom/GeomUtils.java:289-326 | The iterator yields exactly one item per line-to, in order. The item for the i-th line-to is built from the cursor before it. |
| Segments.ItemCount | src/main/java/com/bbn/poi/xdgf/geom/GeomUtils.java:289-326 | The number of items equals the number of line-to segments. Move, curve and close segments yield nothing. |
| Segments.IntendedCursorAtPreviousEnd | src/main/java/com/bbn/poi/xdgf/geom/GeomUtils.java:289-326 | With the corrected cursor, the item for a line-to that follows any non-close segment starts at that segment's end point. |
| Segments.VariantsAgreeOnFlat | src/main/java/com/bbn/poi/xdgf/geom/GeomUtils.java:289-326 | On paths without curves (every flattened path), the as-written and corrected iterators yield the same items. |
| Segments.ItemsAsWritten | src/main/java/com/bbn/poi/xdgf/geom/GeomUtils.java:289-326 | Over the flattened path every query iterates, the as-written iterator yields exactly the corrected items. |
| Segments.CurveYieldsItems | src/main/java/com/bbn/poi/xdgf/geom/GeomUtils.java:281-286 | A path of one move and one quad or cubic yields items: the first is built from the move's point and the first point the curve flattens to. |
| Segments.QuadLeavesStaleCursor | src/main/java/com/bbn/poi/xdgf/geom/GeomUtils.java:312-315 | As written, a quad-to sets the cursor from the unused coordinate slots 4 and 5. The next line item then starts at a stale point instead of the curve's end. |
| Segments.CubicLeavesControlPoint | src/main/java/com/bbn/poi/xdgf/geom/GeomUtils.java:316-319 | As written, a cubic-to sets the cursor to its second control point. The next line item then starts there instead of at the curve's end. |
| GeomUtils.LineIntersection | src/main/java/com/bbn/poi/xdgf/geom/GeomUtils.java:95-132 | It returns a point exactly when the segments intersect. For non-parallel segments the point lies on both lines. For parallel ones it is an endpoint, and it is the first segment's start whenever that start lies on the second line. |
| GeomUtils.Meet | src/main/java/com/bbn/poi/xdgf/geom/GeomUtils.java:126-131 | The parametric point computed for a non-zero determinant lies on both infinite lines. |
| GeomUtils.FindLineIntersections | src/main/java/com/bbn/poi/xdgf/geom/GeomUtils.java:58-73 | One point per item of the flattened path that meets the line, in path order: a point item gives its point, a segment item the point where it crosses the line. The list is empty exactly when no item meets the line. |
| GeomUtils.FindPointIntersections | src/main/java/com/bbn/poi/xdgf/geom/GeomUtils.java:77-88 | One entry per item of the flattened path that meets the point, in path order: the item's point for a point item, null for a segment item. The list is empty exactly when no item meets the point. |
| GeomUtils.FindPathIntersections | src/main/java/com/bbn/poi/xdgf/geom/GeomUtils.java:41-54 | No intersection is found exactly when no item of the first flattened path hits the second path. |
| GeomUtils.PathHitsAppend | src/main/java/com/bbn/poi/xdgf/geom/GeomUtils.java:41-54 | The hits of a run of items are the hits of its two parts, concatenated in order. |
| GeomUtils.FindPathIntersectionsInPlace | src/main/java/com/bbn/poi/xdgf/geom/GeomUtils.java:41-54 | Each item of the first path contributes exactly its own line or point hits, after those of the items before it and before those of the items after it. |
| GeomUtils.PathIntersectsLine | src/main/java/com/bbn/poi/xdgf/geom/GeomUtils.java:159-170 | True exactly when some item of the flattened path meets the line. |
| GeomUtils.PathIntersectsLineFinds | src/main/java/com/bbn/poi/xdgf/geom/GeomUtils.java:159-170 | The boolean test and the point-collecting search agree: the test holds exactly when the search finds a point. |
| GeomUtils.PathIntersectsPoint | src/main/java/com/bbn/poi/xdgf/geom/GeomUtils.java:177-195 | True exactly when some point item of the flattened path equals the point, or some segment item meets the 2·10⁻⁵ box centred on it. |
| GeomUtils.ItemNearPointMeaning | src/main/java/com/bbn/poi/xdgf/geom/GeomUtils.java:188 | The slab-clipping box test holds exactly when some point of the segment lies within 10⁻⁵ of the query point on both axes. |
| GeomUtils.PathIntersectsPath | src/main/java/com/bbn/poi/xdgf/geom/GeomUtils.java:140-156 | True exactly when some item of the first flattened path meets the second path. |
| GeomUtils.PathIntersectsNotSymmetric | src/main/java/com/bbn/poi/xdgf/geom/GeomUtils.java:140-195 | The path-path test is not symmetric. A degenerate path 10⁻⁶ off a horizontal segment meets it one way round but not the other. |
| GeomUtils.PathDistance | src/main/java/com/bbn/poi/xdgf/geom/GeomUtils.java:198-212 | An empty item list gives MAX_VALUE. Otherwise the result is the minimum of the item distances: at most every item's distance and equal to one of them. |
| GeomUtils.ItemStartsOnBoundary | src/main/java/com/bbn/poi/xdgf/geom/GeomUtils.java:35-37 | The start of any item lies on the path, so it is inside-or-on-boundary whatever `contains` answers. |
| Flattening.FlattenSeg | src/main/java/com/bbn/poi/xdgf/geom/GeomUtils.java:281-286 | A move, line or close passes through unchanged. A quad or cubic becomes one or more line-tos, the last ending at the curve's end point. |
| Flattening.FlattenQuadOnCurve | src/main/java/com/bbn/poi/xdgf/geom/GeomUtils.java:281-286 | Every point a quad flattens to lies on the curve, at a parameter in (0, 1]. |
| Flattening.FlattenCubicOnCurve | src/main/java/com/bbn/poi/xdgf/geom/GeomUtils.java:281-286 | Every point a cubic flattens to lies on the curve, at a parameter in (0, 1]. |
| Flattening.FlattenBound | src/main/java/com/bbn/poi/xdgf/geom/GeomUtils.java:281-286 | The subdivision limit of 10 bounds a curve to at most 2¹⁰ line-tos. |
| Flattening.FlatCurveIsChord | src/main/java/com/bbn/poi/xdgf/geom/GeomUtils.java:281-286 | A curve whose control points lie within the flatness 0.01 of its chord becomes the single line-to its end point. |
| Flattening.FlatUnchanged | src/main/java/com/bbn/poi/xdgf/geom/GeomUtils.java:281-286 | A path with only moves, lines and closes flattens to itself. |
| Flattening.FlattenedIdempotent | src/main/java/com/bbn/poi/xdgf/geom/GeomUtils.java:281-286 | Flattening a flattened path changes nothing. |
| Flattening.FlattenKeepsWellFormed | src/main/java/com/bbn/poi/xdgf/parsers/VisioPageParser.java:445 | Flattening keeps a well-formed path well formed: a leading move, and no two moves or two closes in a row. |
| Geom2D.RelativeCCW | src/main/java/com/bbn/poi/xdgf/geom/GeomUtils.java:98 | The orientation is 0 exactly when the point lies on the segment. Otherwise its sign follows the cross product, as in `Line2D.relativeCCW`. |
| Geom2D.PtLineDistSq | src/main/java/com/bbn/poi/xdgf/geom/GeomUtils.java:116-120 | It is the JDK's NaN (`None`) exactly for a zero-length segment, so no point lies on such a "line". Otherwise the value is non-negative and, times the squared length, equals the squared cross product: the squared distance to the infinite line, 0 for a point on it. |
| Geom2D.PtSegDistSq | src/main/java/com/bbn/poi/xdgf/geom/GeomUtils.java:207 | The squared distance to the segment is non-negative. It is the squared distance to `p1` when the projection falls at or before the start, to `p2` when at or past the end, and otherwise the squared cross product over the squared length: the squared distance to the line. |
| Geom2D.SegmentMeetsBoxCorrect | src/main/java/com/bbn/poi/xdgf/geom/GeomUtils.java:188 | The slab clipping used for `Line2D.intersects(rect)` agrees with "some point of the segment lies in the box". |
| Geom2D.IntersectionArea | src/main/java/com/bbn/poi/xdgf/parsers/VisioPageParser.java:224-231 | For intersecting rectangles the value is the area of the overlap rectangle, and for disjoint ones it is zero. For well-formed rectangles it is at most either area. |
| Geom2D.OverlapMeaning | src/main/java/com/bbn/poi/xdgf/parsers/VisioPageParser.java:224-231 | The overlap rectangle holds exactly the points in both rectangles. Two well-formed rectangles intersect exactly when their overlap is well formed, and then both contain its low corner. Rectangles that share a point intersect. |
| Geom2D.IntersectionAreaSymmetric | src/main/java/com/bbn/poi/xdgf/parsers/VisioPageParser.java:224-231 | The overlap area does not depend on the argument order. A rectangle overlaps itself by its whole area. |
| Paths.MoveTo | src/main/java/com/bbn/poi/xdgf/geom/GeomUtils.java:240-243 | `Path2D.moveTo` replaces a trailing move and appends one otherwise. |
| Paths.Draw | src/main/java/com/bbn/poi/xdgf/geom/GeomUtils.java:228-248 | A line, quad or cubic is appended, and drawing on an empty path is an error (no current point). |
| Paths.ClosePath | src/main/java/com/bbn/poi/xdgf/geom/GeomUtils.java:225-227 | Closing an empty path is an error, a second close is dropped, and otherwise one close is appended. |
| Paths.BuilderKeepsWellFormed | src/main/java/com/bbn/poi/xdgf/geom/GeomUtils.java:215-257 | Every builder operation keeps a path well formed: a leading move, no two moves in a row, no two closes in a row. |
| Paths.WellFormedByKinds | src/main/java/com/bbn/poi/xdgf/geom/GeomUtils.java:215-257 | Well-formedness depends only on the sequence of segment kinds. |
| Paths.Trunc | src/main/java/com/bbn/poi/xdgf/geom/GeomUtils.java:261-263 | The result lies on the 10^-precision grid, within half a grid step of the input (halves round up, as `Math.round` does), and values already on the grid are unchanged. |
| Paths.Trunc4 | src/main/java/com/bbn/poi/xdgf/geom/GeomUtils.java:265-267 | The result lies on the 10⁻⁴ grid, within half a grid step of the input (half-up), and grid values are unchanged. |
| Paths.Trunc4Idempotent | src/main/java/com/bbn/poi/xdgf/geom/GeomUtils.java:261-267 | Rounding twice equals rounding once, and `trunc4` is `trunc` with precision 4. |
| Paths.RoundPathMeaning | src/main/java/com/bbn/poi/xdgf/geom/GeomUtils.java:215-257 | Replaying a well-formed path through the builder succeeds. The result rounds every coordinate of every segment and keeps the segment kinds and the winding rule. |
| Paths.RoundPathIdempotent | src/main/java/com/bbn/poi/xdgf/geom/GeomUtils.java:215-257 | Rounding a rounded path gives the same path, and the result stays well formed. |
| Paths.Rounded | src/main/java/com/bbn/poi/xdgf/geom/GeomUtils.java:215-257 | For a well-formed path, `roundPath` never throws. Its result has the same winding rule and segment kinds and is well formed. |
| Paths.Bounds | src/main/java/com/bbn/poi/xdgf/parsers/ShapeData.java:108 | The bounding box is well formed and contains every stored point. Each of its sides is touched by some point. An empty path gives (0,0,0,0). |
| Paths.CurrentPoint | src/main/java/com/bbn/poi/xdgf/parsers/ShapeData.java:131 | `getCurrentPoint` is null exactly for the empty path. |
| Paths.CurrentPointMeaning | src/main/java/com/bbn/poi/xdgf/parsers/ShapeData.java:131 | The current point is the last segment's end point. After a close, it is the point of the move that opened the closed subpath. |
| Shapes.CompareByArea | src/main/java/com/bbn/poi/xdgf/parsers/ShapeData.java:23-28 | The comparator is negative, zero or positive exactly when the first area is larger than, equal to or smaller than the second: largest first. |
| Shapes.CompareByAreaOrder | src/main/java/com/bbn/poi/xdgf/parsers/ShapeData.java:23-28 | The comparator is antisymmetric and transitive. |
| Shapes.NewShape | src/main/java/com/bbn/poi/xdgf/parsers/ShapeData.java:58-93 | A new record is 1-d exactly when the source shape is. Its path is the rounded source path or bounds path, its bounds and area come from the rounded bounds, and it copies the id, parent and line style. It is a textbox exactly when it has text and no master. |
| Shapes.CloneShape | src/main/java/com/bbn/poi/xdgf/parsers/ShapeData.java:96-113 | A clone is 1-d with the given path, its endpoints and bounds are computed from that path, it inherits parent and line style, and it carries no text. |
| Shapes.GetPath | src/main/java/com/bbn/poi/xdgf/parsers/ShapeData.java:115-121 | `getPath` returns the 1-d path for 1-d shapes and the 2-d path otherwise. |
| Shapes.Endpoints | src/main/java/com/bbn/poi/xdgf/parsers/ShapeData.java:123-132 | A path that does not start with a move is rejected ("Invalid 1d path"). Otherwise the start is the first move's point and the end is the current point. |
| Shapes.EndpointsOfBuiltPath | src/main/java/com/bbn/poi/xdgf/parsers/ShapeData.java:123-132 | A well-formed path always has endpoints. A closed path ends at the start of its last subpath. |
| Shapes.CenterOf | src/main/java/com/bbn/poi/xdgf/parsers/ShapeData.java:134-140 | The centre lies inside the bounds, equidistant from opposite sides. |
| Shapes.SameReference | src/main/java/com/bbn/poi/xdgf/parsers/VisioPageParser.java:592 | `==` on two `Integer` line styles holds exactly when both are null, or both hold the same value and either it is in the cached range -128..127 or both are the same box. |
| PropertyGraph.GetEdge | src/main/java/com/bbn/poi/xdgf/parsers/VisioPageParser.java:731 | An edge is found exactly when one with that id exists, and the edge found has that id. |
| PropertyGraph.RemoveVertex | src/main/java/com/bbn/poi/xdgf/parsers/VisioPageParser.java:798 | Removing a vertex that is absent is an error. Otherwise the vertex is dropped together with exactly its incident edges. |
| PropertyGraph.EdgesOf | src/main/java/com/bbn/poi/xdgf/parsers/VisioPageParser.java:407 | `getEdges(BOTH)` lists exactly the edges incident to the vertex. |
| PropertyGraph.Neighbours | src/main/java/com/bbn/poi/xdgf/parsers/VisioPageParser.java:359 | `getVertices(BOTH, labels)` is exactly the set of vertices across an edge of an allowed label. |
| PropertyGraph.AtMostOneEdgePerPair | src/main/java/com/bbn/poi/xdgf/parsers/VisioPageParser.java:717-737 | In a graph built by `createEdge`, no two edges join the same pair of vertices in either direction. |
| Page.CanonicalEdge | src/main/java/com/bbn/poi/xdgf/parsers/VisioPageParser.java:723-731 | The edge runs from the smaller shape id to the larger, and its id names that ordered pair. |
| Page.CreateEdge | src/main/java/com/bbn/poi/xdgf/parsers/VisioPageParser.java:717-737 | Afterwards the pair is joined. An existing edge for the pair leaves the page unchanged; otherwise exactly the canonical edge is appended. |
| Page.CreateEdgeSymmetric | src/main/java/com/bbn/poi/xdgf/parsers/VisioPageParser.java:717-737 | Swapping the two shapes gives the same page. |
| Page.CreateEdgeIdempotent | src/main/java/com/bbn/poi/xdgf/parsers/VisioPageParser.java:730-735 | A second `createEdge` on the same pair, of any type, changes nothing. The first type is kept. |
| Page.CreateEdgeGrows | src/main/java/com/bbn/poi/xdgf/parsers/VisioPageParser.java:717-737 | Existing edges are kept in order, at most one edge is added, and the two shapes end up joined. |
| Page.CreateEdgeOrNull | src/main/java/com/bbn/poi/xdgf/parsers/VisioPageParser.java:563 | A null shape makes `createEdge` throw a NullPointerException. Otherwise it behaves as for two shapes. |
| Page.FindShape | src/main/java/com/bbn/poi/xdgf/parsers/VisioPageParser.java:740-758 | A listed id is returned directly. Otherwise the result is the nearest ancestor that is listed, or null if none is. An id that is neither listed nor on the page throws. |
| Page.Climb | src/main/java/com/bbn/poi/xdgf/parsers/VisioPageParser.java:748-755 | The climb returns a listed ancestor, or null when no ancestor is listed. |
| Page.FindTopmostParent | src/main/java/com/bbn/poi/xdgf/parsers/VisioPageParser.java:760-765 | The result is on the shape's parent chain and has no parent. A parent missing from the map is a NullPointerException. |
| Page.ShapeOfVertex | src/main/java/com/bbn/poi/xdgf/parsers/VisioPageParser.java:775-777 | The record of an edge end is the one mapped under that vertex's shape id, or null when the id is not mapped. |
| Page.Search | src/main/java/com/bbn/poi/xdgf/parsers/VisioPageParser.java:213 | The rtree search yields exactly the entries whose rectangle intersects the query. |
| Page.RemoveShape | src/main/java/com/bbn/poi/xdgf/parsers/VisioPageParser.java:796-800 | The record is marked removed, its vertex and incident edges leave the graph, and its entry leaves the rtree. Nothing else changes. Removing an absent vertex throws. |
| Page.RemoveShapeLeavesRtree | src/main/java/com/bbn/poi/xdgf/parsers/VisioPageParser.java:796-800 | After removal, no rtree search returns the shape, and the rtree still holds exactly the live records. |
| Page.CleanShapes | src/main/java/com/bbn/poi/xdgf/parsers/VisioPageParser.java:779-794 | Exactly the removed records leave the list and the map. Survivors keep their order and mapping. |
| Page.CleanShapesIdempotent | src/main/java/com/bbn/poi/xdgf/parsers/VisioPageParser.java:779-794 | Cleaning twice equals cleaning once. |
| Page.Clone1dShape | src/main/java/com/bbn/poi/xdgf/parsers/VisioPageParser.java:802-820 | The clone gets the next negative id, which is then decremented. Its vertex copies the old properties with an empty label and the new id. It enters the rtree but not the shape list or map. |
| Page.CloneIdsFresh | src/main/java/com/bbn/poi/xdgf/parsers/VisioPageParser.java:804 | A clone's id is negative, differs from every earlier record's id, and is above the next id to hand out. |
| Collect.SourceProps | src/main/java/com/bbn/poi/xdgf/parsers/VisioPageParser.java:144-155 | A new vertex carries the shape id, an empty group and no text reference. |
| Collect.VisitShape | src/main/java/com/bbn/poi/xdgf/parsers/VisioPageParser.java:125-178 | A text child of an unlabelled, listed parent of equal width gives its text to the parent and adds nothing. Any other shape gets a vertex, a record, a list slot and a map entry. A duplicate vertex id throws. |
| Collect.CollectShapes | src/main/java/com/bbn/poi/xdgf/parsers/VisioPageParser.java:115-182 | After collection, every record is live and listed once, the list is sorted largest area first, and there are no edges yet. |
| Collect.SortShapesComplete | src/main/java/com/bbn/poi/xdgf/parsers/VisioPageParser.java:181 | The sort keeps every record exactly once and orders the list by non-increasing area. |
| Collect.SortedInComparatorOrder | src/main/java/com/bbn/poi/xdgf/parsers/VisioPageParser.java:181 | The sorted list is in `OrderByLargestAreaFirst` order: the comparator is never positive for an earlier and a later element. |
| Sorting.SortDesc | src/main/java/com/bbn/poi/xdgf/parsers/VisioPageParser.java:181 | `Collections.sort` is a stable permutation into non-increasing key order. Equal keys keep their input order. |
| Sorting.SortDescSameElements | src/main/java/com/bbn/poi/xdgf/parsers/VisioPageParser.java:181 | Sorting keeps the length and exactly the elements. |
| Collect.Connect | src/main/java/com/bbn/poi/xdgf/parsers/VisioPageParser.java:699-713 | A connection joins the shapes `findShape` resolves for its two ends with a "real" edge. An unresolved from-end throws "Cannot find from node", and only the three listed errors can occur. |
| Collect.ConnectKeeps | src/main/java/com/bbn/poi/xdgf/parsers/VisioPageParser.java:186-188 | A connection adds at most one edge, of type real, and changes nothing but the edges. |
| Collect.CollectConnectionsGrows | src/main/java/com/bbn/poi/xdgf/parsers/VisioPageParser.java:185-189 | Collecting connections keeps the earlier edges, adds at most one per connection, and every added edge is real. |
| Grouping.LinkableSymmetric | src/main/java/com/bbn/poi/xdgf/parsers/VisioPageParser.java:221-233 | The linking condition is symmetric: two distinct 2-d shapes with the same non-empty symbol whose overlap is less than the smaller area. |
| Grouping.LinkAllAdds | src/main/java/com/bbn/poi/xdgf/parsers/VisioPageParser.java:213-238 | Every edge added for one shape links two shapes that satisfy the linking condition. |
| Grouping.LinkAllJoins | src/main/java/com/bbn/poi/xdgf/parsers/VisioPageParser.java:213-238 | Every search hit that satisfies the condition ends up joined to the shape. |
| Grouping.JoinShapesMeaning | src/main/java/com/bbn/poi/xdgf/parsers/VisioPageParser.java:204-239 | Over the whole list, the stage adds only linking edges and joins every pair that should be linked. |
| Grouping.JoinGroupedShapes | src/main/java/com/bbn/poi/xdgf/parsers/VisioPageParser.java:191-240 | The stage only adds edges: vertices, properties and records are unchanged. |
| Grouping.ContainedMeaning | src/main/java/com/bbn/poi/xdgf/parsers/VisioPageParser.java:262-284 | The contained list holds exactly the 2-d hits that the shape's bounds cover and that have a different top-level parent. It fails exactly when some covered hit's parent chain breaks. |
| Grouping.NeverContainsItself | src/main/java/com/bbn/poi/xdgf/parsers/VisioPageParser.java:275-280 | A shape never lands in its own contained list, because it shares its own top-level parent. |
| Grouping.SetGroups | src/main/java/com/bbn/poi/xdgf/parsers/VisioPageParser.java:289-291 | Exactly the listed shapes' vertices get the group name, and nothing else changes. |
| Grouping.MakeGroupMeaning | src/main/java/com/bbn/poi/xdgf/parsers/VisioPageParser.java:286-294 | Making a group labels every contained shape with the group shape's label and removes the group shape. Everything else is kept. |
| Grouping.GroupStepMeaning | src/main/java/com/bbn/poi/xdgf/parsers/VisioPageParser.java:253-295 | A shape is removed exactly when it was already removed or it is a labelled 2-d shape that contains others. The contained shapes then carry its label as their group. |
| Grouping.GroupStepFrame | src/main/java/com/bbn/poi/xdgf/parsers/VisioPageParser.java:253-295 | One step leaves every other record untouched. The shape itself is either unchanged or only marked removed, and only when it is a labelled 2-d shape. Geometry and lists are kept and edges only shrink. |
| Grouping.GroupAllMeaning | src/main/java/com/bbn/poi/xdgf/parsers/VisioPageParser.java:253-295 | Over the loop, only labelled 2-d shapes of the list are newly removed, removals are never undone, and edges only shrink. |
| Grouping.AddGroupLabels | src/main/java/com/bbn/poi/xdgf/parsers/VisioPageParser.java:242-298 | After the stage, the list and map hold only live records, and only labelled 2-d listed shapes were removed. |
| Splitting.HoldsEnd | src/main/java/com/bbn/poi/xdgf/parsers/VisioPageParser.java:387 | The test holds when the 2-d path contains either endpoint. It throws exactly when the start is outside and the end is null. |
| Splitting.ScanAdds | src/main/java/com/bbn/poi/xdgf/parsers/VisioPageParser.java:363-393 | Every edge the scan adds is an "inferred-2d" edge from the line to a crossing, unattached 2-d shape that holds one of its ends. |
| Splitting.ScanJoins | src/main/java/com/bbn/poi/xdgf/parsers/VisioPageParser.java:363-393 | Every crossing, unattached 2-d shape that holds one of the line's ends ends up joined to the line. |
| Splitting.ScanCollects | src/main/java/com/bbn/poi/xdgf/parsers/VisioPageParser.java:363-393 | `connections` gains exactly the crossing, unattached 2-d shapes that hold neither end. |
| Splitting.ScanFails | src/main/java/com/bbn/poi/xdgf/parsers/VisioPageParser.java:363-393 | The scan fails exactly when some search result crosses the line, is unattached, and its endpoint test throws. |
| Splitting.DetachRemoves | src/main/java/com/bbn/poi/xdgf/parsers/VisioPageParser.java:407-431 | Exactly the line's existing edges are removed from the graph. |
| Splitting.DetachSorts | src/main/java/com/bbn/poi/xdgf/parsers/VisioPageParser.java:407-431 | A neighbour lands in connected-to-start (or -end) only if its path contains the start (or end). The corrected reading never puts the line itself into `connections`. |
| Splitting.ClassifyAsWrittenAddsConnector | src/main/java/com/bbn/poi/xdgf/parsers/VisioPageParser.java:428 | As written, an out-edge to a neighbour holding neither end adds the line itself to `connections`. |
| Splitting.HitsOn | src/main/java/com/bbn/poi/xdgf/parsers/VisioPageParser.java:464-474 | For each connection in order, its hits are the points `findIntersections` reports for the segment on its path, each tagged with that connection. There are none exactly when no connection's path meets the segment. |
| Splitting.ByDistance | src/main/java/com/bbn/poi/xdgf/parsers/VisioPageParser.java:480-492 | The hits are reordered, none lost, by non-decreasing distance from the line's start. |
| Splitting.TextAfter | src/main/java/com/bbn/poi/xdgf/parsers/VisioPageParser.java:508-512 | Because `textDistance` is never lowered, the text target becomes every new piece with a non-empty item list. The last such piece wins. |
| Splitting.GiveText | src/main/java/com/bbn/poi/xdgf/parsers/VisioPageParser.java:556-560 | The chosen piece takes the line's text centre, label and text reference. A missing piece is a NullPointerException. |
| Splitting.CutAllGrows | src/main/java/com/bbn/poi/xdgf/parsers/VisioPageParser.java:494-529 | Cutting at the sorted hits only appends fresh pieces, and each piece is a clone of the line. |
| Splitting.WalkAllGrows | src/main/java/com/bbn/poi/xdgf/parsers/VisioPageParser.java:450-543 | The walk over the flattened segments only appends fresh pieces cloned from the line, and it never touches existing records. |
| Splitting.FinishNeedsCrossing | src/main/java/com/bbn/poi/xdgf/parsers/VisioPageParser.java:563 | If no split happened, the final `createEdge(lastShape, …)` throws a NullPointerException. |
| Splitting.FinishMeaning | src/main/java/com/bbn/poi/xdgf/parsers/VisioPageParser.java:546-568 | Finishing appends the last piece, hands the text on, removes the original line and its vertex, and keeps the lists. |
| Splitting.Infer2dSplits | src/main/java/com/bbn/poi/xdgf/parsers/VisioPageParser.java:354-568 | When a line is split, the original is removed and the new pieces are exactly the appended records. The lists and map are unchanged. |
| Splitting.Infer2dJoins | src/main/java/com/bbn/poi/xdgf/parsers/VisioPageParser.java:363-396 | When no shape is crossed mid-line, only "inferred-2d" edges are added, and every crossing shape holds an end and is joined to the line. |
| Inference.Infer2dAllMeaning | src/main/java/com/bbn/poi/xdgf/parsers/VisioPageParser.java:309-315 | Over the list, only 1-d listed shapes are removed (split). The appended records are exactly the fresh pieces. |
| Inference.Infer2dAllSplits | src/main/java/com/bbn/poi/xdgf/parsers/VisioPageParser.java:311-314 | The same holds when the list starts with a 1-d shape. |
| Inference.PutAllKeys | src/main/java/com/bbn/poi/xdgf/parsers/VisioPageParser.java:320-323 | After adding the pieces, the map's keys are the old keys plus the pieces' ids. |
| Inference.PutAllWins | src/main/java/com/bbn/poi/xdgf/parsers/VisioPageParser.java:320-323 | A piece whose id is not repeated later is the one mapped under that id. |
| Inference.EnlistedList | src/main/java/com/bbn/poi/xdgf/parsers/VisioPageParser.java:318-323 | After clean-and-add, the list holds exactly the live old entries and the new pieces. |
| Inference.Link1dSound | src/main/java/com/bbn/poi/xdgf/parsers/VisioPageParser.java:571-622 | Every edge added for a line is an "inferred-1d" edge to a crossing line of equal colour and the same pattern reference that shares no 2-d anchor with it. |
| Inference.Link1dComplete | src/main/java/com/bbn/poi/xdgf/parsers/VisioPageParser.java:571-622 | Every hit that passes all the tests ends up joined to the line. The pattern test compares `Integer` references, so equal patterns outside -128..127 in separate boxes do not link. |
| Inference.Link1dFails | src/main/java/com/bbn/poi/xdgf/parsers/VisioPageParser.java:593-596 | The 1-d pass fails exactly when the line has no colour and some live 1-d hit reaches the colour test. |
| Inference.Infer1dAllSound | src/main/java/com/bbn/poi/xdgf/parsers/VisioPageParser.java:330-334 | Every edge the 1-d pass adds is an inferred-1d edge allowed for some listed line. |
| Inference.Infer1dAllComplete | src/main/java/com/bbn/poi/xdgf/parsers/VisioPageParser.java:330-334 | Afterwards, every listed 1-d line is joined to every hit it should link to. |
| Inference.Infer1dAllFails | src/main/java/com/bbn/poi/xdgf/parsers/VisioPageParser.java:330-334 | The pass fails exactly when some listed 1-d line without colour has a hit that reaches the colour test. |
| Inference.InferConnectionsMeaning | src/main/java/com/bbn/poi/xdgf/parsers/VisioPageParser.java:302-334 | After the stage, only 1-d shapes were removed and only fresh pieces appended. The list holds exactly the live old and new records, and every listed 1-d line is saturated with its 1-d links. |
| Association.RectDistSq | src/main/java/com/bbn/poi/xdgf/parsers/VisioPageParser.java:648 | The rectangle distance is non-negative and zero for intersecting rectangles. |
| Association.RectDistSqMeaning | src/main/java/com/bbn/poi/xdgf/parsers/VisioPageParser.java:648 | For well-formed rectangles, no point of one lies closer to a point of the other than the rectangle distance. |
| Association.RectDistSqAttained | src/main/java/com/bbn/poi/xdgf/parsers/VisioPageParser.java:648 | Some point of each well-formed rectangle lies exactly the rectangle distance apart, so it is the least distance between their points. |
| Association.Nearest | src/main/java/com/bbn/poi/xdgf/parsers/VisioPageParser.java:648 | `nearest` yields exactly the entries closer than 0.6, closest first. |
| Association.ChosenNearest | src/main/java/com/bbn/poi/xdgf/parsers/VisioPageParser.java:648-660 | The chosen textbox is live and in range, and no live textbox in range is closer. |
| Association.ChosenNone | src/main/java/com/bbn/poi/xdgf/parsers/VisioPageParser.java:648-660 | Nothing is chosen exactly when no entry in range is a live textbox. |
| Association.RehangSound | src/main/java/com/bbn/poi/xdgf/parsers/VisioPageParser.java:667-679 | Re-hanging only removes the textbox's edges and adds reparent edges to the shape. |
| Association.RehangKeeps | src/main/java/com/bbn/poi/xdgf/parsers/VisioPageParser.java:667-679 | Edges that are not in the re-hung list survive. |
| Association.RehangJoins | src/main/java/com/bbn/poi/xdgf/parsers/VisioPageParser.java:667-679 | Every far end of a re-hung edge ends up joined to the shape. |
| Association.StealRecords | src/main/java/com/bbn/poi/xdgf/parsers/VisioPageParser.java:656-681 | Stealing gives the shape the textbox's label, text reference and text centre. It removes the textbox, its vertex, edges and rtree entry, and changes nothing else. |
| Association.StealSound | src/main/java/com/bbn/poi/xdgf/parsers/VisioPageParser.java:667-681 | Every edge after a steal either existed before or is a reparent edge at the shape. |
| Association.StealKeeps | src/main/java/com/bbn/poi/xdgf/parsers/VisioPageParser.java:667-681 | Edges not touching the textbox survive a steal. |
| Association.StealJoins | src/main/java/com/bbn/poi/xdgf/parsers/VisioPageParser.java:667-681 | Every shape the textbox was connected to becomes connected to the shape. |
| Association.Associate | src/main/java/com/bbn/poi/xdgf/parsers/VisioPageParser.java:642-686 | With no textbox in range the page is unchanged. Otherwise the shape gains text and the chosen textbox is removed. |
| Association.AssociateConsumes | src/main/java/com/bbn/poi/xdgf/parsers/VisioPageParser.java:642-686 | One association only gives text and removes textboxes. Nothing is un-removed and the geometry is kept. |
| Association.AssociateAllMeaning | src/main/java/com/bbn/poi/xdgf/parsers/VisioPageParser.java:627-633 | After the loop, every listed shape has text, is removed, or has no live textbox in range. |
| Association.AssociateText | src/main/java/com/bbn/poi/xdgf/parsers/VisioPageParser.java:624-636 | The stage keeps the page invariant and leaves only live records listed. |
| Association.AssociateTextMeaning | src/main/java/com/bbn/poi/xdgf/parsers/VisioPageParser.java:624-636 | Only textboxes are removed. Every other listed shape stays listed, and a listed shape without text has no live textbox within reach. |
| Parser.Process | src/main/java/com/bbn/poi/xdgf/parsers/VisioPageParser.java:101-112 | The six stages run in order and keep the page invariant. The final list holds only live records. |
| Parser.ProcessSettles | src/main/java/com/bbn/poi/xdgf/parsers/VisioPageParser.java:101-112 | After processing, the list is a subset of the one before text association, and no listed shape without text has a free textbox within reach. |

## Left out

- Reading the `.vsdx` package through Apache POI is not modelled. Shapes arrive as `SourceShape` records already in page coordinates, with the hierarchy as a parent map, and the global transform is not modelled.
- `Path2D.contains` is a parameter (`Inside`), because its crossing-count numerics belong to the JDK, not the parser.
- The flattening path iterator (`getPathIterator(null, 0.01)`) is modelled in exact reals: recursive midpoint subdivision with flatness 0.01 and limit 10. The JDK's in-place array handling and its floating-point flatness test are not modelled.
- The R-tree's internal structure is not modelled. Search is a filter over the entries, and `nearest` sorts by distance stably, so equal distances keep insertion order; the library leaves that tie order unspecified.
- Floating point (`float` areas, `double` coordinates) is modelled with exact reals. Java rounding error and `Math.round` overflow are not modelled.
- TinkerGraph and `HashSet` iteration orders are not modelled.
  - `getEdges(BOTH)` is a snapshot of the vertex's out-edges, then its in-edges, each in insertion order.
  - `connections` is a sequence in insertion order.
- Vertex and edge ids are not strings. An edge id is the ordered pair of shape ids that `getConnId` prints, and a vertex is keyed by its shape id.
- Vertex properties are a `Props` record holding the shape id, `name`, `type`, `is1d`, `pageName`, the symbol name, `group` and the text reference. The `"label"` property is the field `text`. Other properties the JDK graph could hold are not modelled.
- `VisioParser.java`, `Util.java`, `SemanticHelper.java`, `rx/SpatialTools.java` and `SortedOutputQueue.java` are not part of this model. `SpatialTools.getShapeBounds` is taken to be the path's bounding box.
- Splitting.Scan: an exception raised inside an `RTreeSubscriber.onNext` (`Rx.java`) ends the whole run with `Err`. In RxJava 1 the subscriber's empty `onError` swallows it and the stage goes on. The same applies to `Inference.Link1d` and `Association.Associate`.
- Page.FindTopmostParent: a missing parent is `Err(NullPointer)` rather than a precondition.
- Shapes.IntegerRef: which `Integer` box a line style value lives in is an input of the shape record, since it comes from POI's parsing.
- Paths.CurrentPoint: only paths that start with a move are modelled. `calculate1dEndpoints` rejects every other path before asking for the current point.
- Page.FindShape: the page's shape hierarchy is assumed acyclic (`Ranked`). The source's parent walk would loop on a cycle.

## Findings

| source | as written | input that shows it | evidently intended | confidence | as-written member | corrected member |
|---|---|---|---|---|---|---|
| src/main/java/com/bbn/poi/xdgf/geom/GeomUtils.java:312-319 | On a quad-to, `PathSegmentIterator` sets the cursor from `coords[4..5]`, which a quad-to does not fill. On a cubic-to it uses `coords[2..3]`, the second control point. | The path move (0,0), quad to (2,0) via (1,1), line to (3,0) yields the segment (0,0)–(3,0). With move (0,0), cubic to (3,0), line to (4,0), the line starts at the control point (2,1). | The cursor is the curve's end point (`coords[2..3]` for a quad, `coords[4..5]` for a cubic). Only paths iterated without a flatness show the difference. | not executed | Segments.QuadLeavesStaleCursor, Segments.CubicLeavesControlPoint | Segments.IntendedCursorAtPreviousEnd, Segments.VariantsAgreeOnFlat |
| src/main/java/com/bbn/poi/xdgf/parsers/VisioPageParser.java:428 | When the neighbour across an existing edge holds neither end of the line, `connections.add(in)` adds the edge's in-vertex shape. Edges run from the smaller id to the larger, so when the line has the larger id the in-vertex is the line itself. | A line with id 9 joined to shape 5 stores the edge as 5 → 9. If shape 5's path holds neither end of the line, the line itself is put into `connections` instead of shape 5. | `connections.add(other)`: the neighbour whose path the line must be split against. The pipeline runs line 428 as written (`AddsInEnd`); `Detach` takes the reading as a parameter, and the corrected reading (`AddsFarEnd`) is the one `DetachSorts` is proved for. | not executed | Splitting.ClassifyAsWrittenAddsConnector | Splitting.DetachSorts |
