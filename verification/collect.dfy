/**
 * The first two stages of `VisioPageParser.process`: one record and vertex
 * per visited shape (or, for a text shape sitting on a same-width parent,
 * the parent takes its text), ordered largest area first; then one "real"
 * edge per connection stored in the drawing.
 */
module Collect {
  import opened Wrappers
  import opened Geom2D
  import opened Paths
  import opened Errors
  import opened Seqs
  import opened Sorting
  import opened Shapes
  import opened PropertyGraph
  import opened Page

  /** An `XDGFConnection`: the ids of the shapes at its two ends. */
  datatype Connection = Connection(from: int, to: int)

  /**
   * What POI hands the parser for one page: its name, the shape tree, the
   * shapes `visitShapes` reports (in visit order, after its acceptor) and the
   * stored connections.
   */
  datatype Document = Document(pageName: string, hierarchy: Hierarchy, visited: seq<SourceShape>, connections: seq<Connection>)

  /**
   * A visited shape agrees with the tree, has an unsigned Visio id, and
   * carries paths a `Path2D` can hold.
   */
  predicate SourceOk(h: Hierarchy, s: SourceShape) {
    && s.id in h && h[s.id].parent == s.parentId && h[s.id].width == s.width
    && s.id >= 0
    && WellFormedSegs(s.boundsPath.segs) && WellFormedSegs(s.path.segs)
  }

  predicate DocumentOk(d: Document) {
    && Ranked(d.hierarchy)
    && forall i :: 0 <= i < |d.visited| ==> SourceOk(d.hierarchy, d.visited[i])
  }

  /** The tolerance on widths in the text-to-parent rule. */
  const WidthTolerance: real := 0.001

  function Abs(x: real): real { if x < 0.0 then -x else x }

  /**
   * The text-to-parent rule: a shape with text whose registered parent has
   * none and the same width (within 0.001) gives its text to the parent
   * instead of becoming a vertex.
   */
  predicate GivesTextToParent(p: Page, h: Hierarchy, s: SourceShape) {
    && s.hasText && s.parentId.Some?
    && s.parentId.value in p.shapesMap && s.parentId.value in h
    && p.shapesMap[s.parentId.value] < |p.heap|
    && !p.heap[p.shapesMap[s.parentId.value]].hasText
    && Abs(s.width - h[s.parentId.value].width) < WidthTolerance
  }

  /** What holds while shapes are being collected: nothing removed, every record listed once in order, every record a vertex. */
  predicate Collecting(p: Page) {
    && |p.shapes| == |p.heap|
    && (forall i :: 0 <= i < |p.shapes| ==> p.shapes[i] == i)
    && (forall i :: 0 <= i < |p.heap| ==> !p.heap[i].removed && p.heap[i].shapeId in p.graph.vertices)
    && (forall i :: 0 <= i < |p.heap| ==> p.heap[i].shapeId in p.shapesMap)
    && p.graph.vertices == p.graph.props.Keys
    && p.nextId == FirstSplitId
  }

  /** The page's bookkeeping while every rtree entry is still registered in the map. */
  predicate Indexed(p: Page, h: Hierarchy) {
    Tracked(p, h) && Mapped(p)
  }

  /** A change to the graph alone keeps the page's bookkeeping. */
  lemma GraphOnlyKeeps(p: Page, q: Page, h: Hierarchy)
    requires Indexed(p, h) && Valid(q) && q == p.(graph := q.graph)
    ensures Indexed(q, h)
  {
  }

  /** The vertex properties of a newly visited shape. */
  function SourceProps(pageName: string, s: SourceShape): (v: Props)
    ensures v.shapeId == s.id && v.group == "" && v.textRef.None?
  {
    Props(s.textAsString, s.id, "", s.is1d, s.name, pageName, s.symbolName, s.shapeType, None)
  }

  /** The parent takes the text: its label, text reference, text flag and (untransformed) text centre. */
  function TakeText(p: Page, pr: Ref, s: SourceShape): (q: Page)
    requires pr < |p.heap| && p.heap[pr].shapeId in p.graph.props
  {
    var v := p.heap[pr].shapeId;
    p.(heap := p.heap[pr := p.heap[pr].(hasText := true, textCenter := Some(s.localTextCenter))],
       graph := SetProps(p.graph, v, p.graph.props[v].(text := s.textContent, textRef := Some(s.id))))
  }

  lemma TakeTextKeeps(p: Page, h: Hierarchy, pr: Ref, s: SourceShape)
    requires Indexed(p, h) && Collecting(p) && pr < |p.heap|
    ensures p.heap[pr].shapeId in p.graph.props
    ensures Indexed(TakeText(p, pr, s), h) && Collecting(TakeText(p, pr, s))
  {
    TakeTextValid(p, pr, s);
    TakeTextPlaced(p, h, pr, s);
  }

  /** Taking the text keeps the page valid, mapped and collecting: only text fields and a vertex's properties change. */
  lemma TakeTextValid(p: Page, pr: Ref, s: SourceShape)
    requires Valid(p) && Mapped(p) && Collecting(p) && pr < |p.heap|
    ensures p.heap[pr].shapeId in p.graph.props
    ensures Valid(TakeText(p, pr, s)) && Mapped(TakeText(p, pr, s)) && Collecting(TakeText(p, pr, s))
  {
    var q := TakeText(p, pr, s);
    assert forall k :: k in p.shapesMap ==> p.shapesMap[k] < |p.heap|;
    assert forall i :: 0 <= i < |p.heap| ==>
      q.heap[i].shapeId == p.heap[i].shapeId && q.heap[i].removed == p.heap[i].removed;
    assert RefsOk(q);
    assert ShapesOk(q) by {
      forall i | 0 <= i < |q.heap| ensures ShapeOk(q.heap[i]) {
        assert ShapeOk(p.heap[i]);
      }
    }
  }

  /** Taking the text keeps the rtree exact and the hierarchy: bounds, parents and flags of removal are untouched. */
  lemma TakeTextPlaced(p: Page, h: Hierarchy, pr: Ref, s: SourceShape)
    requires Tracked(p, h) && pr < |p.heap| && p.heap[pr].shapeId in p.graph.props
    ensures RtreeExact(TakeText(p, pr, s)) && Hierarchical(TakeText(p, pr, s), h)
  {
    var q := TakeText(p, pr, s);
    assert forall i :: 0 <= i < |p.heap| ==>
      q.heap[i].bounds == p.heap[i].bounds && q.heap[i].parentId == p.heap[i].parentId
      && q.heap[i].removed == p.heap[i].removed;
  }

  /** A new record and vertex, the record listed last and registered under its id. */
  function Register(p: Page, sd: ShapeData, props: Props): (q: Page) {
    var (np, nr) := Append(p, sd, props, p.nextId);
    np.(shapes := np.shapes + [nr], shapesMap := np.shapesMap[sd.shapeId := nr])
  }

  /** What a record must satisfy to be registered while collecting. */
  predicate Registrable(p: Page, h: Hierarchy, sd: ShapeData, props: Props) {
    && ShapeOk(sd) && !sd.removed && props.shapeId == sd.shapeId
    && sd.shapeId >= 0 && sd.shapeId !in p.graph.vertices
    && (sd.parentId.Some? ==> sd.parentId.value in h)
    && (sd.shapeId in h ==> h[sd.shapeId].parent == sd.parentId)
  }

  lemma RegisterRefs(p: Page, h: Hierarchy, sd: ShapeData, props: Props)
    requires Valid(p) && Collecting(p) && Registrable(p, h, sd, props)
    ensures Valid(Register(p, sd, props))
  {
    AppendValid(p, sd, props, p.nextId);
    var q := Register(p, sd, props);
    var nr := |p.heap|;
    assert forall k :: k in p.shapesMap ==> p.shapesMap[k] < |p.heap|;
    assert forall i :: 0 <= i < nr ==> q.heap[i] == p.heap[i];
    assert RefsOk(q) by {
      forall k | k in q.shapesMap ensures q.shapesMap[k] < |q.heap| && q.heap[q.shapesMap[k]].shapeId == k {
        if k != sd.shapeId {
          assert p.shapesMap[k] < |p.heap|;
        }
      }
    }
  }

  lemma RegisterMapped(p: Page, h: Hierarchy, sd: ShapeData, props: Props)
    requires Valid(p) && Mapped(p) && RtreeExact(p) && Collecting(p) && Registrable(p, h, sd, props)
    ensures Mapped(Register(p, sd, props)) && RtreeExact(Register(p, sd, props))
  {
    var q := Register(p, sd, props);
    var nr := |p.heap|;
    assert forall i :: 0 <= i < nr ==> q.heap[i] == p.heap[i] && p.heap[i].shapeId != sd.shapeId;
    assert Mapped(q) by {
      forall i | 0 <= i < |q.rtree|
        ensures q.rtree[i].ref < |q.heap| && q.heap[q.rtree[i].ref].shapeId in q.shapesMap
                && q.shapesMap[q.heap[q.rtree[i].ref].shapeId] == q.rtree[i].ref
      {
        if i < |p.rtree| {
          assert q.rtree[i] == p.rtree[i];
        }
      }
    }
  }

  lemma RegisterHierarchical(p: Page, h: Hierarchy, sd: ShapeData, props: Props)
    requires RefsOk(p) && Hierarchical(p, h) && Collecting(p) && Registrable(p, h, sd, props)
    ensures Hierarchical(Register(p, sd, props), h) && Collecting(Register(p, sd, props))
  {
    var q := Register(p, sd, props);
    var nr := |p.heap|;
    assert forall i :: 0 <= i < nr ==> q.heap[i] == p.heap[i];
    assert forall k :: k in q.shapesMap && k in h ==> q.shapesMap[k] < |q.heap| && q.heap[q.shapesMap[k]].parentId == h[k].parent by {
      forall k | k in q.shapesMap && k in h ensures q.shapesMap[k] < |q.heap| && q.heap[q.shapesMap[k]].parentId == h[k].parent {
        if k != sd.shapeId {
          assert p.shapesMap[k] < |p.heap|;
        }
      }
    }
  }

  lemma RegisterKeeps(p: Page, h: Hierarchy, sd: ShapeData, props: Props)
    requires Indexed(p, h) && Collecting(p) && Registrable(p, h, sd, props)
    ensures Indexed(Register(p, sd, props), h) && Collecting(Register(p, sd, props))
  {
    RegisterRefs(p, h, sd, props);
    RegisterMapped(p, h, sd, props);
    RegisterHierarchical(p, h, sd, props);
  }

  /**
   * The visitor's `visit` for one shape: the text-to-parent rule, else a new
   * vertex (refused when its id is taken), a new record, its rtree entry, and
   * its place in the map and at the end of the list.
   */
  function VisitShape(p: Page, h: Hierarchy, s: SourceShape): (r: Result<Page, Error>)
    requires Indexed(p, h) && Collecting(p) && SourceOk(h, s)
    ensures GivesTextToParent(p, h, s) ==>
              var pr := p.shapesMap[s.parentId.value];
              && r.Ok? && |r.value.heap| == |p.heap| && r.value.graph.vertices == p.graph.vertices
              && s.parentId.value in r.value.graph.props
              && r.value.heap[pr].hasText && r.value.heap[pr].textCenter == Some(s.localTextCenter)
              && r.value.graph.props[s.parentId.value].text == s.textContent
              && r.value.graph.props[s.parentId.value].textRef == Some(s.id)
              && r.value.shapes == p.shapes && r.value.shapesMap == p.shapesMap
    ensures !GivesTextToParent(p, h, s) ==> (r.Err? <==> s.id in p.graph.vertices)
    ensures r.Err? ==> r.error == DuplicateVertex(s.id)
    ensures !GivesTextToParent(p, h, s) && r.Ok? ==>
              && r.value.heap == p.heap + [NewShape(s)]
              && r.value.shapes == p.shapes + [|p.heap|]
              && r.value.shapesMap == p.shapesMap[s.id := |p.heap|]
              && r.value.graph.vertices == p.graph.vertices + {s.id}
              && r.value.graph.props == p.graph.props[s.id := SourceProps(p.pageName, s)]
    ensures r.Ok? ==> Indexed(r.value, h) && Collecting(r.value) && r.value.graph.edges == p.graph.edges
    ensures r.Ok? ==> r.value.pageName == p.pageName
  {
    if GivesTextToParent(p, h, s) then
      var pr := MapGet(p, s.parentId.value);
      TakeTextKeeps(p, h, pr, s);
      assert p.heap[pr].shapeId == s.parentId.value;
      Ok(TakeText(p, pr, s))
    else
      var props := SourceProps(p.pageName, s);
      var _ :- AddVertex(p.graph, s.id, props);
      RegisterKeeps(p, h, NewShape(s), props);
      Ok(Register(p, NewShape(s), props))
  }

  /** Visits the shapes in order; the first exception ends the stage. */
  function VisitAll(p: Page, h: Hierarchy, ss: seq<SourceShape>): (r: Result<Page, Error>)
    requires Indexed(p, h) && Collecting(p)
    requires forall i :: 0 <= i < |ss| ==> SourceOk(h, ss[i])
    ensures r.Ok? ==> Indexed(r.value, h) && Collecting(r.value) && r.value.graph.edges == p.graph.edges
    ensures r.Ok? ==> r.value.pageName == p.pageName
    decreases |ss|
  {
    if ss == [] then Ok(p)
    else
      var q :- VisitShape(p, h, ss[0]);
      VisitAll(q, h, ss[1..])
  }

  /** The sort key of `OrderByLargestAreaFirst`. */
  function AreaOf(heap: seq<ShapeData>): Ref -> real {
    (x: Ref) => if x < |heap| then heap[x].area else 0.0
  }

  /** `Collections.sort(shapes, OrderByLargestAreaFirst)`. */
  function SortShapes(p: Page): (q: Page) {
    p.(shapes := SortDesc(p.shapes, AreaOf(p.heap)))
  }

  /** Sorting the list keeps the page's bookkeeping. */
  lemma SortShapesIndexed(p: Page, h: Hierarchy)
    requires Indexed(p, h)
    ensures Indexed(SortShapes(p), h)
  {
    SortDescSameElements(p.shapes, AreaOf(p.heap));
    var q := SortShapes(p);
    assert q == p.(shapes := q.shapes);
    assert forall x :: x in q.shapes ==> x in p.shapes;
    SortedRefsOk(p, q);
    assert q.heap == p.heap && q.rtree == p.rtree && q.shapesMap == p.shapesMap && q.graph == p.graph && q.nextId == p.nextId;
    assert Valid(q);
    assert RtreeExact(q) && Mapped(q);
    assert Hierarchical(q, h);
  }

  lemma SortedRefsOk(p: Page, q: Page)
    requires RefsOk(p) && q == p.(shapes := q.shapes) && forall x :: x in q.shapes ==> x in p.shapes
    ensures RefsOk(q)
  {
    assert forall k :: k in q.shapesMap ==> q.shapesMap[k] < |q.heap|;
    forall i | 0 <= i < |q.shapes| ensures q.shapes[i] < |q.heap| {
      assert q.shapes[i] in p.shapes;
    }
  }

  /** Sorting the complete list lists every record once, none removed. */
  lemma SortShapesComplete(p: Page)
    requires Collecting(p)
    ensures var q := SortShapes(p);
            && SortedDesc(q.shapes, AreaOf(q.heap))
            && |q.shapes| == |q.heap|
            && (forall x: Ref :: x in q.shapes <==> x < |q.heap|)
            && (forall i :: 0 <= i < |q.heap| ==> !q.heap[i].removed)
  {
    assert forall x: Ref :: x in p.shapes <==> x < |p.heap| by {
      forall x: Ref | x < |p.heap| ensures x in p.shapes {
        assert p.shapes[x] == x;
      }
    }
    SortDescSameElements(p.shapes, AreaOf(p.heap));
  }

  /**
   * `collectShapes`: visit every shape, then sort the list largest area
   * first, keeping the visit order among equal areas.
   */
  function CollectShapes(d: Document): (r: Result<Page, Error>)
    requires DocumentOk(d)
    ensures r.Ok? ==> Indexed(r.value, d.hierarchy)
    ensures r.Ok? ==> r.value.graph.edges == [] && r.value.pageName == d.pageName
    ensures r.Ok? ==> SortedDesc(r.value.shapes, AreaOf(r.value.heap))
    ensures r.Ok? ==> |r.value.shapes| == |r.value.heap| && forall x: Ref :: x in r.value.shapes <==> x < |r.value.heap|
    ensures r.Ok? ==> forall i :: 0 <= i < |r.value.heap| ==> !r.value.heap[i].removed
  {
    var p0 := EmptyPage(d.pageName);
    EmptyPageValid(d.pageName);
    var p :- VisitAll(p0, d.hierarchy, d.visited);
    SortShapesIndexed(p, d.hierarchy);
    SortShapesComplete(p);
    Ok(SortShapes(p))
  }

  /** A list sorted by area key agrees with the comparator: no shape is followed by a larger one. */
  lemma SortedInComparatorOrder(heap: seq<ShapeData>, shapes: seq<Ref>)
    requires SortedDesc(shapes, AreaOf(heap))
    requires forall i :: 0 <= i < |shapes| ==> shapes[i] < |heap|
    ensures forall i, j :: 0 <= i < j < |shapes| ==> CompareByArea(heap[shapes[i]], heap[shapes[j]]) <= 0
  {
    forall i, j | 0 <= i < j < |shapes| ensures CompareByArea(heap[shapes[i]], heap[shapes[j]]) <= 0 {
      assert AreaOf(heap)(shapes[i]) >= AreaOf(heap)(shapes[j]);
    }
  }

  // ---------------------------------------------------------------------------
  // collectConnections

  /**
   * `createEdge(XDGFShape, XDGFShape, type)` for one stored connection: both
   * ends are looked up with `findShape` (an unknown id is dereferenced as
   * null) before either result is checked.
   */
  function Connect(p: Page, h: Hierarchy, c: Connection): (r: Result<Page, Error>)
    requires Valid(p) && Ranked(h)
    ensures r.Err? ==> r.error in {NullPointer, CannotFindFrom(c.from), CannotFindTo(c.to)}
    ensures FindShape(p, h, c.from) == Ok(None) && FindShape(p, h, c.to).Ok? ==> r == Err(CannotFindFrom(c.from))
    ensures r.Ok? ==>
              && FindShape(p, h, c.from).Ok? && FindShape(p, h, c.from).value.Some?
              && FindShape(p, h, c.to).Ok? && FindShape(p, h, c.to).value.Some?
              && Found(FindShape(p, h, c.from)) < |p.heap| && Found(FindShape(p, h, c.to)) < |p.heap|
              && r.value == CreateEdge(p, Found(FindShape(p, h, c.from)), Found(FindShape(p, h, c.to)), Real)
  {
    var a :- FindShape(p, h, c.from);
    var b :- FindShape(p, h, c.to);
    if a.None? then Err(CannotFindFrom(c.from))
    else if b.None? then Err(CannotFindTo(c.to))
    else
      assert forall k :: k in p.shapesMap ==> p.shapesMap[k] < |p.heap|;
      assert a.value < |p.heap| && b.value < |p.heap|;
      Ok(CreateEdge(p, a.value, b.value, Real))
  }

  /** The shape a successful `findShape` found. */
  function Found(r: Result<Option<Ref>, Error>): Ref
    requires r.Ok? && r.value.Some?
  {
    r.value.value
  }

  lemma ConnectKeeps(p: Page, h: Hierarchy, c: Connection)
    requires Indexed(p, h) && Connect(p, h, c).Ok?
    ensures var q := Connect(p, h, c).value;
            && Indexed(q, h) && q == p.(graph := q.graph)
            && q.graph.vertices == p.graph.vertices && q.graph.props == p.graph.props
            && EdgesGrow(p, q) && |q.graph.edges| <= |p.graph.edges| + 1
            && forall i :: |p.graph.edges| <= i < |q.graph.edges| ==> q.graph.edges[i].kind == Real
  {
    var q := Connect(p, h, c).value;
    CreateEdgeGrows(p, Found(FindShape(p, h, c.from)), Found(FindShape(p, h, c.to)), Real);
    GraphOnlyKeeps(p, q, h);
  }

  /** `collectConnections`: one "real" edge per stored connection, in order. */
  function CollectConnections(p: Page, h: Hierarchy, cs: seq<Connection>): (r: Result<Page, Error>)
    requires Indexed(p, h)
    ensures r.Ok? ==> Indexed(r.value, h) && r.value == p.(graph := r.value.graph)
    ensures r.Ok? ==> r.value.graph.vertices == p.graph.vertices && r.value.graph.props == p.graph.props
    decreases |cs|
  {
    if cs == [] then Ok(p)
    else
      var q :- Connect(p, h, cs[0]);
      ConnectKeeps(p, h, cs[0]);
      CollectConnections(q, h, cs[1..])
  }

  /** The edges so far stay, and at most one "real" edge is added per stored connection. */
  lemma {:induction false} CollectConnectionsGrows(p: Page, h: Hierarchy, cs: seq<Connection>)
    requires Indexed(p, h) && CollectConnections(p, h, cs).Ok?
    ensures var r := CollectConnections(p, h, cs).value;
            && EdgesGrow(p, r) && |r.graph.edges| <= |p.graph.edges| + |cs|
            && forall i :: |p.graph.edges| <= i < |r.graph.edges| ==> r.graph.edges[i].kind == Real
    decreases |cs|
  {
    if cs != [] {
      var q := Connect(p, h, cs[0]).value;
      ConnectKeeps(p, h, cs[0]);
      var r := CollectConnections(q, h, cs[1..]).value;
      assert r == CollectConnections(p, h, cs).value;
      CollectConnectionsGrows(q, h, cs[1..]);
      EdgesGrowTransitive(p, q, r);
      assert forall i :: |p.graph.edges| <= i < |q.graph.edges| ==> r.graph.edges[i] == q.graph.edges[i];
    }
  }
}
