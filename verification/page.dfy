/**
 * The state `VisioPageParser` threads through its stages, and the helpers the
 * stages share. Java object identity of `ShapeData` is modelled by a heap of
 * records addressed by `Ref` (the order of allocation); the list `shapes`,
 * the map `shapesMap` and the rtree hold references into it, so a flag
 * written through one of them is seen through all.
 */
module Page {
  import opened Wrappers
  import opened Geom2D
  import opened Paths
  import opened Errors
  import opened Seqs
  import opened Shapes
  import opened PropertyGraph

  type Ref = nat

  /** An rtree entry: a shape and the rectangle it was added under. */
  datatype Entry = Entry(ref: Ref, rect: Rect)

  /**
   * The parser's fields. The rtree is immutable in the source and replaced
   * on every change; it is kept here as its entries in insertion order, the
   * order in which searches are taken to report them. `nextId` is
   * `shapeIdAllocator`.
   */
  datatype Page = Page(
    pageName: string,
    heap: seq<ShapeData>,
    shapes: seq<Ref>,
    shapesMap: map<int, Ref>,
    rtree: seq<Entry>,
    graph: Graph,
    nextId: int)

  /** The allocator starts at -42 and counts down. */
  const FirstSplitId: int := -42

  function EmptyPage(pageName: string): Page {
    Page(pageName, [], [], map[], [], Empty, FirstSplitId)
  }

  // ---------------------------------------------------------------------------
  // Invariants

  /** Every reference points into the heap, and the map is keyed by shape id. */
  predicate RefsOk(p: Page) {
    && (forall i :: 0 <= i < |p.shapes| ==> p.shapes[i] < |p.heap|)
    && (forall k :: k in p.shapesMap ==> p.shapesMap[k] < |p.heap|)
    && (forall k :: k in p.shapesMap ==> p.heap[p.shapesMap[k]].shapeId == k)
    && (forall i :: 0 <= i < |p.rtree| ==> p.rtree[i].ref < |p.heap|)
  }

  /** Every shape has a vertex object keyed by its id whose "shapeId" property is that id. */
  predicate VerticesOk(p: Page) {
    && (forall i :: 0 <= i < |p.heap| ==> p.heap[i].shapeId in p.graph.props)
    && (forall v :: v in p.graph.props ==> p.graph.props[v].shapeId == v)
    && p.graph.vertices <= p.graph.props.Keys
  }

  /** What both constructors and every later update keep true of a record. */
  predicate ShapeOk(sd: ShapeData) {
    && WellFormed(sd.bounds)
    && sd.area == Area(sd.bounds)
    && (sd.isTextbox ==> sd.hasText)
    && (sd.hasText ==> sd.textCenter.Some?)
  }

  predicate ShapesOk(p: Page) {
    forall i :: 0 <= i < |p.heap| ==> ShapeOk(p.heap[i])
  }

  /** Every id handed out so far is above the allocator, which is negative. */
  predicate FreshCounter(p: Page) {
    && p.nextId < 0
    && forall v :: v in p.graph.props ==> v > p.nextId
  }

  predicate Valid(p: Page) {
    && RefsOk(p)
    && VerticesOk(p)
    && ShapesOk(p)
    && Canonical(p.graph)
    && FreshCounter(p)
  }

  /** The rtree holds each live shape under its own bounds, and no removed shape. */
  predicate RtreeExact(p: Page) {
    forall i :: 0 <= i < |p.rtree| ==>
      p.rtree[i].ref < |p.heap| && p.rtree[i].rect == p.heap[p.rtree[i].ref].bounds && !p.heap[p.rtree[i].ref].removed
  }

  /** Every shape in the rtree is also the map's entry for its id (true until split pieces appear). */
  predicate Mapped(p: Page) {
    forall i :: 0 <= i < |p.rtree| ==>
      p.rtree[i].ref < |p.heap| && p.heap[p.rtree[i].ref].shapeId in p.shapesMap
      && p.shapesMap[p.heap[p.rtree[i].ref].shapeId] == p.rtree[i].ref
  }

  /** `shapesMap.get(id)` for an id the map holds: the record registered under that id. */
  function MapGet(p: Page, id: int): (r: Ref)
    requires RefsOk(p) && id in p.shapesMap
    ensures r == p.shapesMap[id] && r < |p.heap| && p.heap[r].shapeId == id
  {
    assert forall k :: k in p.shapesMap ==> p.shapesMap[k] < |p.heap|;
    p.shapesMap[id]
  }

  lemma EmptyPageValid(pageName: string)
    ensures Valid(EmptyPage(pageName)) && RtreeExact(EmptyPage(pageName)) && Mapped(EmptyPage(pageName))
  {
  }

  // ---------------------------------------------------------------------------
  // createEdge and getConnId

  /** `getConnId(from, to)`. */
  function ConnId(from: ShapeData, to: ShapeData): EdgeId {
    EdgeId(from.shapeId, to.shapeId)
  }

  /** The edge `createEdge(a, b, t)` would add: from the smaller id to the larger. */
  function CanonicalEdge(a: ShapeData, b: ShapeData, t: EdgeType): (e: Edge)
    ensures e.outV <= e.inV && e.id == EdgeId(e.outV, e.inV)
    ensures {e.outV, e.inV} == {a.shapeId, b.shapeId}
    ensures e.kind == t
  {
    if a.shapeId > b.shapeId then Edge(ConnId(b, a), b.shapeId, a.shapeId, t)
    else Edge(ConnId(a, b), a.shapeId, b.shapeId, t)
  }

  /**
   * `createEdge(ShapeData, ShapeData, type)`: adds the canonical edge unless
   * an edge with its id exists, in which case nothing changes — so the type
   * of the first edge between two shapes wins.
   */
  function CreateEdge(p: Page, a: Ref, b: Ref, t: EdgeType): (r: Page)
    requires Valid(p) && a < |p.heap| && b < |p.heap|
    ensures Valid(r)
    ensures r == p.(graph := r.graph)
    ensures r.graph.vertices == p.graph.vertices && r.graph.props == p.graph.props
    ensures var e := CanonicalEdge(p.heap[a], p.heap[b], t);
            GetEdge(r.graph, e.id).Some?
            && (GetEdge(p.graph, e.id).Some? ==> r == p)
            && (GetEdge(p.graph, e.id).None? ==> r.graph.edges == p.graph.edges + [e])
  {
    var e := CanonicalEdge(p.heap[a], p.heap[b], t);
    if GetEdge(p.graph, e.id).Some? then p
    else
      var g := AddEdge(p.graph, e);
      assert Canonical(g) by {
        forall i, j | 0 <= i < j < |g.edges| ensures g.edges[i].id != g.edges[j].id {
          if j == |p.graph.edges| {
            assert g.edges[i] == p.graph.edges[i];
          } else {
            assert g.edges[i] == p.graph.edges[i] && g.edges[j] == p.graph.edges[j];
          }
        }
      }
      assert g.edges[|p.graph.edges|] == e;
      p.(graph := g)
  }

  /** Whichever order the two shapes are given in, the same edge results. */
  lemma CreateEdgeSymmetric(p: Page, a: Ref, b: Ref, t: EdgeType)
    requires Valid(p) && a < |p.heap| && b < |p.heap|
    ensures CreateEdge(p, a, b, t) == CreateEdge(p, b, a, t)
  {
    assert CanonicalEdge(p.heap[a], p.heap[b], t) == CanonicalEdge(p.heap[b], p.heap[a], t);
  }

  /** Creating an edge twice adds it once. */
  lemma CreateEdgeIdempotent(p: Page, a: Ref, b: Ref, t: EdgeType, t2: EdgeType)
    requires Valid(p) && a < |p.heap| && b < |p.heap|
    ensures CreateEdge(CreateEdge(p, a, b, t), a, b, t2) == CreateEdge(p, a, b, t)
  {
  }

  /** `createEdge` on possibly-null shapes: a null one is dereferenced. */
  function CreateEdgeOrNull(p: Page, a: Option<Ref>, b: Option<Ref>, t: EdgeType): (r: Result<Page, Error>)
    requires Valid(p) && (a.Some? ==> a.value < |p.heap|) && (b.Some? ==> b.value < |p.heap|)
    ensures r.Err? <==> a.None? || b.None?
    ensures r.Err? ==> r.error == NullPointer
    ensures r.Ok? ==> r.value == CreateEdge(p, a.value, b.value, t)
  {
    if a.None? || b.None? then Err(NullPointer) else Ok(CreateEdge(p, a.value, b.value, t))
  }

  // ---------------------------------------------------------------------------
  // The drawing's shape hierarchy (getShapeById / getParentShape)

  /**
   * A shape of the page as the drawing stores it: its parent and its width.
   * `depth` is its level in the shape tree, so a parent's is smaller.
   */
  datatype Node = Node(parent: Option<int>, width: real, depth: nat)

  type Hierarchy = map<int, Node>

  /**
   * Parents exist and sit one or more levels up, so climbing ends. Drawing
   * ids are unsigned, which keeps them apart from the negative ids of split
   * pieces.
   */
  predicate Ranked(h: Hierarchy) {
    && (forall id :: id in h ==> id >= 0)
    && (forall id :: id in h && h[id].parent.Some? ==>
          h[id].parent.value in h && h[h[id].parent.value].depth < h[id].depth)
  }

  /** The ancestor `k` levels above `id` (`id` itself for `k == 0`). */
  function AncestorAt(h: Hierarchy, id: int, k: nat): (r: Option<int>)
    requires Ranked(h) && id in h
    ensures r.Some? ==> r.value in h
    decreases k
  {
    if k == 0 then Some(id)
    else match h[id].parent
      case None => None
      case Some(q) => AncestorAt(h, q, k - 1)
  }

  /**
   * The loop of `findShape` after the map lookup of the id itself fails:
   * climb to the parent until one is in the map or there is none.
   */
  function Climb(p: Page, h: Hierarchy, id: int): (r: Option<Ref>)
    requires Ranked(h) && id in h
    ensures r.Some? ==> r.value in p.shapesMap.Values
    ensures r.Some? ==> exists k :: 1 <= k && AncestorAt(h, id, k).Some?
                          && AncestorAt(h, id, k).value in p.shapesMap
                          && r.value == p.shapesMap[AncestorAt(h, id, k).value]
                          && forall j :: 1 <= j < k ==> AncestorAt(h, id, j).Some? && AncestorAt(h, id, j).value !in p.shapesMap
    ensures r.None? ==> forall k :: 1 <= k && AncestorAt(h, id, k).Some? ==> AncestorAt(h, id, k).value !in p.shapesMap
    decreases h[id].depth
  {
    match h[id].parent
    case None =>
      assert forall k :: 1 <= k ==> AncestorAt(h, id, k).None?;
      None
    case Some(q) =>
      assert forall k :: 1 <= k ==> AncestorAt(h, id, k) == AncestorAt(h, q, k - 1);
      if q in p.shapesMap then
        assert AncestorAt(h, id, 1) == Some(q);
        Some(p.shapesMap[q])
      else
        var r := Climb(p, h, q);
        if r.Some? then
          var k :| 1 <= k && AncestorAt(h, q, k).Some? && AncestorAt(h, q, k).value in p.shapesMap
                   && r.value == p.shapesMap[AncestorAt(h, q, k).value]
                   && forall j :: 1 <= j < k ==> AncestorAt(h, q, j).Some? && AncestorAt(h, q, j).value !in p.shapesMap;
          assert AncestorAt(h, id, k + 1) == AncestorAt(h, q, k);
          assert forall j :: 1 <= j < k + 1 ==> AncestorAt(h, id, j).Some? && AncestorAt(h, id, j).value !in p.shapesMap by {
            forall j | 1 <= j < k + 1 ensures AncestorAt(h, id, j).Some? && AncestorAt(h, id, j).value !in p.shapesMap {
              if j > 1 {
                assert AncestorAt(h, id, j) == AncestorAt(h, q, j - 1);
              }
            }
          }
          r
        else
          assert forall k :: 1 <= k && AncestorAt(h, id, k).Some? ==> AncestorAt(h, id, k).value !in p.shapesMap by {
            forall k | 1 <= k && AncestorAt(h, id, k).Some? ensures AncestorAt(h, id, k).value !in p.shapesMap {
              if k > 1 {
                assert AncestorAt(h, id, k) == AncestorAt(h, q, k - 1);
              }
            }
          }
          r
  }

  /**
   * `findShape(id)`: the shape registered under `id`, else the one of its
   * nearest ancestor that has been registered, else none. An id the page
   * does not know is dereferenced as null.
   */
  function FindShape(p: Page, h: Hierarchy, id: int): (r: Result<Option<Ref>, Error>)
    requires Ranked(h)
    ensures r.Err? <==> id !in p.shapesMap && id !in h
    ensures r.Err? ==> r.error == NullPointer
    ensures id in p.shapesMap ==> r == Ok(Some(p.shapesMap[id]))
    ensures r.Ok? && r.value.Some? ==> r.value.value in p.shapesMap.Values
    ensures id !in p.shapesMap && id in h && r.value.Some? ==>
              exists k :: 1 <= k && AncestorAt(h, id, k).Some?
                && AncestorAt(h, id, k).value in p.shapesMap
                && r.value.value == p.shapesMap[AncestorAt(h, id, k).value]
                && forall j :: 1 <= j < k ==> AncestorAt(h, id, j).Some? && AncestorAt(h, id, j).value !in p.shapesMap
    ensures id !in p.shapesMap && id in h && r.value.None? ==>
              forall k :: 1 <= k && AncestorAt(h, id, k).Some? ==> AncestorAt(h, id, k).value !in p.shapesMap
  {
    if id in p.shapesMap then Ok(Some(p.shapesMap[id]))
    else if id !in h then Err(NullPointer)
    else Ok(Climb(p, h, id))
  }

  // ---------------------------------------------------------------------------
  // findTopmostParent

  /**
   * How the records relate to the drawing: every parent id is a shape of the
   * page, and a registered source shape carries its drawing parent.
   */
  predicate Hierarchical(p: Page, h: Hierarchy) {
    && Ranked(h)
    && (forall i :: 0 <= i < |p.heap| && p.heap[i].parentId.Some? ==> p.heap[i].parentId.value in h)
    && (forall k :: k in p.shapesMap && k in h ==> p.shapesMap[k] < |p.heap| && p.heap[p.shapesMap[k]].parentId == h[k].parent)
  }

  /** How far up the hierarchy the parent chain of `sd` still reaches. */
  function ChainRank(sd: ShapeData, h: Hierarchy): nat {
    if sd.parentId.Some? && sd.parentId.value in h then h[sd.parentId.value].depth + 1 else 0
  }

  /** The record reached from `r` by following `parentId` through the map `k` times. */
  function ChainAt(p: Page, r: Ref, k: nat): (c: Option<Ref>)
    requires RefsOk(p) && r < |p.heap|
    ensures c.Some? ==> c.value < |p.heap|
    decreases k
  {
    if k == 0 then Some(r)
    else
      var pid := p.heap[r].parentId;
      if pid.Some? && pid.value in p.shapesMap then
        ChainAt(p, MapGet(p, pid.value), k - 1)
      else None
  }

  /**
   * `findTopmostParent`: follow `parentId` through the map to a record with
   * no parent. A parent id missing from the map is dereferenced as null.
   */
  function FindTopmostParent(p: Page, h: Hierarchy, r: Ref): (t: Result<Ref, Error>)
    requires Valid(p) && Hierarchical(p, h) && r < |p.heap|
    ensures t.Err? ==> t.error == NullPointer
    ensures t.Ok? ==> t.value < |p.heap| && p.heap[t.value].parentId.None?
    ensures t.Ok? ==> exists k :: ChainAt(p, r, k) == Some(t.value)
    decreases ChainRank(p.heap[r], h)
  {
    var pid := p.heap[r].parentId;
    if pid.None? then
      assert ChainAt(p, r, 0) == Some(r);
      Ok(r)
    else if pid.value !in p.shapesMap then Err(NullPointer)
    else
      var q := MapGet(p, pid.value);
      assert pid.value in h;
      assert p.heap[q].parentId == h[pid.value].parent;
      assert ChainRank(p.heap[q], h) < ChainRank(p.heap[r], h);
      var t := FindTopmostParent(p, h, q);
      if t.Ok? then
        var k: nat :| ChainAt(p, q, k) == Some(t.value);
        assert ChainAt(p, r, k + 1) == ChainAt(p, q, k);
        t
      else t
  }

  // ---------------------------------------------------------------------------
  // getShapeFromEdge, search

  /** `getShapeFromEdge`: the registered shape whose id is the vertex's "shapeId" property. */
  function ShapeOfVertex(p: Page, v: int): (r: Option<Ref>)
    requires Valid(p)
    ensures r.Some? ==> r.value < |p.heap| && v in p.shapesMap && r.value == p.shapesMap[v]
    ensures r.None? ==> v !in p.graph.props || v !in p.shapesMap
  {
    if v in p.graph.props && p.graph.props[v].shapeId in p.shapesMap then Some(p.shapesMap[p.graph.props[v].shapeId])
    else None
  }

  /** The shapes of a list of entries, in order. */
  function RefsOf(es: seq<Entry>): (r: seq<Ref>)
    ensures |r| == |es|
    ensures forall i :: 0 <= i < |es| ==> r[i] == es[i].ref
  {
    if es == [] then [] else [es[0].ref] + RefsOf(es[1..])
  }

  /** `rtree.search(rect)`: every entry whose rectangle meets `rect` (edges included). */
  function Search(p: Page, rect: Rect): (r: seq<Ref>)
    ensures forall x :: x in r <==> exists i :: 0 <= i < |p.rtree| && p.rtree[i].ref == x && Intersects(p.rtree[i].rect, rect)
  {
    var hits := Filter(p.rtree, (e: Entry) => Intersects(e.rect, rect));
    var r := RefsOf(hits);
    assert forall x :: x in r <==> exists i :: 0 <= i < |p.rtree| && p.rtree[i].ref == x && Intersects(p.rtree[i].rect, rect) by {
      forall x ensures x in r <==> exists i :: 0 <= i < |p.rtree| && p.rtree[i].ref == x && Intersects(p.rtree[i].rect, rect) {
        if x in r {
          var j :| 0 <= j < |r| && r[j] == x;
          assert hits[j] in p.rtree;
          var i :| 0 <= i < |p.rtree| && p.rtree[i] == hits[j];
        }
        if exists i :: 0 <= i < |p.rtree| && p.rtree[i].ref == x && Intersects(p.rtree[i].rect, rect) {
          var i :| 0 <= i < |p.rtree| && p.rtree[i].ref == x && Intersects(p.rtree[i].rect, rect);
          assert p.rtree[i] in hits;
          var j :| 0 <= j < |hits| && hits[j] == p.rtree[i];
          assert r[j] == x;
        }
      }
    }
    r
  }

  /** In a valid page every search result is a heap reference. */
  lemma SearchInHeap(p: Page, rect: Rect)
    requires RefsOk(p)
    ensures forall x :: x in Search(p, rect) ==> x < |p.heap|
  {
  }

  /** Every reference in `os` points into the heap. */
  predicate InHeap(p: Page, os: seq<Ref>) {
    forall i :: 0 <= i < |os| ==> os[i] < |p.heap|
  }

  /** `rtree.search(sd.bounds)`: the shapes whose rtree rectangle meets `a`'s bounds, `a` included. */
  function Around(p: Page, a: Ref): (os: seq<Ref>)
    requires Valid(p) && a < |p.heap|
    ensures InHeap(p, os)
  {
    SearchInHeap(p, p.heap[a].bounds);
    Search(p, p.heap[a].bounds)
  }

  // ---------------------------------------------------------------------------
  // removeShape, cleanShapes

  /** The records that only differ from `p`'s in their flags. */
  predicate SameGeometry(p: Page, q: Page) {
    && |q.heap| == |p.heap|
    && forall i :: 0 <= i < |p.heap| ==>
         q.heap[i].shapeId == p.heap[i].shapeId && q.heap[i].parentId == p.heap[i].parentId
         && q.heap[i].bounds == p.heap[i].bounds && q.heap[i].area == p.heap[i].area
         && q.heap[i].geom == p.heap[i].geom
         && q.heap[i].lineColor == p.heap[i].lineColor && q.heap[i].linePattern == p.heap[i].linePattern
         && q.heap[i].isTextbox == p.heap[i].isTextbox
  }

  /**
   * `removeShape`: mark the record removed, drop its vertex with every edge
   * touching it, and delete its rtree entry under its bounds. The list and
   * the map keep the record until `cleanShapes`.
   */
  function RemoveShape(p: Page, r: Ref): (q: Result<Page, Error>)
    requires Valid(p) && r < |p.heap|
    ensures q.Err? <==> p.heap[r].shapeId !in p.graph.vertices
    ensures q.Err? ==> q.error == MissingVertex(p.heap[r].shapeId)
    ensures q.Ok? ==> Valid(q.value) && SameGeometry(p, q.value)
    ensures q.Ok? ==> q.value.heap == p.heap[r := p.heap[r].(removed := true)]
    ensures q.Ok? ==> q.value.shapes == p.shapes && q.value.shapesMap == p.shapesMap && q.value.nextId == p.nextId
    ensures q.Ok? ==> forall e :: e in q.value.rtree <==> e in p.rtree && e != Entry(r, p.heap[r].bounds)
    ensures q.Ok? ==> q.value.graph.vertices == p.graph.vertices - {p.heap[r].shapeId}
    ensures q.Ok? ==> q.value.graph.props == p.graph.props
    ensures q.Ok? ==> forall e :: e in q.value.graph.edges <==> e in p.graph.edges && !Incident(e, p.heap[r].shapeId)
  {
    var sd := p.heap[r];
    var g :- RemoveVertex(p.graph, sd.shapeId);
    RemovalsKeepCanonical(p.graph, EdgeId(0, 0), sd.shapeId);
    Ok(p.(heap := p.heap[r := sd.(removed := true)],
          graph := g,
          rtree := Filter(p.rtree, (e: Entry) => e != Entry(r, sd.bounds))))
  }

  /** With the rtree exact, removing a shape keeps it exact and leaves the shape out of every later search. */
  lemma RemoveShapeLeavesRtree(p: Page, r: Ref, rect: Rect)
    requires Valid(p) && RtreeExact(p) && r < |p.heap| && RemoveShape(p, r).Ok?
    ensures RtreeExact(RemoveShape(p, r).value)
    ensures r !in Search(RemoveShape(p, r).value, rect)
  {
    var q := RemoveShape(p, r).value;
    forall i | 0 <= i < |q.rtree|
      ensures q.rtree[i].ref < |q.heap| && q.rtree[i].rect == q.heap[q.rtree[i].ref].bounds && !q.heap[q.rtree[i].ref].removed
    {
      assert q.rtree[i] in p.rtree;
    }
  }

  /** The test `cleanShapes` keeps a record by. */
  function LiveIn(heap: seq<ShapeData>): Ref -> bool {
    (x: Ref) => x < |heap| && !heap[x].removed
  }

  /**
   * `cleanShapes`: drop removed records from the map and the list; the
   * rest stay, the list in its order.
   */
  function CleanShapes(p: Page): (q: Page)
    requires Valid(p)
    ensures Valid(q)
    ensures q == p.(shapes := q.shapes, shapesMap := q.shapesMap)
    ensures forall i :: 0 <= i < |q.shapes| ==> !p.heap[q.shapes[i]].removed
    ensures forall x :: x in q.shapes <==> x in p.shapes && !p.heap[x].removed
    ensures forall k :: k in q.shapesMap <==> k in p.shapesMap && !p.heap[p.shapesMap[k]].removed
    ensures forall k :: k in q.shapesMap ==> q.shapesMap[k] == p.shapesMap[k]
    ensures |q.shapes| <= |p.shapes|
  {
    var keep := LiveIn(p.heap);
    p.(shapes := Filter(p.shapes, keep),
       shapesMap := map k | k in p.shapesMap && keep(p.shapesMap[k]) :: p.shapesMap[k])
  }

  /** Cleaning twice is cleaning once. */
  lemma CleanShapesIdempotent(p: Page)
    requires Valid(p)
    ensures CleanShapes(CleanShapes(p)) == CleanShapes(p)
  {
    var q := CleanShapes(p);
    assert q.heap == p.heap;
    FilterIdempotent(p.shapes, LiveIn(p.heap));
    assert CleanShapes(q).shapesMap == q.shapesMap;
  }

  // ---------------------------------------------------------------------------
  // clone1dShape

  /**
   * A new record with its vertex and its rtree entry: what both the visit of
   * a source shape and `clone1dShape` do before anything else.
   */
  function Append(p: Page, sd: ShapeData, props: Props, nextId: int): (q: (Page, Ref))
    ensures q.1 == |p.heap|
    ensures q.0 == p.(heap := p.heap + [sd],
                      graph := Graph(p.graph.vertices + {sd.shapeId}, p.graph.props[sd.shapeId := props], p.graph.edges),
                      rtree := p.rtree + [Entry(|p.heap|, sd.bounds)],
                      nextId := nextId)
  {
    (p.(heap := p.heap + [sd],
        graph := Graph(p.graph.vertices + {sd.shapeId}, p.graph.props[sd.shapeId := props], p.graph.edges),
        rtree := p.rtree + [Entry(|p.heap|, sd.bounds)],
        nextId := nextId),
     |p.heap|)
  }

  lemma AppendValid(p: Page, sd: ShapeData, props: Props, nextId: int)
    requires Valid(p) && ShapeOk(sd) && props.shapeId == sd.shapeId
    requires nextId <= p.nextId && nextId < sd.shapeId
    ensures Valid(Append(p, sd, props, nextId).0)
  {
    var np := Append(p, sd, props, nextId).0;
    var nr := |p.heap|;
    assert forall k :: k in p.shapesMap ==> p.shapesMap[k] < |p.heap|;
    assert forall i :: 0 <= i < nr ==> np.heap[i] == p.heap[i];
    assert RefsOk(np);
    assert VerticesOk(np);
    assert ShapesOk(np);
  }

  /**
   * `clone1dShape`: take the next id from the allocator, create its vertex
   * with the source vertex's properties (label emptied, shapeId replaced),
   * build the clone record and add it to the rtree at once. The list and the
   * map are not touched. The id is always free, so `addVertex` cannot refuse
   * it, and a built path always passes `calculate1dEndpoints`.
   */
  function Clone1dShape(p: Page, path: Path, source: Ref): (q: (Page, Ref))
    requires Valid(p) && source < |p.heap| && WellFormedSegs(path.segs)
    ensures p.nextId !in p.graph.vertices
    ensures var (np, nr) := q;
            && Valid(np)
            && nr == |p.heap| && np.heap == p.heap + [CloneShape(p.nextId, p.heap[source], path)]
            && np.nextId == p.nextId - 1
            && np.shapes == p.shapes && np.shapesMap == p.shapesMap
            && np.rtree == p.rtree + [Entry(nr, Bounds(path))]
            && np.graph.vertices == p.graph.vertices + {p.nextId}
            && np.graph.edges == p.graph.edges
            && np.graph.props == p.graph.props[p.nextId := p.graph.props[p.heap[source].shapeId].(text := "", shapeId := p.nextId)]
  {
    var id := p.nextId;
    var props := p.graph.props[p.heap[source].shapeId].(text := "", shapeId := id);
    assert AddVertex(p.graph, id, props).Ok?;
    var sd := CloneShape(id, p.heap[source], path);
    AppendValid(p, sd, props, id - 1);
    Append(p, sd, props, id - 1)
  }

  /** Split pieces get negative ids that no earlier shape has, and the allocator stays below them. */
  lemma CloneIdsFresh(p: Page, path: Path, source: Ref)
    requires Valid(p) && source < |p.heap| && WellFormedSegs(path.segs)
    ensures var nr := |p.heap|;
            var np := Clone1dShape(p, path, source).0;
            && np.heap[nr].shapeId < 0
            && (forall i :: 0 <= i < |p.heap| ==> p.heap[i].shapeId != np.heap[nr].shapeId)
            && np.nextId < np.heap[nr].shapeId
  {
    var np := Clone1dShape(p, path, source).0;
    var id := np.heap[|p.heap|].shapeId;
    assert id == p.nextId;
    IdsAboveCounter(p);
    forall i | 0 <= i < |p.heap| ensures p.heap[i].shapeId != id {
    }
  }

  lemma IdsAboveCounter(p: Page)
    requires Valid(p)
    ensures forall i :: 0 <= i < |p.heap| ==> p.heap[i].shapeId > p.nextId
  {
    forall i | 0 <= i < |p.heap| ensures p.heap[i].shapeId > p.nextId {
      assert p.heap[i].shapeId in p.graph.props;
    }
  }

  /** A new piece keeps the bookkeeping: it enters the rtree under its own bounds and has its source's parent. */
  lemma CloneKeeps(p: Page, h: Hierarchy, path: Path, source: Ref)
    requires Valid(p) && RtreeExact(p) && Hierarchical(p, h) && source < |p.heap| && WellFormedSegs(path.segs)
    ensures var np := Clone1dShape(p, path, source).0;
            Valid(np) && RtreeExact(np) && Hierarchical(np, h)
  {
    var np := Clone1dShape(p, path, source).0;
    CloneRtree(p, np, CloneShape(p.nextId, p.heap[source], path));
    CloneHierarchical(p, np, h, CloneShape(p.nextId, p.heap[source], path));
  }

  lemma CloneRtree(p: Page, np: Page, sd: ShapeData)
    requires RtreeExact(p) && !sd.removed
    requires np.heap == p.heap + [sd] && np.rtree == p.rtree + [Entry(|p.heap|, sd.bounds)]
    ensures RtreeExact(np)
  {
    forall i | 0 <= i < |np.rtree|
      ensures np.rtree[i].ref < |np.heap| && np.rtree[i].rect == np.heap[np.rtree[i].ref].bounds && !np.heap[np.rtree[i].ref].removed
    {
      if i < |p.rtree| {
        assert np.rtree[i] == p.rtree[i];
        assert np.heap[p.rtree[i].ref] == p.heap[p.rtree[i].ref];
      }
    }
  }

  lemma CloneHierarchical(p: Page, np: Page, h: Hierarchy, sd: ShapeData)
    requires RefsOk(p) && Hierarchical(p, h)
    requires sd.parentId.Some? ==> sd.parentId.value in h
    requires np.heap == p.heap + [sd] && np.shapesMap == p.shapesMap
    ensures Hierarchical(np, h)
  {
    forall i | 0 <= i < |np.heap| && np.heap[i].parentId.Some? ensures np.heap[i].parentId.value in h {
      if i < |p.heap| {
        assert np.heap[i] == p.heap[i];
      }
    }
    forall k | k in np.shapesMap && k in h
      ensures np.shapesMap[k] < |np.heap| && np.heap[np.shapesMap[k]].parentId == h[k].parent
    {
      assert np.heap[p.shapesMap[k]] == p.heap[p.shapesMap[k]];
    }
  }

  // ---------------------------------------------------------------------------
  // What the stages keep

  /** The bookkeeping every stage keeps: references, records, rtree and hierarchy agree. */
  predicate Tracked(p: Page, h: Hierarchy) {
    Valid(p) && RtreeExact(p) && Hierarchical(p, h)
  }

  /** The edges of `p` are a prefix of those of `q`. */
  predicate EdgesGrow(p: Page, q: Page) {
    |p.graph.edges| <= |q.graph.edges| && q.graph.edges[..|p.graph.edges|] == p.graph.edges
  }

  lemma EdgesGrowTransitive(p: Page, q: Page, r: Page)
    requires EdgesGrow(p, q) && EdgesGrow(q, r)
    ensures EdgesGrow(p, r)
  {
    assert r.graph.edges[..|p.graph.edges|] == r.graph.edges[..|q.graph.edges|][..|p.graph.edges|];
  }

  /** The id of the edge between the shapes with ids `x` and `y`, whichever way round they are given. */
  function PairId(x: int, y: int): (id: EdgeId)
    ensures id.from <= id.to && {id.from, id.to} == {x, y}
  {
    if x <= y then EdgeId(x, y) else EdgeId(y, x)
  }

  lemma PairIdSymmetric(x: int, y: int)
    ensures PairId(x, y) == PairId(y, x)
  {
  }

  /** The graph holds an edge between the shapes with ids `x` and `y`. */
  predicate Joined(p: Page, x: int, y: int) {
    GetEdge(p.graph, PairId(x, y)).Some?
  }

  /** Growing the edges keeps every edge id present. */
  lemma JoinedKept(p: Page, q: Page, x: int, y: int)
    requires EdgesGrow(p, q) && Joined(p, x, y)
    ensures Joined(q, x, y)
  {
    var e := GetEdge(p.graph, PairId(x, y)).value;
    var i :| 0 <= i < |p.graph.edges| && p.graph.edges[i] == e;
    assert q.graph.edges[i] == e;
  }

  /**
   * `createEdge` keeps the edges so far as a prefix, adds at most one edge,
   * of the requested type, and afterwards the two shapes are joined.
   */
  lemma CreateEdgeGrows(p: Page, a: Ref, b: Ref, t: EdgeType)
    requires Valid(p) && a < |p.heap| && b < |p.heap|
    ensures var q := CreateEdge(p, a, b, t);
            && EdgesGrow(p, q) && |q.graph.edges| <= |p.graph.edges| + 1
            && (forall i :: |p.graph.edges| <= i < |q.graph.edges| ==> q.graph.edges[i] == CanonicalEdge(p.heap[a], p.heap[b], t))
            && Joined(q, p.heap[a].shapeId, p.heap[b].shapeId)
  {
    var q := CreateEdge(p, a, b, t);
    var e := CanonicalEdge(p.heap[a], p.heap[b], t);
    assert e.id == PairId(p.heap[a].shapeId, p.heap[b].shapeId);
    if q != p {
      assert q.graph.edges[..|p.graph.edges|] == p.graph.edges;
    }
  }

  /** A change to the graph alone keeps the bookkeeping, which looks at the graph only through `Valid`. */
  lemma GraphOnlyTracked(p: Page, q: Page, h: Hierarchy)
    requires Tracked(p, h) && Valid(q) && q == p.(graph := q.graph)
    ensures Tracked(q, h)
  {
  }

  /** References into a heap stay references into any heap that extends it. */
  lemma InHeapGrows(p: Page, q: Page, os: seq<Ref>)
    requires InHeap(p, os) && |p.heap| <= |q.heap|
    ensures InHeap(q, os)
  {
  }

  lemma InHeapAppend(p: Page, os: seq<Ref>, x: Ref)
    requires InHeap(p, os) && x < |p.heap|
    ensures InHeap(p, os + [x])
  {
    assert forall i :: 0 <= i < |os| ==> (os + [x])[i] == os[i];
  }

  /** Removing a shape keeps the bookkeeping. */
  lemma RemoveShapeKeeps(p: Page, h: Hierarchy, r: Ref)
    requires Tracked(p, h) && r < |p.heap| && RemoveShape(p, r).Ok?
    ensures Tracked(RemoveShape(p, r).value, h)
  {
    RemoveShapeLeavesRtree(p, r, p.heap[r].bounds);
  }

  /** Cleaning keeps the bookkeeping. */
  lemma CleanShapesKeeps(p: Page, h: Hierarchy)
    requires Tracked(p, h)
    ensures Tracked(CleanShapes(p), h)
  {
    var q := CleanShapes(p);
    assert forall k :: k in q.shapesMap && k in h ==> k in p.shapesMap && q.shapesMap[k] == p.shapesMap[k];
  }
}
