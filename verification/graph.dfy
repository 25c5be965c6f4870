/**
 * The part of a Blueprints `TinkerGraph` the page parser uses: vertices
 * keyed by id with a property record, and labelled edges keyed by a string id.
 * Vertex ids are `pageId: shapeId` and edge ids `pageId: from -> to`; on one
 * page both are determined by the shape ids, so they are modelled by them.
 */
module PropertyGraph {
  import opened Wrappers
  import opened Errors
  import opened Seqs

  /** The edge labels the parser writes. */
  datatype EdgeType =
    | Real          // "real": a connection stored in the drawing
    | Linked        // "linked"
    | Inferred2d    // "inferred-2d"
    | SplitStart    // "inferred2d-split-start"
    | SplitMiddle   // "inferred2d-split-middle"
    | SplitNextEnd  // "inferred2d-split-next-end"
    | SplitEnd      // "inferred2d-split-end"
    | Inferred1d    // "inferred-1d"
    | Reparent      // "reparent"

  /** The vertex properties the parser sets and reads (`text` is the "label" property). */
  datatype Props = Props(
    text: string,
    shapeId: int,
    group: string,
    is1d: bool,
    name: string,
    pageName: string,
    symbolName: string,
    shapeType: string,
    textRef: Option<int>)

  /** The edge id `pageId: from -> to`; `" -> "` cannot occur in a number, so it is determined by the pair. */
  datatype EdgeId = EdgeId(from: int, to: int)

  /** An edge from its OUT vertex `outV` to its IN vertex `inV`; `kind` is its label. */
  datatype Edge = Edge(id: EdgeId, outV: int, inV: int, kind: EdgeType)

  /**
   * `vertices` are the vertices in the graph; `props` holds the property
   * record of every vertex ever created (a removed vertex object keeps its
   * properties); `edges` are kept in insertion order.
   */
  datatype Graph = Graph(vertices: set<int>, props: map<int, Props>, edges: seq<Edge>)

  const Empty: Graph := Graph({}, map[], [])

  /** `addVertex(id)` followed by the property writes; TinkerGraph refuses an id in use. */
  function AddVertex(g: Graph, v: int, p: Props): (r: Result<Graph, Error>)
    ensures r.Err? <==> v in g.vertices
    ensures r.Err? ==> r.error == DuplicateVertex(v)
    ensures r.Ok? ==> r.value.vertices == g.vertices + {v} && r.value.props == g.props[v := p]
    ensures r.Ok? ==> r.value.edges == g.edges
  {
    if v in g.vertices then Err(DuplicateVertex(v))
    else Ok(Graph(g.vertices + {v}, g.props[v := p], g.edges))
  }

  /** `setProperty` calls on a vertex object: its record changes, nothing else does. */
  function SetProps(g: Graph, v: int, p: Props): (r: Graph)
    ensures r.vertices == g.vertices && r.edges == g.edges
    ensures v in r.props && r.props[v] == p
    ensures forall w :: w in g.props && w != v ==> w in r.props && r.props[w] == g.props[w]
  {
    g.(props := g.props[v := p])
  }

  /** `getEdge(id)`: the edge with that id, if any. */
  function GetEdge(g: Graph, id: EdgeId): (r: Option<Edge>)
    ensures r.None? <==> forall i :: 0 <= i < |g.edges| ==> g.edges[i].id != id
    ensures r.Some? ==> r.value in g.edges && r.value.id == id
  {
    FirstWithId(g.edges, id)
  }

  function FirstWithId(es: seq<Edge>, id: EdgeId): (r: Option<Edge>)
    ensures r.None? <==> forall i :: 0 <= i < |es| ==> es[i].id != id
    ensures r.Some? ==> r.value in es && r.value.id == id
  {
    if es == [] then None
    else if es[0].id == id then Some(es[0])
    else
      var rest := FirstWithId(es[1..], id);
      assert forall i :: 1 <= i < |es| ==> es[i] == es[1..][i - 1];
      rest
  }

  /** `addEdge(id, out, in, label)`, called only when no edge has that id. */
  function AddEdge(g: Graph, e: Edge): (r: Graph)
    requires GetEdge(g, e.id).None?
    ensures r.vertices == g.vertices && r.props == g.props
    ensures r.edges == g.edges + [e]
  {
    g.(edges := g.edges + [e])
  }

  /** `removeEdge`: the edge is gone; the others stay, in order. */
  function RemoveEdge(g: Graph, id: EdgeId): (r: Graph)
    ensures r.vertices == g.vertices && r.props == g.props
    ensures forall e :: e in r.edges <==> e in g.edges && e.id != id
    ensures |r.edges| <= |g.edges|
  {
    g.(edges := Filter(g.edges, (e: Edge) => e.id != id))
  }

  predicate Incident(e: Edge, v: int) {
    e.outV == v || e.inV == v
  }

  /** `removeVertex`: the vertex goes with every edge touching it; TinkerGraph refuses an absent vertex. */
  function RemoveVertex(g: Graph, v: int): (r: Result<Graph, Error>)
    ensures r.Err? <==> v !in g.vertices
    ensures r.Err? ==> r.error == MissingVertex(v)
    ensures r.Ok? ==> r.value.vertices == g.vertices - {v} && r.value.props == g.props
    ensures r.Ok? ==> forall e :: e in r.value.edges <==> e in g.edges && !Incident(e, v)
  {
    if v !in g.vertices then Err(MissingVertex(v))
    else Ok(Graph(g.vertices - {v}, g.props, Filter(g.edges, (e: Edge) => !Incident(e, v))))
  }

  /**
   * `getEdges(Direction.BOTH)`: the out-edges, then the in-edges, so a loop
   * is reported twice.
   */
  function EdgesOf(g: Graph, v: int): (r: seq<Edge>)
    ensures forall e :: e in r <==> e in g.edges && Incident(e, v)
  {
    Filter(g.edges, (e: Edge) => e.outV == v) + Filter(g.edges, (e: Edge) => e.inV == v)
  }

  /** `getVertices(Direction.BOTH, labels...)`: the far ends of the edges touching `v` with a label in `labels` (all labels when `labels` is empty). */
  function Neighbours(g: Graph, v: int, labels: set<EdgeType>): (r: set<int>)
    ensures forall w :: w in r <==> exists e :: e in g.edges && (labels == {} || e.kind in labels) && ((e.outV == v && e.inV == w) || (e.inV == v && e.outV == w))
  {
    (set e | e in g.edges && (labels == {} || e.kind in labels) && e.outV == v :: e.inV)
    + (set e | e in g.edges && (labels == {} || e.kind in labels) && e.inV == v :: e.outV)
  }

  /**
   * The shape every edge has when all edges come from `createEdge`: its id
   * names its two ends in order of shape id, and no two edges share an id.
   */
  predicate Canonical(g: Graph) {
    CanonicalEdges(g.edges)
  }

  predicate CanonicalEdges(es: seq<Edge>) {
    && (forall e :: e in es ==> e.id == EdgeId(e.outV, e.inV) && e.outV <= e.inV)
    && UniqueIds(es)
  }

  predicate UniqueIds(es: seq<Edge>) {
    forall i, j :: 0 <= i < j < |es| ==> es[i].id != es[j].id
  }

  /** In a canonical graph two vertices are joined by at most one edge, whatever its direction. */
  lemma AtMostOneEdgePerPair(g: Graph, i: nat, j: nat)
    requires Canonical(g) && i < j < |g.edges|
    ensures !(g.edges[i].outV == g.edges[j].outV && g.edges[i].inV == g.edges[j].inV)
    ensures !(g.edges[i].outV == g.edges[j].inV && g.edges[i].inV == g.edges[j].outV)
  {
    assert g.edges[i] in g.edges && g.edges[j] in g.edges;
  }

  /** Removing edges or vertices keeps a graph canonical. */
  lemma RemovalsKeepCanonical(g: Graph, id: EdgeId, v: int)
    requires Canonical(g)
    ensures Canonical(RemoveEdge(g, id))
    ensures RemoveVertex(g, v).Ok? ==> Canonical(RemoveVertex(g, v).value)
  {
    FilterKeepsUniqueIds(g.edges, (e: Edge) => e.id != id);
    FilterKeepsUniqueIds(g.edges, (e: Edge) => !Incident(e, v));
  }

  lemma {:induction false} FilterKeepsUniqueIds(es: seq<Edge>, f: Edge -> bool)
    requires UniqueIds(es)
    ensures UniqueIds(Filter(es, f))
    decreases |es|
  {
    if es != [] {
      var rest := es[1..];
      UniqueTail(es);
      FilterKeepsUniqueIds(rest, f);
      var fr := Filter(rest, f);
      if f(es[0]) {
        assert Filter(es, f) == [es[0]] + fr;
        assert forall j :: 0 <= j < |fr| ==> fr[j] in rest;
        UniqueCons(es[0], fr);
      } else {
        assert Filter(es, f) == fr;
      }
    }
  }

  lemma UniqueTail(es: seq<Edge>)
    requires UniqueIds(es) && es != []
    ensures UniqueIds(es[1..]) && forall e :: e in es[1..] ==> e.id != es[0].id
  {
    var rest := es[1..];
    forall i, j | 0 <= i < j < |rest| ensures rest[i].id != rest[j].id {
      assert rest[i] == es[i + 1] && rest[j] == es[j + 1];
    }
    forall e | e in rest ensures e.id != es[0].id {
      var k :| 0 <= k < |rest| && rest[k] == e;
      assert es[k + 1] == e;
    }
  }

  lemma UniqueCons(e: Edge, t: seq<Edge>)
    requires UniqueIds(t) && forall j :: 0 <= j < |t| ==> t[j].id != e.id
    ensures UniqueIds([e] + t)
  {
    var r := [e] + t;
    forall i, j | 0 <= i < j < |r| ensures r[i].id != r[j].id {
      assert r[j] == t[j - 1];
      if i > 0 {
        assert r[i] == t[i - 1];
      }
    }
  }
}
