/**
 * `inferConnections`: the pass that splits every connector at the shapes it
 * crosses, the registration of the pieces once the pass is over, and the
 * pass that joins overlapping lines of the same style (`infer1dConnections`).
 */
module Inference {
  import opened Wrappers
  import opened Geom2D
  import opened Paths
  import opened Errors
  import opened Seqs
  import opened Shapes
  import opened PropertyGraph
  import opened Page
  import opened GeomUtils
  import opened Splitting

  // ---------------------------------------------------------------------------
  // The splitting pass

  /**
   * Every record of `h0` keeps its place in `h1`; only a 1-D record among
   * `rs` may have been marked removed.
   */
  predicate Marked(h0: seq<ShapeData>, h1: seq<ShapeData>, rs: seq<Ref>) {
    && |h0| <= |h1|
    && forall i :: 0 <= i < |h0| ==> h1[i] == h0[i] || (i in rs && Is1d(h0[i]) && h1[i] == h0[i].(removed := true))
  }

  /** The records after those of `h0` are live 1-D pieces with negative ids. */
  predicate FreshPieces(h0: seq<ShapeData>, h1: seq<ShapeData>) {
    forall i :: |h0| <= i < |h1| ==> Is1d(h1[i]) && !h1[i].removed && h1[i].shapeId < 0
  }

  /** A split marks the connector and adds live pieces. */
  lemma SplitMarks(h0: seq<ShapeData>, a: Ref, h1: seq<ShapeData>)
    requires a < |h0| && Is1d(h0[a]) && SplitHeap(h0, a, h1)
    ensures Marked(h0, h1, [a]) && FreshPieces(h0, h1)
  {
    assert forall i :: |h0| <= i < |h1| ==> PieceOf(h1[i], h0[a]);
  }

  /** What one call of `infer2dConnections` does to the records, the list and the map. */
  lemma Infer2dStep(p: Page, h: Hierarchy, contains: Inside, a: Ref)
    requires Tracked(p, h) && a < |p.heap| && Is1d(p.heap[a])
    ensures Infer2d(p, h, contains, a).Ok? ==>
              var (q, ps) := Infer2d(p, h, contains, a).value;
              && Marked(p.heap, q.heap, [a]) && FreshPieces(p.heap, q.heap)
              && ps == Span(|p.heap|, |q.heap|)
              && q.shapes == p.shapes && q.shapesMap == p.shapesMap
  {
    var r := Infer2d(p, h, contains, a);
    Infer2dSplits(p, h, contains, a);
    Infer2dJoins(p, h, contains, a);
    if r.Ok? && r.value.1 != [] {
      SplitMarks(p.heap, a, r.value.0.heap);
    }
  }

  /**
   * The loop of `inferConnections` over `shapes`: `infer2dConnections` on
   * every 1-D shape, collecting the pieces (`newShapes`) in the order they
   * are made.
   */
  function Infer2dAll(p: Page, h: Hierarchy, contains: Inside, rs: seq<Ref>): (r: Result<(Page, seq<Ref>), Error>)
    requires Tracked(p, h) && InHeap(p, rs)
    ensures r.Ok? ==> Tracked(r.value.0, h) && |r.value.0.heap| >= |p.heap|
    decreases |rs|
  {
    if rs == [] then Ok((p, []))
    else if !Is1d(p.heap[rs[0]]) then
      assert InHeap(p, rs[1..]);
      Infer2dAll(p, h, contains, rs[1..])
    else
      var s :- Infer2d(p, h, contains, rs[0]);
      Infer2dStep(p, h, contains, rs[0]);
      assert InHeap(s.0, rs[1..]);
      var t :- Infer2dAll(s.0, h, contains, rs[1..]);
      Ok((t.0, s.1 + t.1))
  }

  lemma MarkedWider(h0: seq<ShapeData>, h1: seq<ShapeData>, rs: seq<Ref>)
    requires rs != [] && Marked(h0, h1, rs[1..])
    ensures Marked(h0, h1, rs)
  {
    assert forall i :: i in rs[1..] ==> i in rs;
  }

  /** One split followed by the rest of the pass. */
  lemma MarkedCompose(h0: seq<ShapeData>, h1: seq<ShapeData>, h2: seq<ShapeData>, rs: seq<Ref>)
    requires rs != [] && forall j :: 0 <= j < |rs| ==> rs[j] < |h0|
    requires Marked(h0, h1, [rs[0]]) && FreshPieces(h0, h1)
    requires Marked(h1, h2, rs[1..]) && FreshPieces(h1, h2)
    ensures Marked(h0, h2, rs) && FreshPieces(h0, h2)
  {
    forall i | 0 <= i < |h0|
      ensures h2[i] == h0[i] || (i in rs && Is1d(h0[i]) && h2[i] == h0[i].(removed := true))
    {
      if h1[i] != h0[i] {
        assert i == rs[0];
        if h2[i] != h1[i] {
          assert i in rs[1..];
        }
      } else if h2[i] != h1[i] {
        assert i in rs[1..];
        assert i in rs;
      }
    }
    forall i | |h0| <= i < |h2|
      ensures Is1d(h2[i]) && !h2[i].removed && h2[i].shapeId < 0
    {
      if i < |h1| {
        assert i !in rs[1..];
        assert h2[i] == h1[i];
      }
    }
  }

  /**
   * The splitting pass as a whole: the records made are exactly the pieces
   * it reports, in order, each a live 1-D record with a negative id; an
   * earlier record changes at most by being marked removed, and only a 1-D
   * shape of the list is; the list and the map are untouched.
   */
  lemma {:induction false} Infer2dAllMeaning(p: Page, h: Hierarchy, contains: Inside, rs: seq<Ref>)
    requires Tracked(p, h) && InHeap(p, rs)
    ensures Infer2dAll(p, h, contains, rs).Ok? ==>
              var (q, ps) := Infer2dAll(p, h, contains, rs).value;
              && Marked(p.heap, q.heap, rs) && FreshPieces(p.heap, q.heap)
              && ps == Span(|p.heap|, |q.heap|)
              && q.shapes == p.shapes && q.shapesMap == p.shapesMap
    decreases |rs|, 1
  {
    if rs != [] {
      assert InHeap(p, rs[1..]);
      if !Is1d(p.heap[rs[0]]) {
        Infer2dAllMeaning(p, h, contains, rs[1..]);
        if Infer2dAll(p, h, contains, rs).Ok? {
          MarkedWider(p.heap, Infer2dAll(p, h, contains, rs).value.0.heap, rs);
        }
      } else {
        Infer2dAllSplits(p, h, contains, rs);
      }
    }
  }

  /** `Infer2dAllMeaning` when the first shape is a connector. */
  lemma {:induction false} Infer2dAllSplits(p: Page, h: Hierarchy, contains: Inside, rs: seq<Ref>)
    requires Tracked(p, h) && InHeap(p, rs) && rs != [] && Is1d(p.heap[rs[0]])
    ensures Infer2dAll(p, h, contains, rs).Ok? ==>
              var (q, ps) := Infer2dAll(p, h, contains, rs).value;
              && Marked(p.heap, q.heap, rs) && FreshPieces(p.heap, q.heap)
              && ps == Span(|p.heap|, |q.heap|)
              && q.shapes == p.shapes && q.shapesMap == p.shapesMap
    decreases |rs|, 0
  {
    var s := Infer2d(p, h, contains, rs[0]);
    Infer2dStep(p, h, contains, rs[0]);
    if s.Ok? {
      var q1 := s.value.0;
      assert InHeap(q1, rs[1..]);
      Infer2dAllMeaning(q1, h, contains, rs[1..]);
      var t := Infer2dAll(q1, h, contains, rs[1..]);
      if t.Ok? {
        MarkedCompose(p.heap, q1.heap, t.value.0.heap, rs);
        SpanJoin(|p.heap|, |q1.heap|, |t.value.0.heap|);
      }
    }
  }

  // ---------------------------------------------------------------------------
  // Registering the pieces

  /** Every key of `m` names a record of `heap` carrying that id. */
  predicate KeysName(m: map<int, Ref>, heap: seq<ShapeData>) {
    forall k :: k in m ==> m[k] < |heap| && heap[m[k]].shapeId == k
  }

  /** `shapesMap.put(sd.shapeId, sd)` for each piece in turn. */
  function PutAll(m: map<int, Ref>, heap: seq<ShapeData>, ps: seq<Ref>): (r: map<int, Ref>)
    requires KeysName(m, heap) && forall i :: 0 <= i < |ps| ==> ps[i] < |heap|
    ensures KeysName(r, heap)
    decreases |ps|
  {
    if ps == [] then m
    else PutAll(m[heap[ps[0]].shapeId := ps[0]], heap, ps[1..])
  }

  /** The keys afterwards: the old ones and the ids of the pieces. */
  lemma {:induction false} PutAllKeys(m: map<int, Ref>, heap: seq<ShapeData>, ps: seq<Ref>)
    requires KeysName(m, heap) && forall i :: 0 <= i < |ps| ==> ps[i] < |heap|
    ensures forall k :: k in PutAll(m, heap, ps) <==> k in m || exists i :: 0 <= i < |ps| && heap[ps[i]].shapeId == k
    decreases |ps|
  {
    if ps != [] {
      PutAllKeys(m[heap[ps[0]].shapeId := ps[0]], heap, ps[1..]);
      assert forall i :: 1 <= i < |ps| ==> ps[i] == ps[1..][i - 1];
      forall k | exists i :: 0 <= i < |ps| && heap[ps[i]].shapeId == k
        ensures k in PutAll(m, heap, ps)
      {
        var i :| 0 <= i < |ps| && heap[ps[i]].shapeId == k;
        if i > 0 {
          assert ps[1..][i - 1] == ps[i];
        }
      }
    }
  }

  /** A key no piece carries keeps its entry. */
  lemma {:induction false} PutAllKeeps(m: map<int, Ref>, heap: seq<ShapeData>, ps: seq<Ref>, k: int)
    requires KeysName(m, heap) && forall i :: 0 <= i < |ps| ==> ps[i] < |heap|
    requires k in m && forall i :: 0 <= i < |ps| ==> heap[ps[i]].shapeId != k
    ensures k in PutAll(m, heap, ps) && PutAll(m, heap, ps)[k] == m[k]
    decreases |ps|
  {
    if ps != [] {
      assert forall i :: 0 <= i < |ps[1..]| ==> ps[1..][i] == ps[i + 1];
      PutAllKeeps(m[heap[ps[0]].shapeId := ps[0]], heap, ps[1..], k);
    }
  }

  /** A piece whose id no later piece carries ends up under its id. */
  lemma {:induction false} PutAllWins(m: map<int, Ref>, heap: seq<ShapeData>, ps: seq<Ref>, i: nat)
    requires KeysName(m, heap) && forall j :: 0 <= j < |ps| ==> ps[j] < |heap|
    requires i < |ps| && forall j :: i < j < |ps| ==> heap[ps[j]].shapeId != heap[ps[i]].shapeId
    ensures heap[ps[i]].shapeId in PutAll(m, heap, ps) && PutAll(m, heap, ps)[heap[ps[i]].shapeId] == ps[i]
    decreases |ps|
  {
    var m' := m[heap[ps[0]].shapeId := ps[0]];
    assert forall j :: 0 <= j < |ps[1..]| ==> ps[1..][j] == ps[j + 1];
    if i == 0 {
      PutAllKeeps(m', heap, ps[1..], heap[ps[0]].shapeId);
    } else {
      PutAllWins(m', heap, ps[1..], i - 1);
    }
  }

  /**
   * The loop after `cleanShapes` in `inferConnections`: each piece is
   * appended to `shapes` and put in `shapesMap` under its id.
   */
  function Enlist(p: Page, ps: seq<Ref>): (r: Page)
    requires Valid(p) && InHeap(p, ps)
    ensures Valid(r)
    ensures r == p.(shapes := p.shapes + ps, shapesMap := PutAll(p.shapesMap, p.heap, ps))
  {
    var r := p.(shapes := p.shapes + ps, shapesMap := PutAll(p.shapesMap, p.heap, ps));
    assert forall i :: 0 <= i < |r.shapes| ==> r.shapes[i] < |r.heap|;
    r
  }

  /** Pieces have negative ids, which the drawing's tree never holds, so registering them keeps the bookkeeping. */
  lemma EnlistTracked(p: Page, h: Hierarchy, ps: seq<Ref>)
    requires Tracked(p, h) && InHeap(p, ps)
    requires forall i :: 0 <= i < |ps| ==> p.heap[ps[i]].shapeId < 0
    ensures Tracked(Enlist(p, ps), h)
  {
    var r := Enlist(p, ps);
    PutAllKeys(p.shapesMap, p.heap, ps);
    forall k | k in r.shapesMap && k in h
      ensures r.shapesMap[k] < |r.heap| && r.heap[r.shapesMap[k]].parentId == h[k].parent
    {
      assert k >= 0;
      assert forall i :: 0 <= i < |ps| ==> p.heap[ps[i]].shapeId != k;
      PutAllKeeps(p.shapesMap, p.heap, ps, k);
    }
  }

  // ---------------------------------------------------------------------------
  // infer1dConnections

  /** `attached`: the shapes joined to `a` by a "real" edge. */
  function Attached(p: Page, a: Ref): set<int>
    requires a < |p.heap|
  {
    Neighbours(p.graph, p.heap[a].shapeId, {Real})
  }

  /**
   * The tests on a search hit `o` that do not look at the graph: another
   * live 1-D shape, of equal line colour (`equals`) and the same line
   * pattern reference (`!=` on two `Integer`s, see `SameReference`) as `a`,
   * whose path meets `a`'s.
   */
  predicate Style1d(heap: seq<ShapeData>, a: Ref, o: Ref)
    requires a < |heap| && o < |heap| && Is1d(heap[a])
  {
    && o != a && !heap[o].removed && Is1d(heap[o])
    && heap[a].lineColor.Some? && heap[a].lineColor == heap[o].lineColor
    && heap[a].linePattern == heap[o].linePattern
    && PathIntersectsPath(heap[a].geom.path1D, heap[o].geom.path1D)
  }

  /** The veto: some neighbour of the shape with id `id` is a 2-D shape among `attached`. */
  predicate SharesAnchor(g: Graph, id: int, attached: set<int>) {
    exists v :: v in attached && v in Neighbours(g, id, {}) && v in g.props && !g.props[v].is1d
  }

  /** `infer1dConnections(a)` joins `a` to the hit `o`. */
  predicate Links1d(p: Page, a: Ref, attached: set<int>, o: Ref)
    requires a < |p.heap| && o < |p.heap| && Is1d(p.heap[a])
  {
    Style1d(p.heap, a, o) && !SharesAnchor(p.graph, p.heap[o].shapeId, attached)
  }

  /** A hit the subscriber looks at past its first test: another live 1-D shape. */
  predicate Candidate1d(heap: seq<ShapeData>, a: Ref, o: Ref)
    requires o < |heap|
  {
    o != a && !heap[o].removed && Is1d(heap[o])
  }

  /** What the subscriber does with one hit that does not throw. */
  function Link1dNext(p: Page, a: Ref, attached: set<int>, o: Ref): (q: Page)
    requires Valid(p) && a < |p.heap| && Is1d(p.heap[a]) && o < |p.heap|
    ensures Valid(q) && q == p.(graph := q.graph) && q.graph.vertices == p.graph.vertices
    ensures q.graph.props == p.graph.props && EdgesGrow(p, q)
    ensures forall i :: |p.graph.edges| <= i < |q.graph.edges| ==>
              Links1d(p, a, attached, o) && q.graph.edges[i] == CanonicalEdge(p.heap[a], p.heap[o], Inferred1d)
    ensures Links1d(p, a, attached, o) ==> Joined(q, p.heap[a].shapeId, p.heap[o].shapeId)
  {
    CreateEdgeGrows(p, a, o, Inferred1d);
    if Links1d(p, a, attached, o) then CreateEdge(p, a, o, Inferred1d) else p
  }

  /**
   * The subscriber of `infer1dConnections` over the hits `os`: hits that
   * are not other live 1-D shapes are skipped; on the others the colour
   * comparison dereferences `a`'s line colour, which throws when it is null;
   * the rest get an "inferred-1d" edge when they pass every test.
   */
  function Link1d(p: Page, a: Ref, attached: set<int>, os: seq<Ref>): (r: Result<Page, Error>)
    requires Valid(p) && a < |p.heap| && Is1d(p.heap[a]) && InHeap(p, os)
    ensures r.Ok? ==> Valid(r.value) && r.value == p.(graph := r.value.graph)
    ensures r.Ok? ==> r.value.graph.vertices == p.graph.vertices && r.value.graph.props == p.graph.props
    ensures r.Ok? ==> EdgesGrow(p, r.value)
    decreases |os|
  {
    if os == [] then Ok(p)
    else
      assert InHeap(p, os[1..]);
      if Candidate1d(p.heap, a, os[0]) && p.heap[a].lineColor.None? then Err(NullPointer)
      else
        var q := Link1dNext(p, a, attached, os[0]);
        var r := Link1d(q, a, attached, os[1..]);
        if r.Ok? then
          EdgesGrowTransitive(p, q, r.value);
          r
        else r
  }

  /** More edges and the same vertex records keep a veto. */
  lemma AnchorKept(g: Graph, g': Graph, id: int, attached: set<int>)
    requires |g.edges| <= |g'.edges| && g'.edges[..|g.edges|] == g.edges && g'.props == g.props
    requires SharesAnchor(g, id, attached)
    ensures SharesAnchor(g', id, attached)
  {
    var v :| v in attached && v in Neighbours(g, id, {}) && v in g.props && !g.props[v].is1d;
    var e :| e in g.edges && ((e.outV == id && e.inV == v) || (e.inV == id && e.outV == v));
    var i :| 0 <= i < |g.edges| && g.edges[i] == e;
    assert g'.edges[i] == e;
    assert v in Neighbours(g', id, {});
  }

  /** A hit that links after some edges were added linked before them too. */
  lemma LinksEarlier(p: Page, q: Page, a: Ref, attached: set<int>, o: Ref)
    requires a < |p.heap| && o < |p.heap| && Is1d(p.heap[a])
    requires q == p.(graph := q.graph) && q.graph.props == p.graph.props && EdgesGrow(p, q)
    requires Links1d(q, a, attached, o)
    ensures Links1d(p, a, attached, o)
  {
    if SharesAnchor(p.graph, p.heap[o].shapeId, attached) {
      AnchorKept(p.graph, q.graph, p.heap[o].shapeId, attached);
    }
  }

  /**
   * Every edge of `r` past those of `p` is an "inferred-1d" edge from `a`
   * to one of the hits `os` that passes every test in `p`.
   */
  predicate AddedLinks(p: Page, a: Ref, attached: set<int>, os: seq<Ref>, r: Page)
    requires a < |p.heap| && Is1d(p.heap[a]) && InHeap(p, os)
  {
    forall i :: |p.graph.edges| <= i < |r.graph.edges| ==> AddedLink(p, a, attached, os, r.graph.edges[i])
  }

  /** `e` is an "inferred-1d" edge from `a` to one of the hits `os` that passes every test in `p`. */
  predicate AddedLink(p: Page, a: Ref, attached: set<int>, os: seq<Ref>, e: Edge)
    requires a < |p.heap| && Is1d(p.heap[a]) && InHeap(p, os)
  {
    exists j :: 0 <= j < |os| && Links1d(p, a, attached, os[j])
                && e == CanonicalEdge(p.heap[a], p.heap[os[j]], Inferred1d)
  }

  /**
   * Soundness of `infer1dConnections`: every edge it adds is an
   * "inferred-1d" edge from `a` to a hit that passes every test, the veto
   * read in the graph it started from.
   */
  lemma {:induction false} Link1dSound(p: Page, a: Ref, attached: set<int>, os: seq<Ref>)
    requires Valid(p) && a < |p.heap| && Is1d(p.heap[a]) && InHeap(p, os)
    requires Link1d(p, a, attached, os).Ok?
    ensures AddedLinks(p, a, attached, os, Link1d(p, a, attached, os).value)
    decreases |os|
  {
    if os != [] {
      var rest := os[1..];
      assert InHeap(p, rest);
      var q := Link1dNext(p, a, attached, os[0]);
      assert Link1d(p, a, attached, os) == Link1d(q, a, attached, rest);
      Link1dSound(q, a, attached, rest);
      AddedLinksCons(p, q, a, attached, os, Link1d(p, a, attached, os).value);
    }
  }

  /** One step of `Link1dSound`: the edges of the first hit, then those of the rest. */
  lemma AddedLinksCons(p: Page, q: Page, a: Ref, attached: set<int>, os: seq<Ref>, r: Page)
    requires Valid(p) && a < |p.heap| && Is1d(p.heap[a]) && InHeap(p, os) && os != []
    requires q == Link1dNext(p, a, attached, os[0]) && EdgesGrow(q, r)
    requires AddedLinks(q, a, attached, os[1..], r)
    ensures AddedLinks(p, a, attached, os, r)
  {
    var rest := os[1..];
    forall i | |p.graph.edges| <= i < |r.graph.edges|
      ensures exists j :: 0 <= j < |os| && Links1d(p, a, attached, os[j])
                          && r.graph.edges[i] == CanonicalEdge(p.heap[a], p.heap[os[j]], Inferred1d)
    {
      if i < |q.graph.edges| {
        assert r.graph.edges[i] == q.graph.edges[i];
        assert Links1d(p, a, attached, os[0]);
      } else {
        assert |q.graph.edges| <= i < |r.graph.edges|;
        assert exists j :: 0 <= j < |rest| && Links1d(q, a, attached, rest[j])
                 && r.graph.edges[i] == CanonicalEdge(q.heap[a], q.heap[rest[j]], Inferred1d);
        var j :| 0 <= j < |rest| && Links1d(q, a, attached, rest[j])
                 && r.graph.edges[i] == CanonicalEdge(q.heap[a], q.heap[rest[j]], Inferred1d);
        LinksEarlier(p, q, a, attached, rest[j]);
        assert os[j + 1] == rest[j];
      }
    }
  }

  /**
   * Completeness of `infer1dConnections`: every hit that still passes every
   * test once the subscriber is done is joined to `a`.
   */
  lemma {:induction false} Link1dComplete(p: Page, a: Ref, attached: set<int>, os: seq<Ref>)
    requires Valid(p) && a < |p.heap| && Is1d(p.heap[a]) && InHeap(p, os)
    requires Link1d(p, a, attached, os).Ok?
    ensures var r := Link1d(p, a, attached, os).value;
            forall j :: 0 <= j < |os| && Links1d(r, a, attached, os[j]) ==>
              Joined(r, p.heap[a].shapeId, p.heap[os[j]].shapeId)
    decreases |os|
  {
    if os != [] {
      var rest := os[1..];
      assert InHeap(p, rest);
      var q := Link1dNext(p, a, attached, os[0]);
      assert Link1d(p, a, attached, os) == Link1d(q, a, attached, rest);
      Link1dComplete(q, a, attached, rest);
      var r := Link1d(p, a, attached, os).value;
      forall j | 0 <= j < |os| && Links1d(r, a, attached, os[j])
        ensures Joined(r, p.heap[a].shapeId, p.heap[os[j]].shapeId)
      {
        if j == 0 {
          LinksEarlier(p, r, a, attached, os[0]);
          JoinedKept(q, r, p.heap[a].shapeId, p.heap[os[0]].shapeId);
        } else {
          assert os[j] == rest[j - 1];
        }
      }
    }
  }

  /**
   * `infer1dConnections` throws exactly when `a` has no line colour and
   * some hit is another live 1-D shape.
   */
  lemma {:induction false} Link1dFails(p: Page, a: Ref, attached: set<int>, os: seq<Ref>)
    requires Valid(p) && a < |p.heap| && Is1d(p.heap[a]) && InHeap(p, os)
    ensures Link1d(p, a, attached, os).Err? <==>
              p.heap[a].lineColor.None? && exists j :: 0 <= j < |os| && Candidate1d(p.heap, a, os[j])
    decreases |os|
  {
    if os != [] {
      var rest := os[1..];
      assert InHeap(p, rest);
      var q := Link1dNext(p, a, attached, os[0]);
      Link1dFails(q, a, attached, rest);
      if exists j :: 0 <= j < |rest| && Candidate1d(p.heap, a, rest[j]) {
        var j :| 0 <= j < |rest| && Candidate1d(p.heap, a, rest[j]);
        assert os[j + 1] == rest[j];
      }
      if exists j :: 0 <= j < |os| && Candidate1d(p.heap, a, os[j]) {
        var j :| 0 <= j < |os| && Candidate1d(p.heap, a, os[j]);
        if j > 0 {
          assert rest[j - 1] == os[j];
        }
      }
    }
  }

  /** `infer1dConnections(a)`: the subscriber over the search around `a`'s bounds. */
  function Infer1d(p: Page, a: Ref): (r: Result<Page, Error>)
    requires Valid(p) && a < |p.heap| && Is1d(p.heap[a])
    ensures r.Ok? ==> Valid(r.value) && r.value == p.(graph := r.value.graph)
    ensures r.Ok? ==> r.value.graph.vertices == p.graph.vertices && r.value.graph.props == p.graph.props
    ensures r.Ok? ==> EdgesGrow(p, r.value)
  {
    Link1d(p, a, Attached(p, a), Around(p, a))
  }

  /** The second loop of `inferConnections`: `infer1dConnections` on every 1-D shape of `rs`. */
  function Infer1dAll(p: Page, rs: seq<Ref>): (r: Result<Page, Error>)
    requires Valid(p) && InHeap(p, rs)
    ensures r.Ok? ==> Valid(r.value) && r.value == p.(graph := r.value.graph)
    ensures r.Ok? ==> r.value.graph.vertices == p.graph.vertices && r.value.graph.props == p.graph.props
    ensures r.Ok? ==> EdgesGrow(p, r.value)
    decreases |rs|
  {
    if rs == [] then Ok(p)
    else
      assert InHeap(p, rs[1..]);
      if !Is1d(p.heap[rs[0]]) then Infer1dAll(p, rs[1..])
      else
        var q :- Infer1d(p, rs[0]);
        var r :- Infer1dAll(q, rs[1..]);
        EdgesGrowTransitive(p, q, r);
        Ok(r)
  }

  /** The search only looks at the records and the rtree, which a graph change leaves alone. */
  lemma AroundSame(p: Page, q: Page, a: Ref)
    requires Valid(p) && Valid(q) && q == p.(graph := q.graph) && a < |p.heap|
    ensures Around(q, a) == Around(p, a)
  {
    assert q.rtree == p.rtree && q.heap == p.heap;
  }

  /** Every edge of `q` past those of `p` is of the given kind. */
  predicate AddedOfKind(p: Page, q: Page, t: EdgeType) {
    forall i :: |p.graph.edges| <= i < |q.graph.edges| ==> q.graph.edges[i].kind == t
  }

  /** Adding edges of another kind leaves the "real" neighbours alone. */
  lemma AttachedSame(p: Page, q: Page, a: Ref)
    requires a < |p.heap| && q == p.(graph := q.graph) && EdgesGrow(p, q) && AddedOfKind(p, q, Inferred1d)
    ensures Attached(q, a) == Attached(p, a)
  {
    var id := p.heap[a].shapeId;
    forall w ensures w in Attached(q, a) <==> w in Attached(p, a) {
      if w in Attached(q, a) {
        var e :| e in q.graph.edges && e.kind in {Real} && ((e.outV == id && e.inV == w) || (e.inV == id && e.outV == w));
        var i :| 0 <= i < |q.graph.edges| && q.graph.edges[i] == e;
        assert i < |p.graph.edges| && p.graph.edges[i] == e;
      }
      if w in Attached(p, a) {
        var e :| e in p.graph.edges && e.kind in {Real} && ((e.outV == id && e.inV == w) || (e.inV == id && e.outV == w));
        var i :| 0 <= i < |p.graph.edges| && p.graph.edges[i] == e;
        assert q.graph.edges[i] == e;
      }
    }
  }

  /**
   * `e` is an "inferred-1d" edge between a 1-D shape among `rs` and a hit of
   * the search around it that has the same style and meets it.
   */
  predicate Inferred1dEdge(p: Page, rs: seq<Ref>, e: Edge)
    requires Valid(p) && InHeap(p, rs)
  {
    exists k, j :: 0 <= k < |rs| && Is1d(p.heap[rs[k]]) && 0 <= j < |Around(p, rs[k])|
                   && Style1d(p.heap, rs[k], Around(p, rs[k])[j])
                   && e == CanonicalEdge(p.heap[rs[k]], p.heap[Around(p, rs[k])[j]], Inferred1d)
  }

  /** An edge the rest of the loop adds is one the whole loop may add. */
  lemma Inferred1dWider(p: Page, q: Page, rs: seq<Ref>, e: Edge)
    requires Valid(p) && Valid(q) && q == p.(graph := q.graph) && InHeap(p, rs) && rs != []
    requires InHeap(q, rs[1..]) && Inferred1dEdge(q, rs[1..], e)
    ensures Inferred1dEdge(p, rs, e)
  {
    var rest := rs[1..];
    var k, j :| 0 <= k < |rest| && Is1d(q.heap[rest[k]]) && 0 <= j < |Around(q, rest[k])|
                && Style1d(q.heap, rest[k], Around(q, rest[k])[j])
                && e == CanonicalEdge(q.heap[rest[k]], q.heap[Around(q, rest[k])[j]], Inferred1d);
    AroundSame(p, q, rest[k]);
    assert rs[k + 1] == rest[k];
  }

  /** The edges of the first call: those `Link1dSound` describes. */
  lemma Inferred1dFirst(p: Page, rs: seq<Ref>, q: Page)
    requires Valid(p) && InHeap(p, rs) && rs != [] && Is1d(p.heap[rs[0]])
    requires Infer1d(p, rs[0]) == Ok(q)
    ensures forall i :: |p.graph.edges| <= i < |q.graph.edges| ==> Inferred1dEdge(p, rs, q.graph.edges[i])
  {
    var a := rs[0];
    assert Link1d(p, a, Attached(p, a), Around(p, a)) == Ok(q);
    Link1dSound(p, a, Attached(p, a), Around(p, a));
    AddedLinksInferred(p, rs, q);
  }

  /** `AddedLinks` for the first line of the list, read as `Inferred1dEdge`. */
  lemma AddedLinksInferred(p: Page, rs: seq<Ref>, q: Page)
    requires Valid(p) && InHeap(p, rs) && rs != [] && Is1d(p.heap[rs[0]])
    requires AddedLinks(p, rs[0], Attached(p, rs[0]), Around(p, rs[0]), q)
    ensures forall i :: |p.graph.edges| <= i < |q.graph.edges| ==> Inferred1dEdge(p, rs, q.graph.edges[i])
  {
    var a := rs[0];
    var os := Around(p, a);
    assert AddedLinks(p, a, Attached(p, a), os, q);
    forall i | |p.graph.edges| <= i < |q.graph.edges|
      ensures Inferred1dEdge(p, rs, q.graph.edges[i])
    {
      assert AddedLink(p, a, Attached(p, a), os, q.graph.edges[i]);
      var j :| 0 <= j < |os| && Links1d(p, a, Attached(p, a), os[j])
               && q.graph.edges[i] == CanonicalEdge(p.heap[a], p.heap[os[j]], Inferred1d);
      Inferred1dAt(p, rs, 0, j, q.graph.edges[i]);
    }
  }

  /** The witnesses of `Inferred1dEdge`. */
  lemma Inferred1dAt(p: Page, rs: seq<Ref>, k: nat, j: nat, e: Edge)
    requires Valid(p) && InHeap(p, rs) && k < |rs| && Is1d(p.heap[rs[k]]) && j < |Around(p, rs[k])|
    requires Style1d(p.heap, rs[k], Around(p, rs[k])[j])
    requires e == CanonicalEdge(p.heap[rs[k]], p.heap[Around(p, rs[k])[j]], Inferred1d)
    ensures Inferred1dEdge(p, rs, e)
  {
  }

  /**
   * Soundness of the second loop: every edge it adds is an "inferred-1d"
   * edge between a line of the list and a line of the same style that
   * meets it.
   */
  lemma {:induction false} Infer1dAllSound(p: Page, rs: seq<Ref>)
    requires Valid(p) && InHeap(p, rs) && Infer1dAll(p, rs).Ok?
    ensures var r := Infer1dAll(p, rs).value;
            forall i :: |p.graph.edges| <= i < |r.graph.edges| ==> Inferred1dEdge(p, rs, r.graph.edges[i])
    decreases |rs|
  {
    if rs != [] {
      var rest := rs[1..];
      assert InHeap(p, rest);
      var r := Infer1dAll(p, rs).value;
      if !Is1d(p.heap[rs[0]]) {
        Infer1dAllSound(p, rest);
        forall i | |p.graph.edges| <= i < |r.graph.edges|
          ensures Inferred1dEdge(p, rs, r.graph.edges[i])
        {
          Inferred1dWider(p, p, rs, r.graph.edges[i]);
        }
      } else {
        var q := Infer1d(p, rs[0]).value;
        assert InHeap(q, rest);
        assert r == Infer1dAll(q, rest).value;
        Infer1dAllSound(q, rest);
        Inferred1dFirst(p, rs, q);
        forall i | |p.graph.edges| <= i < |r.graph.edges|
          ensures Inferred1dEdge(p, rs, r.graph.edges[i])
        {
          if i < |q.graph.edges| {
            assert r.graph.edges[i] == q.graph.edges[i];
          } else {
            Inferred1dWider(p, q, rs, r.graph.edges[i]);
          }
        }
      }
    }
  }

  /** Every edge the second loop adds is an "inferred-1d" edge. */
  lemma Infer1dAllKind(p: Page, rs: seq<Ref>)
    requires Valid(p) && InHeap(p, rs) && Infer1dAll(p, rs).Ok?
    ensures AddedOfKind(p, Infer1dAll(p, rs).value, Inferred1d)
  {
    var r := Infer1dAll(p, rs).value;
    Infer1dAllSound(p, rs);
    forall i | |p.graph.edges| <= i < |r.graph.edges| ensures r.graph.edges[i].kind == Inferred1d {
      var k, j :| 0 <= k < |rs| && Is1d(p.heap[rs[k]]) && 0 <= j < |Around(p, rs[k])|
                  && Style1d(p.heap, rs[k], Around(p, rs[k])[j])
                  && r.graph.edges[i] == CanonicalEdge(p.heap[rs[k]], p.heap[Around(p, rs[k])[j]], Inferred1d);
    }
  }

  /**
   * In `r`, `a` is joined to every hit around it that passes every test of
   * `infer1dConnections` read in `r` itself: running it again would add nothing.
   */
  predicate Saturated1d(r: Page, a: Ref)
    requires Valid(r) && a < |r.heap| && Is1d(r.heap[a])
  {
    var os := Around(r, a);
    forall j :: 0 <= j < |os| && Links1d(r, a, Attached(r, a), os[j]) ==>
      Joined(r, r.heap[a].shapeId, r.heap[os[j]].shapeId)
  }

  /** The first call of the loop saturates its line in every later page. */
  lemma Saturated1dFirst(p: Page, a: Ref, q: Page, r: Page)
    requires Valid(p) && a < |p.heap| && Is1d(p.heap[a]) && Infer1d(p, a) == Ok(q)
    requires Valid(r) && r == q.(graph := r.graph) && r.graph.props == q.graph.props && EdgesGrow(q, r)
    requires AddedOfKind(p, r, Inferred1d) && EdgesGrow(p, r)
    ensures Saturated1d(r, a)
  {
    var os := Around(p, a);
    Link1dComplete(p, a, Attached(p, a), os);
    AroundSame(p, r, a);
    AttachedSame(p, r, a);
    forall j | 0 <= j < |os| && Links1d(r, a, Attached(r, a), os[j])
      ensures Joined(r, r.heap[a].shapeId, r.heap[os[j]].shapeId)
    {
      LinksEarlier(q, r, a, Attached(p, a), os[j]);
      JoinedKept(q, r, p.heap[a].shapeId, p.heap[os[j]].shapeId);
    }
  }

  /**
   * Completeness of the second loop: once it is over, every line of the
   * list is joined to each line the pass would link it to in the final graph.
   */
  lemma {:induction false} Infer1dAllComplete(p: Page, rs: seq<Ref>)
    requires Valid(p) && InHeap(p, rs) && Infer1dAll(p, rs).Ok?
    ensures var r := Infer1dAll(p, rs).value;
            forall k :: 0 <= k < |rs| && Is1d(r.heap[rs[k]]) ==> Saturated1d(r, rs[k])
    decreases |rs|
  {
    if rs != [] {
      var rest := rs[1..];
      assert InHeap(p, rest);
      var r := Infer1dAll(p, rs).value;
      if !Is1d(p.heap[rs[0]]) {
        Infer1dAllComplete(p, rest);
        assert forall k :: 1 <= k < |rs| ==> rs[k] == rest[k - 1];
      } else {
        var q := Infer1d(p, rs[0]).value;
        assert InHeap(q, rest);
        assert r == Infer1dAll(q, rest).value;
        Infer1dAllComplete(q, rest);
        Infer1dAllKind(p, rs);
        Saturated1dFirst(p, rs[0], q, r);
        assert forall k :: 1 <= k < |rs| ==> rs[k] == rest[k - 1];
      }
    }
  }

  /**
   * The second loop throws exactly when some 1-D line of the list has no
   * line colour and the search around it finds another live 1-D line.
   */
  lemma {:induction false} Infer1dAllFails(p: Page, rs: seq<Ref>)
    requires Valid(p) && InHeap(p, rs)
    ensures Infer1dAll(p, rs).Err? <==>
              exists k :: 0 <= k < |rs| && Is1d(p.heap[rs[k]]) && p.heap[rs[k]].lineColor.None?
                          && exists j :: 0 <= j < |Around(p, rs[k])| && Candidate1d(p.heap, rs[k], Around(p, rs[k])[j])
    decreases |rs|
  {
    if rs != [] {
      var rest := rs[1..];
      assert InHeap(p, rest);
      assert forall k :: 1 <= k < |rs| ==> rs[k] == rest[k - 1];
      if !Is1d(p.heap[rs[0]]) {
        Infer1dAllFails(p, rest);
      } else {
        Link1dFails(p, rs[0], Attached(p, rs[0]), Around(p, rs[0]));
        if Infer1d(p, rs[0]).Ok? {
          var q := Infer1d(p, rs[0]).value;
          assert InHeap(q, rest);
          Infer1dAllFails(q, rest);
          forall k | 0 <= k < |rest| {
            AroundSame(p, q, rest[k]);
          }
        }
      }
    }
  }

  // ---------------------------------------------------------------------------
  // inferConnections

  /**
   * `inferConnections`: split every connector of the list at the shapes it
   * crosses, drop the removed shapes, register the pieces, then link
   * overlapping lines of the same style.
   */
  function InferConnections(p: Page, h: Hierarchy, contains: Inside): (r: Result<Page, Error>)
    requires Tracked(p, h)
    ensures r.Ok? ==> Tracked(r.value, h)
  {
    assert InHeap(p, p.shapes);
    Infer2dAllMeaning(p, h, contains, p.shapes);
    var (q, ps) :- Infer2dAll(p, h, contains, p.shapes);
    var c := CleanShapes(q);
    CleanShapesKeeps(q, h);
    var e := Enlist(c, ps);
    EnlistTracked(c, h, ps);
    assert InHeap(e, e.shapes);
    var r :- Infer1dAll(e, e.shapes);
    GraphOnlyTracked(e, r, h);
    Ok(r)
  }

  /** The list after registration: the live shapes of the old list, then the pieces. */
  lemma EnlistedList(p: Page, q: Page, ps: seq<Ref>)
    requires Valid(p) && Valid(q) && |p.heap| <= |q.heap| && q.shapes == p.shapes
    requires ps == Span(|p.heap|, |q.heap|) && FreshPieces(p.heap, q.heap)
    ensures var e := Enlist(CleanShapes(q), ps);
            && (forall i :: 0 <= i < |e.shapes| ==> !e.heap[e.shapes[i]].removed)
            && (forall x: Ref :: x in e.shapes <==> x < |q.heap| && !q.heap[x].removed && (x in p.shapes || |p.heap| <= x))
  {
    var c := CleanShapes(q);
    var e := Enlist(c, ps);
    assert e.shapes == c.shapes + ps;
    forall x: Ref ensures x in e.shapes <==> x < |q.heap| && !q.heap[x].removed && (x in p.shapes || |p.heap| <= x) {
      if |p.heap| <= x < |q.heap| {
        assert ps[x - |p.heap|] == x;
      }
    }
  }

  /**
   * `inferConnections` as a whole: an old record changes at most by being
   * marked removed, and only a connector of the list is; the new records
   * are live 1-D pieces; the list holds exactly the live shapes of the old
   * list followed by the pieces; and every line of the list is joined to
   * each line the 1-D pass would link it to in the final graph.
   */
  lemma InferConnectionsMeaning(p: Page, h: Hierarchy, contains: Inside)
    requires Tracked(p, h)
    ensures InferConnections(p, h, contains).Ok? ==>
              var r := InferConnections(p, h, contains).value;
              && Marked(p.heap, r.heap, p.shapes) && FreshPieces(p.heap, r.heap)
              && (forall i :: 0 <= i < |r.shapes| ==> !r.heap[r.shapes[i]].removed)
              && (forall x: Ref :: x in r.shapes <==> x < |r.heap| && !r.heap[x].removed && (x in p.shapes || |p.heap| <= x))
              && (forall k :: 0 <= k < |r.shapes| && Is1d(r.heap[r.shapes[k]]) ==> Saturated1d(r, r.shapes[k]))
  {
    if InferConnections(p, h, contains).Ok? {
      assert InHeap(p, p.shapes);
      Infer2dAllMeaning(p, h, contains, p.shapes);
      var (q, ps) := Infer2dAll(p, h, contains, p.shapes).value;
      var e := Enlist(CleanShapes(q), ps);
      assert InHeap(e, e.shapes);
      EnlistedList(p, q, ps);
      Infer1dAllComplete(e, e.shapes);
    }
  }
}
