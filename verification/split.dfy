/**
 * `infer2dConnections`: a connector (a 1-D shape) that meets the outline of
 * a 2-D shape it is not attached to is joined to it. When one of the
 * connector's ends lies inside the outline the two are simply joined;
 * otherwise the shape is a crossing, and the connector is cut where it
 * crosses into pieces that are joined to each other through the shapes
 * crossed, after which the connector itself is removed.
 */
module Splitting {
  import opened Wrappers
  import opened Geom2D
  import opened Paths
  import opened Errors
  import opened Seqs
  import opened Sorting
  import opened Segments
  import opened Flattening
  import opened GeomUtils
  import opened Shapes
  import opened PropertyGraph
  import opened Page

  /** `Path2D.contains(Point2D)`: whether a point lies inside an outline. The model does not compute it. */
  type Inside = (Path, Point) -> bool


  // ---------------------------------------------------------------------------
  // The search: shapes the connector meets

  /** A search result the connector is inferred to reach: a 2-D shape, not attached, whose outline the connector's path meets. */
  predicate Crosses(heap: seq<ShapeData>, a: Ref, attached: set<int>, o: Ref)
    requires a < |heap| && o < |heap| && Is1d(heap[a])
  {
    && !Is1d(heap[o])
    && heap[o].shapeId !in attached
    && PathIntersectsPath(heap[a].geom.path1D, heap[o].geom.path2D)
  }

  /**
   * `path.contains(start) || path.contains(end)` for the connector's end
   * points: a missing end is dereferenced when the start is outside.
   */
  function HoldsEnd(contains: Inside, path: Path, g: Geometry): (r: Result<bool, Error>)
    requires g.OneD?
    ensures r.Err? <==> !contains(path, g.start) && g.end.None?
    ensures r.Err? ==> r.error == NullPointer
    ensures r.Ok? ==> (r.value <==> contains(path, g.start) || contains(path, g.end.value))
  {
    if contains(path, g.start) then Ok(true)
    else if g.end.None? then Err(NullPointer)
    else Ok(contains(path, g.end.value))
  }

  /**
   * The search callback over the results `os`: a crossed shape holding an
   * end of the connector is joined to it with an "inferred-2d" edge; any
   * other crossed shape is added to `conns`, the set of crossings kept in
   * insertion order.
   */
  function Scan(p: Page, a: Ref, attached: set<int>, contains: Inside, os: seq<Ref>, conns: seq<Ref>): (r: Result<(Page, seq<Ref>), Error>)
    requires Valid(p) && a < |p.heap| && Is1d(p.heap[a]) && InHeap(p, os) && InHeap(p, conns)
    ensures r.Ok? ==> Valid(r.value.0) && r.value.0 == p.(graph := r.value.0.graph) && InHeap(p, r.value.1)
    ensures r.Ok? ==> r.value.0.graph.vertices == p.graph.vertices && r.value.0.graph.props == p.graph.props
    ensures r.Err? ==> r.error == NullPointer
    decreases |os|
  {
    if os == [] then Ok((p, conns))
    else
      var o := os[0];
      assert InHeap(p, os[1..]);
      if !Crosses(p.heap, a, attached, o) then Scan(p, a, attached, contains, os[1..], conns)
      else
        var inside :- HoldsEnd(contains, p.heap[o].geom.path2D, p.heap[a].geom);
        if inside then Scan(CreateEdge(p, a, o, Inferred2d), a, attached, contains, os[1..], conns)
        else Scan(p, a, attached, contains, os[1..], AddNew(conns, o))
  }

  /** An edge the search may add: "inferred-2d" between the connector and a crossed shape holding one of its ends. */
  predicate TouchEdge(heap: seq<ShapeData>, a: Ref, attached: set<int>, contains: Inside, e: Edge)
    requires a < |heap| && Is1d(heap[a])
  {
    exists o: Ref :: o < |heap| && Crosses(heap, a, attached, o)
      && HoldsEnd(contains, heap[o].geom.path2D, heap[a].geom) == Ok(true)
      && e == CanonicalEdge(heap[a], heap[o], Inferred2d)
  }

  /** The search keeps the edges so far and adds only "inferred-2d" edges to crossed shapes holding an end. */
  lemma {:induction false} ScanAdds(p: Page, a: Ref, attached: set<int>, contains: Inside, os: seq<Ref>, conns: seq<Ref>)
    requires Valid(p) && a < |p.heap| && Is1d(p.heap[a]) && InHeap(p, os) && InHeap(p, conns)
    requires Scan(p, a, attached, contains, os, conns).Ok?
    ensures var r := Scan(p, a, attached, contains, os, conns).value.0;
            && EdgesGrow(p, r)
            && forall i :: |p.graph.edges| <= i < |r.graph.edges| ==> TouchEdge(p.heap, a, attached, contains, r.graph.edges[i])
    decreases |os|
  {
    if os != [] {
      var o := os[0];
      assert InHeap(p, os[1..]);
      if Crosses(p.heap, a, attached, o) && HoldsEnd(contains, p.heap[o].geom.path2D, p.heap[a].geom) == Ok(true) {
        var q := CreateEdge(p, a, o, Inferred2d);
        CreateEdgeGrows(p, a, o, Inferred2d);
        ScanAdds(q, a, attached, contains, os[1..], conns);
        var r := Scan(q, a, attached, contains, os[1..], conns).value.0;
        EdgesGrowTransitive(p, q, r);
        forall i | |p.graph.edges| <= i < |r.graph.edges|
          ensures TouchEdge(p.heap, a, attached, contains, r.graph.edges[i])
        {
          if i < |q.graph.edges| {
            assert r.graph.edges[i] == q.graph.edges[i];
          }
        }
      } else if Crosses(p.heap, a, attached, o) {
        ScanAdds(p, a, attached, contains, os[1..], AddNew(conns, o));
      } else {
        ScanAdds(p, a, attached, contains, os[1..], conns);
      }
    }
  }

  /** Every crossed result holding an end of the connector ends up joined to it. */
  lemma {:induction false} ScanJoins(p: Page, a: Ref, attached: set<int>, contains: Inside, os: seq<Ref>, conns: seq<Ref>)
    requires Valid(p) && a < |p.heap| && Is1d(p.heap[a]) && InHeap(p, os) && InHeap(p, conns)
    requires Scan(p, a, attached, contains, os, conns).Ok?
    ensures var r := Scan(p, a, attached, contains, os, conns).value.0;
            forall j :: 0 <= j < |os| && Crosses(p.heap, a, attached, os[j])
                          && HoldsEnd(contains, p.heap[os[j]].geom.path2D, p.heap[a].geom) == Ok(true) ==>
                          Joined(r, p.heap[a].shapeId, p.heap[os[j]].shapeId)
    decreases |os|
  {
    if os != [] {
      var o := os[0];
      assert InHeap(p, os[1..]);
      var r := Scan(p, a, attached, contains, os, conns).value.0;
      if Crosses(p.heap, a, attached, o) && HoldsEnd(contains, p.heap[o].geom.path2D, p.heap[a].geom) == Ok(true) {
        var q := CreateEdge(p, a, o, Inferred2d);
        CreateEdgeGrows(p, a, o, Inferred2d);
        ScanJoins(q, a, attached, contains, os[1..], conns);
        ScanAdds(q, a, attached, contains, os[1..], conns);
        JoinedKept(q, r, p.heap[a].shapeId, p.heap[o].shapeId);
      } else if Crosses(p.heap, a, attached, o) {
        ScanJoins(p, a, attached, contains, os[1..], AddNew(conns, o));
      } else {
        ScanJoins(p, a, attached, contains, os[1..], conns);
      }
      forall j | 0 <= j < |os| && Crosses(p.heap, a, attached, os[j])
                 && HoldsEnd(contains, p.heap[os[j]].geom.path2D, p.heap[a].geom) == Ok(true)
        ensures Joined(r, p.heap[a].shapeId, p.heap[os[j]].shapeId)
      {
        if j > 0 {
          assert os[j] == os[1..][j - 1];
        }
      }
    }
  }

  /** A crossed result that holds neither the start nor a missing end: Java dereferences the null end point. */
  predicate Blocks(heap: seq<ShapeData>, a: Ref, attached: set<int>, contains: Inside, o: Ref)
    requires a < |heap| && Is1d(heap[a])
  {
    o < |heap| && Crosses(heap, a, attached, o) && HoldsEnd(contains, heap[o].geom.path2D, heap[a].geom).Err?
  }

  /** The search fails exactly when some result blocks it. */
  lemma ScanFails(p: Page, a: Ref, attached: set<int>, contains: Inside, os: seq<Ref>, conns: seq<Ref>)
    requires Valid(p) && a < |p.heap| && Is1d(p.heap[a]) && InHeap(p, os) && InHeap(p, conns)
    ensures Scan(p, a, attached, contains, os, conns).Err? <==>
            exists j :: 0 <= j < |os| && Blocks(p.heap, a, attached, contains, os[j])
  {
    ScanFailsIfBlocked(p, a, attached, contains, os, conns);
    ScanFailsOnlyIfBlocked(p, a, attached, contains, os, conns);
  }

  /** A result that blocks the search makes it fail, whatever comes before it. */
  lemma {:induction false} ScanFailsIfBlocked(p: Page, a: Ref, attached: set<int>, contains: Inside, os: seq<Ref>, conns: seq<Ref>)
    requires Valid(p) && a < |p.heap| && Is1d(p.heap[a]) && InHeap(p, os) && InHeap(p, conns)
    ensures (exists j :: 0 <= j < |os| && Blocks(p.heap, a, attached, contains, os[j])) ==>
            Scan(p, a, attached, contains, os, conns).Err?
    decreases |os|
  {
    if j :| 0 <= j < |os| && Blocks(p.heap, a, attached, contains, os[j]) {
      var o := os[0];
      if !Blocks(p.heap, a, attached, contains, o) {
        assert InHeap(p, os[1..]);
        assert Blocks(p.heap, a, attached, contains, os[1..][j - 1]);
        if !Crosses(p.heap, a, attached, o) {
          ScanFailsIfBlocked(p, a, attached, contains, os[1..], conns);
        } else if HoldsEnd(contains, p.heap[o].geom.path2D, p.heap[a].geom) == Ok(true) {
          var q := CreateEdge(p, a, o, Inferred2d);
          assert q.heap == p.heap;
          ScanFailsIfBlocked(q, a, attached, contains, os[1..], conns);
        } else {
          // a blocker means the connector has no end, so a crossed shape
          // either holds its start or blocks too
          assert false;
        }
      }
    }
  }

  /** The search fails only at a result that blocks it. */
  lemma {:induction false} ScanFailsOnlyIfBlocked(p: Page, a: Ref, attached: set<int>, contains: Inside, os: seq<Ref>, conns: seq<Ref>)
    requires Valid(p) && a < |p.heap| && Is1d(p.heap[a]) && InHeap(p, os) && InHeap(p, conns)
    ensures Scan(p, a, attached, contains, os, conns).Err? ==>
            exists j :: 0 <= j < |os| && Blocks(p.heap, a, attached, contains, os[j])
    decreases |os|
  {
    if os != [] && Scan(p, a, attached, contains, os, conns).Err? {
      var o := os[0];
      if Blocks(p.heap, a, attached, contains, o) {
        assert Blocks(p.heap, a, attached, contains, os[0]);
      } else {
        assert InHeap(p, os[1..]);
        var q, cs;
        if !Crosses(p.heap, a, attached, o) {
          q, cs := p, conns;
        } else if HoldsEnd(contains, p.heap[o].geom.path2D, p.heap[a].geom) == Ok(true) {
          q, cs := CreateEdge(p, a, o, Inferred2d), conns;
        } else {
          q, cs := p, AddNew(conns, o);
        }
        assert q.heap == p.heap && Valid(q) && InHeap(q, cs);
        assert Scan(q, a, attached, contains, os[1..], cs).Err?;
        ScanFailsOnlyIfBlocked(q, a, attached, contains, os[1..], cs);
        var j :| 0 <= j < |os[1..]| && Blocks(p.heap, a, attached, contains, os[1..][j]);
        assert Blocks(p.heap, a, attached, contains, os[j + 1]);
      }
    }
  }

  /** The crossings collected are those given plus every crossed result that holds neither end. */
  lemma {:induction false} ScanCollects(p: Page, a: Ref, attached: set<int>, contains: Inside, os: seq<Ref>, conns: seq<Ref>)
    requires Valid(p) && a < |p.heap| && Is1d(p.heap[a]) && InHeap(p, os) && InHeap(p, conns)
    ensures var r := Scan(p, a, attached, contains, os, conns);
            r.Ok? ==> forall o: Ref :: o in r.value.1 <==>
                        o in conns
                        || (o in os && o < |p.heap| && Crosses(p.heap, a, attached, o)
                            && HoldsEnd(contains, p.heap[o].geom.path2D, p.heap[a].geom) == Ok(false))
    decreases |os|
  {
    if os != [] {
      var o := os[0];
      assert InHeap(p, os[1..]);
      if Crosses(p.heap, a, attached, o) && HoldsEnd(contains, p.heap[o].geom.path2D, p.heap[a].geom) == Ok(true) {
        ScanCollects(CreateEdge(p, a, o, Inferred2d), a, attached, contains, os[1..], conns);
      } else if Crosses(p.heap, a, attached, o) {
        if HoldsEnd(contains, p.heap[o].geom.path2D, p.heap[a].geom).Ok? {
          ScanCollects(p, a, attached, contains, os[1..], AddNew(conns, o));
        }
      } else {
        ScanCollects(p, a, attached, contains, os[1..], conns);
      }
    }
  }

  // ---------------------------------------------------------------------------
  // The connector's existing edges

  /**
   * The shapes the connector's existing edges lead to: those holding its
   * start, those holding its end, and the crossings, to which the rest are
   * added.
   */
  datatype Ends = Ends(conns: seq<Ref>, toStart: seq<Ref>, toEnd: seq<Ref>)

  predicate EndsIn(p: Page, ends: Ends) {
    InHeap(p, ends.conns) && InHeap(p, ends.toStart) && InHeap(p, ends.toEnd)
  }

  /**
   * What an existing edge whose far end holds neither end point adds to the
   * crossings: as written (`AddsInEnd`) the edge's IN shape, which is the
   * connector itself whenever the connector is the edge's IN end; as
   * intended (`AddsFarEnd`) the far end.
   */
  datatype Reading = AddsInEnd | AddsFarEnd

  /** The far end of an existing edge, `in` unless that is the connector, then `out`. */
  function FarEnd(p: Page, a: Ref, e: Edge): (r: Result<(Option<Ref>, Ref), Error>)
    requires Valid(p)
    ensures r.Err? ==> r.error == NullPointer || r.error == InternalError
    ensures r.Ok? ==> r.value.1 < |p.heap| && r.value.1 != a && r.value.0.Some?
    ensures r.Ok? ==> r.value.0 == ShapeOfVertex(p, e.inV)
    ensures r.Ok? ==> Some(r.value.1) == ShapeOfVertex(p, e.inV) || Some(r.value.1) == ShapeOfVertex(p, e.outV)
  {
    var into := ShapeOfVertex(p, e.inV);
    var from := ShapeOfVertex(p, e.outV);
    if into == Some(a) && from == Some(a) then Err(InternalError)
    else
      var other := if into != Some(a) then into else from;
      if other.None? then Err(NullPointer)
      else Ok((into, other.value))
  }

  /**
   * Where one existing edge's far end goes: to `toStart` when its path holds
   * the connector's start, else to `toEnd` when it holds the end (a missing
   * end is dereferenced), else to the crossings.
   */
  function Classify(p: Page, a: Ref, contains: Inside, e: Edge, acc: Ends, v: Reading): (r: Result<Ends, Error>)
    requires Valid(p) && a < |p.heap| && Is1d(p.heap[a]) && EndsIn(p, acc)
    ensures r.Err? ==> r.error == NullPointer || r.error == InternalError
    ensures r.Ok? ==> EndsIn(p, r.value)
    ensures r.Ok? ==> forall x: Ref :: x in r.value.toStart ==>
                        x in acc.toStart || (x < |p.heap| && contains(GetPath(p.heap[x]), p.heap[a].geom.start))
    ensures r.Ok? ==> forall x: Ref :: x in r.value.toEnd ==>
                        x in acc.toEnd
                        || (x < |p.heap| && p.heap[a].geom.end.Some? && contains(GetPath(p.heap[x]), p.heap[a].geom.end.value))
    ensures r.Ok? && v == AddsFarEnd && a in r.value.conns ==> a in acc.conns
  {
    var (into, other) :- FarEnd(p, a, e);
    var path := GetPath(p.heap[other]);
    var g := p.heap[a].geom;
    if contains(path, g.start) then Ok(acc.(toStart := acc.toStart + [other]))
    else if g.end.None? then Err(NullPointer)
    else if contains(path, g.end.value) then Ok(acc.(toEnd := acc.toEnd + [other]))
    else Ok(acc.(conns := AddNew(acc.conns, if v == AddsInEnd then into.value else other)))
  }

  /**
   * The loop over the connector's edges: each far end is classified, then
   * the edge is removed.
   */
  function Detach(p: Page, a: Ref, contains: Inside, es: seq<Edge>, acc: Ends, v: Reading): (r: Result<(Page, Ends), Error>)
    requires Valid(p) && a < |p.heap| && Is1d(p.heap[a]) && EndsIn(p, acc)
    ensures r.Ok? ==> Valid(r.value.0) && r.value.0 == p.(graph := r.value.0.graph) && EndsIn(p, r.value.1)
    ensures r.Ok? ==> r.value.0.graph.vertices == p.graph.vertices && r.value.0.graph.props == p.graph.props
    ensures r.Err? ==> r.error == NullPointer || r.error == InternalError
    decreases |es|
  {
    if es == [] then Ok((p, acc))
    else
      var next :- Classify(p, a, contains, es[0], acc, v);
      RemovalsKeepCanonical(p.graph, es[0].id, 0);
      Detach(p.(graph := RemoveEdge(p.graph, es[0].id)), a, contains, es[1..], next, v)
  }

  /** The ids of a list of edges. */
  function EdgeIds(es: seq<Edge>): set<EdgeId> {
    set e | e in es :: e.id
  }

  /** The loop removes exactly the edges whose ids it walks over. */
  lemma {:induction false} DetachRemoves(p: Page, a: Ref, contains: Inside, es: seq<Edge>, acc: Ends, v: Reading)
    requires Valid(p) && a < |p.heap| && Is1d(p.heap[a]) && EndsIn(p, acc)
    requires Detach(p, a, contains, es, acc, v).Ok?
    ensures var q := Detach(p, a, contains, es, acc, v).value.0;
            forall e :: e in q.graph.edges <==> e in p.graph.edges && e.id !in EdgeIds(es)
    decreases |es|
  {
    if es != [] {
      var e := es[0];
      var next := Classify(p, a, contains, e, acc, v).value;
      RemovalsKeepCanonical(p.graph, e.id, 0);
      DetachRemoves(p.(graph := RemoveEdge(p.graph, e.id)), a, contains, es[1..], next, v);
      assert EdgeIds(es) == {e.id} + EdgeIds(es[1..]) by {
        assert forall f :: f in es <==> f == e || f in es[1..];
      }
    }
  }

  /**
   * Every far end put in `toStart` holds the connector's start and every one
   * put in `toEnd` its end; as intended, the connector never becomes one of
   * its own crossings.
   */
  lemma {:induction false} DetachSorts(p: Page, a: Ref, contains: Inside, es: seq<Edge>, acc: Ends, v: Reading)
    requires Valid(p) && a < |p.heap| && Is1d(p.heap[a]) && EndsIn(p, acc)
    requires Detach(p, a, contains, es, acc, v).Ok?
    ensures var ends := Detach(p, a, contains, es, acc, v).value.1;
            && (forall x: Ref :: x in ends.toStart ==>
                  x in acc.toStart || (x < |p.heap| && contains(GetPath(p.heap[x]), p.heap[a].geom.start)))
            && (forall x: Ref :: x in ends.toEnd ==>
                  x in acc.toEnd
                  || (x < |p.heap| && p.heap[a].geom.end.Some? && contains(GetPath(p.heap[x]), p.heap[a].geom.end.value)))
            && (v == AddsFarEnd && a in ends.conns ==> a in acc.conns)
    decreases |es|
  {
    if es != [] {
      var next := Classify(p, a, contains, es[0], acc, v).value;
      RemovalsKeepCanonical(p.graph, es[0].id, 0);
      DetachSorts(p.(graph := RemoveEdge(p.graph, es[0].id)), a, contains, es[1..], next, v);
    }
  }

  /**
   * As written, an edge whose IN end is the connector and whose OUT end is a
   * registered shape holding neither end point makes the connector one of
   * its own crossings — the case of a connector glued to a shape with a
   * smaller id, since edges run from the smaller id to the larger.
   */
  lemma ClassifyAsWrittenAddsConnector(p: Page, a: Ref, contains: Inside, e: Edge, acc: Ends)
    requires Valid(p) && a < |p.heap| && Is1d(p.heap[a]) && EndsIn(p, acc)
    requires ShapeOfVertex(p, e.inV) == Some(a)
    requires ShapeOfVertex(p, e.outV).Some? && ShapeOfVertex(p, e.outV) != Some(a)
    requires var other := GetPath(p.heap[ShapeOfVertex(p, e.outV).value]);
             && !contains(other, p.heap[a].geom.start)
             && p.heap[a].geom.end.Some? && !contains(other, p.heap[a].geom.end.value)
    ensures Classify(p, a, contains, e, acc, AddsInEnd).Ok?
    ensures a in Classify(p, a, contains, e, acc, AddsInEnd).value.conns
  {
  }

  // ---------------------------------------------------------------------------
  // Cutting the connector

  /** `IntersectionData`: a point where a segment of the connector meets the path of the shape `other`. */
  datatype Hit = Hit(other: Ref, point: Point)

  function HitsOf(o: Ref, pts: seq<Point>): (r: seq<Hit>)
    ensures |r| == |pts|
    ensures forall i :: 0 <= i < |r| ==> r[i] == Hit(o, pts[i])
  {
    if pts == [] then [] else [Hit(o, pts[0])] + HitsOf(o, pts[1..])
  }

  /**
   * The points where `seg` meets the paths of the crossings, crossing by
   * crossing, each in path order; there are none exactly when no crossing's
   * path meets the segment.
   */
  function HitsOn(heap: seq<ShapeData>, conns: seq<Ref>, seg: Line): (r: seq<Hit>)
    requires forall j :: 0 <= j < |conns| ==> conns[j] < |heap|
    ensures forall i :: 0 <= i < |r| ==> r[i].other in conns
    ensures forall i :: 0 <= i < |r| ==> r[i].point in FindLineIntersections(GetPath(heap[r[i].other]), seg)
    ensures r == [] <==> forall j :: 0 <= j < |conns| ==> !PathIntersectsLine(GetPath(heap[conns[j]]), seg)
    decreases |conns|
  {
    if conns == [] then []
    else
      var rest := HitsOn(heap, conns[1..], seg);
      HitsCons(heap, conns, seg, rest);
      HitsOf(conns[0], FindLineIntersections(GetPath(heap[conns[0]]), seg)) + rest
  }

  /** The hits of the first crossing followed by those of the others keep `HitsOn`'s promises. */
  lemma HitsCons(heap: seq<ShapeData>, conns: seq<Ref>, seg: Line, rest: seq<Hit>)
    requires forall j :: 0 <= j < |conns| ==> conns[j] < |heap|
    requires conns != []
    requires forall i :: 0 <= i < |rest| ==> rest[i].other in conns[1..]
    requires forall i :: 0 <= i < |rest| ==> rest[i].point in FindLineIntersections(GetPath(heap[rest[i].other]), seg)
    requires rest == [] <==> forall j :: 0 <= j < |conns[1..]| ==> !PathIntersectsLine(GetPath(heap[conns[1..][j]]), seg)
    ensures var r := HitsOf(conns[0], FindLineIntersections(GetPath(heap[conns[0]]), seg)) + rest;
            && (forall i :: 0 <= i < |r| ==> r[i].other in conns)
            && (forall i :: 0 <= i < |r| ==> r[i].point in FindLineIntersections(GetPath(heap[r[i].other]), seg))
            && (r == [] <==> forall j :: 0 <= j < |conns| ==> !PathIntersectsLine(GetPath(heap[conns[j]]), seg))
  {
    var here := HitsOf(conns[0], FindLineIntersections(GetPath(heap[conns[0]]), seg));
    HitsHere(heap, conns[0], seg);
    assert forall j :: 0 < j < |conns| ==> conns[j] == conns[1..][j - 1];
    assert here + rest == [] <==> here == [] && rest == [];
  }

  /** The crossing `o` contributes a hit exactly when its path meets the segment. */
  lemma HitsHere(heap: seq<ShapeData>, o: Ref, seg: Line)
    requires o < |heap|
    ensures HitsOf(o, FindLineIntersections(GetPath(heap[o]), seg)) == [] <==> !PathIntersectsLine(GetPath(heap[o]), seg)
  {
    PathIntersectsLineFinds(GetPath(heap[o]), seg);
  }

  /** The sort key: points nearer the connector's start come first. */
  function NearFirst(start: Point): Hit -> real {
    (x: Hit) => -PointDistSq(start, x.point)
  }

  /** Sorting keeps the points and puts them in order of distance from the start. */
  lemma ByDistance(hits: seq<Hit>, start: Point)
    ensures var s := SortDesc(hits, NearFirst(start));
            && |s| == |hits| && (forall x :: x in s <==> x in hits)
            && forall i, j :: 0 <= i < j < |s| ==> PointDistSq(start, s[i].point) <= PointDistSq(start, s[j].point)
  {
    var s := SortDesc(hits, NearFirst(start));
    SortDescSameElements(hits, NearFirst(start));
    forall i, j | 0 <= i < j < |s| ensures PointDistSq(start, s[i].point) <= PointDistSq(start, s[j].point) {
      assert NearFirst(start)(s[i]) >= NearFirst(start)(s[j]);
    }
  }

  /** The points in the order they are cut at: `Collections.sort`, which is stable, by distance from the start. */
  function InOrder(hits: seq<Hit>, start: Point, conns: seq<Ref>): (r: seq<Hit>)
    requires forall i :: 0 <= i < |hits| ==> hits[i].other in conns
    ensures r == SortDesc(hits, NearFirst(start))
    ensures forall i :: 0 <= i < |r| ==> r[i].other in conns
  {
    var s := SortDesc(hits, NearFirst(start));
    SortDescSameElements(hits, NearFirst(start));
    assert forall i :: 0 <= i < |s| ==> s[i] in hits;
    s
  }

  /** `lineTo` on a `Path2D.Double`, which refuses an empty path with an `IllegalPathStateException`. */
  function LineOn(path: Path, pt: Point): (r: Result<Path, Error>)
    requires WellFormedSegs(path.segs)
    ensures r.Err? <==> path.segs == []
    ensures r.Err? ==> r.error == PathState
    ensures r.Ok? ==> WellFormedSegs(r.value.segs) && r.value.segs == path.segs + [SegLine(pt)]
  {
    BuilderKeepsWellFormed(path, pt, pt, pt);
    match LineTo(path, pt)
    case Ok(q) => Ok(q)
    case Err(_) => Err(PathState)
  }

  /** A path holding just a move to `pt`. */
  function StartAt(pt: Point): (r: Path)
    ensures WellFormedSegs(r.segs) && r.segs == [SegMove(pt)]
  {
    BuilderKeepsWellFormed(EmptyPath(NonZero), pt, pt, pt);
    MoveTo(EmptyPath(NonZero), pt)
  }

  /** `createEdge(x, y, t)` for each `y` of `ys` in turn. */
  function EdgesFrom(p: Page, x: Ref, ys: seq<Ref>, t: EdgeType): (r: Page)
    requires Valid(p) && x < |p.heap| && InHeap(p, ys)
    ensures Valid(r) && r == p.(graph := r.graph)
    ensures r.graph.vertices == p.graph.vertices && r.graph.props == p.graph.props
    decreases |ys|
  {
    if ys == [] then p
    else
      assert InHeap(p, ys[1..]);
      EdgesFrom(CreateEdge(p, x, ys[0], t), x, ys[1..], t)
  }

  /** The edges so far stay, and afterwards `x` is joined to every shape of `ys`. */
  lemma {:induction false} EdgesFromJoins(p: Page, x: Ref, ys: seq<Ref>, t: EdgeType)
    requires Valid(p) && x < |p.heap| && InHeap(p, ys)
    ensures var r := EdgesFrom(p, x, ys, t);
            && EdgesGrow(p, r)
            && forall j :: 0 <= j < |ys| ==> Joined(r, p.heap[x].shapeId, p.heap[ys[j]].shapeId)
    decreases |ys|
  {
    if ys != [] {
      assert InHeap(p, ys[1..]);
      var q := CreateEdge(p, x, ys[0], t);
      var r := EdgesFrom(q, x, ys[1..], t);
      CreateEdgeGrows(p, x, ys[0], t);
      EdgesFromJoins(q, x, ys[1..], t);
      EdgesGrowTransitive(p, q, r);
      JoinedKept(q, r, p.heap[x].shapeId, p.heap[ys[0]].shapeId);
      forall j | 0 <= j < |ys| ensures Joined(r, p.heap[x].shapeId, p.heap[ys[j]].shapeId) {
        if j > 0 {
          assert ys[j] == ys[1..][j - 1];
        }
      }
    }
  }

  /**
   * The loop's state: the page, the piece being drawn (`currentPath`), the
   * iterator's previous point (`lastX`, `lastY`), the shape crossed last
   * (`lastShape`), the piece chosen for the text (`textShape`) and the
   * pieces made so far (`newShapes`).
   */
  datatype Walk = Walk(page: Page, current: Path, last: Point, lastShape: Option<Ref>, textShape: Option<Ref>, pieces: seq<Ref>)

  /** What every step keeps: the bookkeeping, a drawable current path, and references into the heap. */
  predicate WalkOk(w: Walk, h: Hierarchy, a: Ref, ends: Ends) {
    && Tracked(w.page, h)
    && a < |w.page.heap| && Is1d(w.page.heap[a])
    && EndsIn(w.page, ends)
    && WellFormedSegs(w.current.segs)
    && (w.lastShape.Some? ==> w.lastShape.value < |w.page.heap| && |w.pieces| > 0)
    && (w.textShape.Some? ==> w.textShape.value in w.pieces)
    && InHeap(w.page, w.pieces)
  }

  /**
   * The text test on a new piece `x`: any piece at a finite distance from
   * the connector's text centre replaces the choice, because `textDistance`
   * keeps its initial `Double.MAX_VALUE`.
   */
  function TextAfter(p: Page, a: Ref, x: Ref, t: Option<Ref>): (r: Option<Ref>)
    requires ShapesOk(p) && a < |p.heap| && x < |p.heap| && Is1d(p.heap[x])
    ensures r == (if p.heap[a].hasText && Items(p.heap[x].geom.path1D) != [] then Some(x) else t)
  {
    if !p.heap[a].hasText then t
    else
      assert ShapeOk(p.heap[a]);
      if PathDistance(p.heap[x].geom.path1D, p.heap[a].textCenter.value).Near? then Some(x) else t
  }

  /** `clone1dShape(path, a)`: the piece drawn so far becomes a new record at the end of the heap. */
  function Piece(p: Page, h: Hierarchy, a: Ref, path: Path): (r: (Page, Ref))
    requires Tracked(p, h) && a < |p.heap| && WellFormedSegs(path.segs)
    ensures Tracked(r.0, h) && r.1 == |p.heap| && |r.0.heap| == |p.heap| + 1
    ensures r.0.heap[..|p.heap|] == p.heap && Is1d(r.0.heap[r.1])
    ensures PieceOf(r.0.heap[r.1], p.heap[a]) && !r.0.heap[r.1].hasText && r.0.heap[r.1].geom.path1D == path
    ensures r.0.shapes == p.shapes && r.0.shapesMap == p.shapesMap && EdgesGrow(p, r.0) && PropsKept(p, r.0)
  {
    CloneKeeps(p, h, path, a);
    PieceShape(p, h, a, path);
    var r := Clone1dShape(p, path, a);
    PieceFrame(p, r.0, p.graph.props[p.heap[a].shapeId].(text := "", shapeId := p.nextId));
    r
  }

  lemma PieceShape(p: Page, h: Hierarchy, a: Ref, path: Path)
    requires Tracked(p, h) && a < |p.heap| && WellFormedSegs(path.segs)
    ensures var q := Clone1dShape(p, path, a).0;
            && q.heap[..|p.heap|] == p.heap
            && PieceOf(q.heap[|p.heap|], p.heap[a]) && !q.heap[|p.heap|].hasText && q.heap[|p.heap|].geom.path1D == path
  {
    CloneIdsFresh(p, path, a);
    var q := Clone1dShape(p, path, a).0;
    assert q.heap[..|p.heap|] == p.heap;
    assert p.heap[a].shapeId == q.heap[a].shapeId;
  }

  /** Cloning adds one vertex record under the fresh id and no edge. */
  lemma PieceFrame(p: Page, q: Page, v: Props)
    requires FreshCounter(p) && q.graph.edges == p.graph.edges && q.graph.props == p.graph.props[p.nextId := v]
    ensures EdgesGrow(p, q) && PropsKept(p, q)
  {
  }

  /** A piece of the connector `src`: a 1-D record with a new negative id and `src`'s parent and line style. */
  predicate PieceOf(sd: ShapeData, src: ShapeData) {
    && Is1d(sd) && sd.shapeId < 0 && sd.shapeId != src.shapeId
    && sd.parentId == src.parentId && sd.lineColor == src.lineColor && sd.linePattern == src.linePattern
    && !sd.isTextbox && !sd.removed
  }

  /** Every vertex record of `p` is still there, unchanged. */
  predicate PropsKept(p: Page, q: Page) {
    forall v :: v in p.graph.props ==> v in q.graph.props && q.graph.props[v] == p.graph.props[v]
  }

  /** The references `lo`, ..., `hi - 1`. */
  function Span(lo: nat, hi: nat): (r: seq<Ref>)
    requires lo <= hi
    ensures |r| == hi - lo && forall i :: 0 <= i < |r| ==> r[i] == lo + i
    decreases hi - lo
  {
    if lo == hi then [] else Span(lo, hi - 1) + [hi - 1]
  }

  lemma SpanJoin(lo: nat, mid: nat, hi: nat)
    requires lo <= mid <= hi
    ensures Span(lo, mid) + Span(mid, hi) == Span(lo, hi)
  {
  }

  /**
   * The edges of a new piece `x`: to the shapes holding the start when it is
   * the first piece, else from the shape crossed last; then to the shape
   * crossed here.
   */
  function JoinPiece(p: Page, h: Hierarchy, x: Ref, last: Option<Ref>, toStart: seq<Ref>, other: Ref): (r: Page)
    requires Tracked(p, h) && x < |p.heap| && other < |p.heap| && InHeap(p, toStart)
    requires last.Some? ==> last.value < |p.heap|
    ensures Tracked(r, h) && r == p.(graph := r.graph)
  {
    var q1 := if last.None? then EdgesFrom(p, x, toStart, SplitStart) else CreateEdge(p, last.value, x, SplitMiddle);
    GraphOnlyTracked(p, q1, h);
    var q2 := CreateEdge(q1, x, other, SplitMiddle);
    GraphOnlyTracked(q1, q2, h);
    q2
  }

  lemma JoinPieceGrows(p: Page, h: Hierarchy, x: Ref, last: Option<Ref>, toStart: seq<Ref>, other: Ref)
    requires Tracked(p, h) && x < |p.heap| && other < |p.heap| && InHeap(p, toStart)
    requires last.Some? ==> last.value < |p.heap|
    ensures var r := JoinPiece(p, h, x, last, toStart, other);
            && EdgesGrow(p, r) && PropsKept(p, r)
            && Joined(r, p.heap[x].shapeId, p.heap[other].shapeId)
            && (last.Some? ==> Joined(r, p.heap[last.value].shapeId, p.heap[x].shapeId))
            && (last.None? ==> forall j :: 0 <= j < |toStart| ==> Joined(r, p.heap[x].shapeId, p.heap[toStart[j]].shapeId))
  {
    var q1 := if last.None? then EdgesFrom(p, x, toStart, SplitStart) else CreateEdge(p, last.value, x, SplitMiddle);
    if last.None? {
      EdgesFromJoins(p, x, toStart, SplitStart);
    } else {
      CreateEdgeGrows(p, last.value, x, SplitMiddle);
    }
    var q2 := CreateEdge(q1, x, other, SplitMiddle);
    CreateEdgeGrows(q1, x, other, SplitMiddle);
    EdgesGrowTransitive(p, q1, q2);
    if last.Some? {
      JoinedKept(q1, q2, p.heap[last.value].shapeId, p.heap[x].shapeId);
    } else {
      forall j | 0 <= j < |toStart| ensures Joined(q2, p.heap[x].shapeId, p.heap[toStart[j]].shapeId) {
        JoinedKept(q1, q2, p.heap[x].shapeId, p.heap[toStart[j]].shapeId);
      }
    }
  }

  /**
   * One crossing point, unless it is on the shape crossed last: draw up to
   * it, make the piece so far a new shape, join it, and start the next piece
   * at the point.
   */
  function CutAt(w: Walk, h: Hierarchy, a: Ref, ends: Ends, hit: Hit): (r: Result<Walk, Error>)
    requires WalkOk(w, h, a, ends) && hit.other in ends.conns
    ensures r.Ok? ==> WalkOk(r.value, h, a, ends)
    ensures r.Err? ==> r.error == PathState
  {
    if w.lastShape == Some(hit.other) then Ok(w)
    else
      var path :- LineOn(w.current, hit.point);
      var (q, x) := Piece(w.page, h, a, path);
      var text := TextAfter(q, a, x, w.textShape);
      var q2 := JoinPiece(q, h, x, w.lastShape, ends.toStart, hit.other);
      InHeapGrows(w.page, q2, ends.conns);
      InHeapGrows(w.page, q2, ends.toStart);
      InHeapGrows(w.page, q2, ends.toEnd);
      InHeapGrows(w.page, q2, w.pieces);
      assert q2.heap[a] == w.page.heap[a];
      InHeapAppend(q2, w.pieces, x);
      var r := Walk(q2, StartAt(hit.point), w.last, Some(hit.other), text, w.pieces + [x]);
      Ok(r)
  }

  function CutAll(w: Walk, h: Hierarchy, a: Ref, ends: Ends, hits: seq<Hit>): (r: Result<Walk, Error>)
    requires WalkOk(w, h, a, ends) && forall i :: 0 <= i < |hits| ==> hits[i].other in ends.conns
    ensures r.Ok? ==> WalkOk(r.value, h, a, ends)
    ensures r.Err? ==> r.error == PathState
    decreases |hits|
  {
    if hits == [] then Ok(w)
    else
      var w1 :- CutAt(w, h, a, ends, hits[0]);
      CutAll(w1, h, a, ends, hits[1..])
  }

  /**
   * One segment of the flattened connector: a move starts the current path
   * over; a line is cut at its crossing points in order of distance from
   * the connector's start, then drawn to its end; any other segment is an
   * error.
   */
  function Step(w: Walk, h: Hierarchy, a: Ref, ends: Ends, seg: Seg): (r: Result<Walk, Error>)
    requires WalkOk(w, h, a, ends)
    ensures r.Ok? ==> WalkOk(r.value, h, a, ends)
    ensures r.Err? ==> r.error == PathState || r.error == UnexpectedSegment
  {
    match seg
    case SegMove(pt) =>
      BuilderKeepsWellFormed(w.current, pt, pt, pt);
      Ok(w.(current := MoveTo(w.current, pt), last := pt))
    case SegLine(pt) =>
      var hits := HitsOn(w.page.heap, ends.conns, Line(w.last, pt));
      if hits == [] then
        var path :- LineOn(w.current, pt);
        Ok(w.(current := path, last := pt))
      else
        var w1 :- CutAll(w, h, a, ends, InOrder(hits, w.page.heap[a].geom.start, ends.conns));
        var path :- LineOn(w1.current, pt);
        Ok(w1.(current := path, last := pt))
    case _ => Err(UnexpectedSegment)
  }

  function WalkAll(w: Walk, h: Hierarchy, a: Ref, ends: Ends, segs: seq<Seg>): (r: Result<Walk, Error>)
    requires WalkOk(w, h, a, ends)
    ensures r.Ok? ==> WalkOk(r.value, h, a, ends)
    ensures r.Err? ==> r.error == PathState || r.error == UnexpectedSegment
    decreases |segs|
  {
    if segs == [] then Ok(w)
    else
      var w1 :- Step(w, h, a, ends, segs[0]);
      WalkAll(w1, h, a, ends, segs[1..])
  }

  /**
   * How the walk changes the page: it appends text-less pieces of `src`,
   * lists them in order, and changes no earlier record, vertex record or
   * edge, nor the list or the map.
   */
  predicate Grown(w0: Walk, w: Walk, src: ShapeData) {
    && |w0.page.heap| <= |w.page.heap|
    && w.page.heap[..|w0.page.heap|] == w0.page.heap
    && w.pieces == w0.pieces + Span(|w0.page.heap|, |w.page.heap|)
    && (forall i :: |w0.page.heap| <= i < |w.page.heap| ==> PieceOf(w.page.heap[i], src) && !w.page.heap[i].hasText)
    && w.page.shapes == w0.page.shapes && w.page.shapesMap == w0.page.shapesMap
    && EdgesGrow(w0.page, w.page) && PropsKept(w0.page, w.page)
  }

  lemma GrownTransitive(w0: Walk, w1: Walk, w2: Walk, src: ShapeData)
    requires Grown(w0, w1, src) && Grown(w1, w2, src)
    ensures Grown(w0, w2, src)
  {
    var n0, n1, n2 := |w0.page.heap|, |w1.page.heap|, |w2.page.heap|;
    assert w2.page.heap[..n0] == w2.page.heap[..n1][..n0];
    SpanJoin(n0, n1, n2);
    assert w2.pieces == w0.pieces + (Span(n0, n1) + Span(n1, n2));
    EdgesGrowTransitive(w0.page, w1.page, w2.page);
    forall i | n0 <= i < n2 ensures PieceOf(w2.page.heap[i], src) && !w2.page.heap[i].hasText {
      if i < n1 {
        assert w2.page.heap[i] == w1.page.heap[i];
      }
    }
  }

  lemma GrownReflexive(w: Walk, src: ShapeData)
    ensures Grown(w, w, src)
  {
    assert w.page.heap[..|w.page.heap|] == w.page.heap;
    assert w.pieces + Span(|w.page.heap|, |w.page.heap|) == w.pieces;
  }

  lemma CutAtGrows(w: Walk, h: Hierarchy, a: Ref, ends: Ends, hit: Hit)
    requires WalkOk(w, h, a, ends) && hit.other in ends.conns && CutAt(w, h, a, ends, hit).Ok?
    ensures Grown(w, CutAt(w, h, a, ends, hit).value, w.page.heap[a])
  {
    var r := CutAt(w, h, a, ends, hit).value;
    if w.lastShape == Some(hit.other) {
      GrownReflexive(w, w.page.heap[a]);
    } else {
      var path := LineOn(w.current, hit.point).value;
      var (q, x) := Piece(w.page, h, a, path);
      assert r.page == JoinPiece(q, h, x, w.lastShape, ends.toStart, hit.other);
      JoinPieceGrows(q, h, x, w.lastShape, ends.toStart, hit.other);
      PieceGrows(w, r, q, x, w.page.heap[a]);
    }
  }

  /** Appending one piece and adding edges is growth. */
  lemma PieceGrows(w: Walk, r: Walk, q: Page, x: Ref, src: ShapeData)
    requires |q.heap| == |w.page.heap| + 1 && x == |w.page.heap| && q.heap[..x] == w.page.heap
    requires PieceOf(q.heap[x], src) && !q.heap[x].hasText
    requires q.shapes == w.page.shapes && q.shapesMap == w.page.shapesMap && EdgesGrow(w.page, q) && PropsKept(w.page, q)
    requires r.page.heap == q.heap && r.page.shapes == q.shapes && r.page.shapesMap == q.shapesMap
    requires EdgesGrow(q, r.page) && PropsKept(q, r.page)
    requires r.pieces == w.pieces + [x]
    ensures Grown(w, r, src)
  {
    SpanOne(x);
    EdgesGrowTransitive(w.page, q, r.page);
  }

  lemma SpanOne(n: nat)
    ensures Span(n, n + 1) == [n]
  {
  }

  lemma {:induction false} CutAllGrows(w: Walk, h: Hierarchy, a: Ref, ends: Ends, hits: seq<Hit>)
    requires WalkOk(w, h, a, ends) && (forall i :: 0 <= i < |hits| ==> hits[i].other in ends.conns)
    requires CutAll(w, h, a, ends, hits).Ok?
    ensures Grown(w, CutAll(w, h, a, ends, hits).value, w.page.heap[a])
    decreases |hits|
  {
    if hits == [] {
      GrownReflexive(w, w.page.heap[a]);
    } else {
      var w1 := CutAt(w, h, a, ends, hits[0]).value;
      CutAtGrows(w, h, a, ends, hits[0]);
      CutAllGrows(w1, h, a, ends, hits[1..]);
      assert w1.page.heap[a] == w.page.heap[a];
      GrownTransitive(w, w1, CutAll(w, h, a, ends, hits).value, w.page.heap[a]);
    }
  }

  lemma StepGrows(w: Walk, h: Hierarchy, a: Ref, ends: Ends, seg: Seg)
    requires WalkOk(w, h, a, ends) && Step(w, h, a, ends, seg).Ok?
    ensures Grown(w, Step(w, h, a, ends, seg).value, w.page.heap[a])
  {
    if seg.SegLine? && HitsOn(w.page.heap, ends.conns, Line(w.last, seg.p)) != [] {
      CutStepGrows(w, h, a, ends, seg.p);
    } else {
      GrownReflexive(w, w.page.heap[a]);
      var r := Step(w, h, a, ends, seg).value;
      GrownSamePage(w, w, r, w.page.heap[a]);
    }
  }

  lemma CutStepGrows(w: Walk, h: Hierarchy, a: Ref, ends: Ends, pt: Point)
    requires WalkOk(w, h, a, ends) && HitsOn(w.page.heap, ends.conns, Line(w.last, pt)) != []
    requires Step(w, h, a, ends, SegLine(pt)).Ok?
    ensures Grown(w, Step(w, h, a, ends, SegLine(pt)).value, w.page.heap[a])
  {
    var hits := HitsOn(w.page.heap, ends.conns, Line(w.last, pt));
    var sorted := InOrder(hits, w.page.heap[a].geom.start, ends.conns);
    assert CutAll(w, h, a, ends, sorted).Ok?;
    CutAllGrows(w, h, a, ends, sorted);
    var w1 := CutAll(w, h, a, ends, sorted).value;
    var path := LineOn(w1.current, pt).value;
    assert Step(w, h, a, ends, SegLine(pt)) == Ok(w1.(current := path, last := pt));
    GrownSamePage(w, w1, w1.(current := path, last := pt), w.page.heap[a]);
  }

  /** Moving the pen or extending the current path is no growth. */
  lemma GrownSamePage(w0: Walk, w1: Walk, w: Walk, src: ShapeData)
    requires Grown(w0, w1, src) && w.page == w1.page && w.pieces == w1.pieces
    ensures Grown(w0, w, src)
  {
  }

  lemma {:induction false} WalkAllGrows(w: Walk, h: Hierarchy, a: Ref, ends: Ends, segs: seq<Seg>)
    requires WalkOk(w, h, a, ends) && WalkAll(w, h, a, ends, segs).Ok?
    ensures Grown(w, WalkAll(w, h, a, ends, segs).value, w.page.heap[a])
    decreases |segs|
  {
    if segs == [] {
      GrownReflexive(w, w.page.heap[a]);
    } else {
      var w1 := Step(w, h, a, ends, segs[0]).value;
      StepGrows(w, h, a, ends, segs[0]);
      WalkAllGrows(w1, h, a, ends, segs[1..]);
      assert w1.page.heap[a] == w.page.heap[a];
      GrownTransitive(w, w1, WalkAll(w, h, a, ends, segs).value, w.page.heap[a]);
    }
  }

  /**
   * The hand-over of the connector's text to the chosen piece `t`: its text
   * flag and centre, its label and a `textRef` naming the connector. No
   * piece chosen is a null dereference.
   */
  function GiveText(p: Page, h: Hierarchy, a: Ref, t: Option<Ref>): (r: Result<Page, Error>)
    requires Tracked(p, h) && a < |p.heap| && p.heap[a].hasText && (t.Some? ==> t.value < |p.heap|)
    ensures r.Err? <==> t.None?
    ensures r.Err? ==> r.error == NullPointer
    ensures r.Ok? ==> Tracked(r.value, h) && SameGeometry(p, r.value)
    ensures r.Ok? ==> r.value.heap == p.heap[t.value := p.heap[t.value].(hasText := true, textCenter := p.heap[a].textCenter)]
    ensures r.Ok? ==> r.value == p.(heap := r.value.heap, graph := r.value.graph)
    ensures r.Ok? ==> r.value.graph.vertices == p.graph.vertices && r.value.graph.edges == p.graph.edges
    ensures r.Ok? ==> var v := p.heap[t.value].shapeId;
                      r.value.graph.props == p.graph.props[v := p.graph.props[v].(text := p.graph.props[p.heap[a].shapeId].text,
                                                                                  textRef := Some(p.heap[a].shapeId))]
  {
    if t.None? then Err(NullPointer)
    else
      HandedTracked(p, h, a, t.value);
      Ok(Handed(p, a, t.value))
  }

  /** The page after piece `x` takes the connector's text. */
  function Handed(p: Page, a: Ref, x: Ref): Page
    requires Valid(p) && a < |p.heap| && x < |p.heap|
  {
    var v := p.heap[x].shapeId;
    assert v in p.graph.props && p.heap[a].shapeId in p.graph.props;
    var props := p.graph.props[v].(text := p.graph.props[p.heap[a].shapeId].text, textRef := Some(p.heap[a].shapeId));
    p.(heap := p.heap[x := p.heap[x].(hasText := true, textCenter := p.heap[a].textCenter)],
       graph := SetProps(p.graph, v, props))
  }

  /** Handing the text over changes text fields and one vertex's properties only, so the bookkeeping holds. */
  lemma HandedTracked(p: Page, h: Hierarchy, a: Ref, x: Ref)
    requires Tracked(p, h) && a < |p.heap| && p.heap[a].hasText && x < |p.heap|
    ensures Tracked(Handed(p, a, x), h) && SameGeometry(p, Handed(p, a, x))
  {
    HandedValid(p, a, x);
    HandedPlaced(p, h, a, x);
  }

  lemma HandedValid(p: Page, a: Ref, x: Ref)
    requires Valid(p) && a < |p.heap| && p.heap[a].hasText && x < |p.heap|
    ensures Valid(Handed(p, a, x)) && SameGeometry(p, Handed(p, a, x))
  {
    var q := Handed(p, a, x);
    assert ShapeOk(p.heap[a]);
    assert RefsOk(q) by {
      assert forall k :: k in p.shapesMap ==> p.shapesMap[k] < |p.heap|;
    }
    assert ShapesOk(q) by {
      forall i | 0 <= i < |q.heap| ensures ShapeOk(q.heap[i]) {
        assert ShapeOk(p.heap[i]);
      }
    }
  }

  lemma HandedPlaced(p: Page, h: Hierarchy, a: Ref, x: Ref)
    requires Tracked(p, h) && a < |p.heap| && x < |p.heap|
    ensures RtreeExact(Handed(p, a, x)) && Hierarchical(Handed(p, a, x), h)
  {
    var q := Handed(p, a, x);
    assert forall i :: 0 <= i < |p.heap| ==>
      q.heap[i].bounds == p.heap[i].bounds && q.heap[i].parentId == p.heap[i].parentId
      && q.heap[i].removed == p.heap[i].removed;
  }

  /** The text test on the last piece `x`, then the hand-over when the connector has text. */
  function Retext(p: Page, h: Hierarchy, a: Ref, x: Ref, t: Option<Ref>): (r: Result<Page, Error>)
    requires Tracked(p, h) && a < |p.heap| && x < |p.heap| && Is1d(p.heap[x]) && (t.Some? ==> t.value < |p.heap|)
    ensures r.Ok? ==> Tracked(r.value, h) && SameGeometry(p, r.value)
    ensures r.Err? <==> p.heap[a].hasText && TextAfter(p, a, x, t).None?
    ensures r.Err? ==> r.error == NullPointer
    ensures r.Ok? ==> r.value.shapes == p.shapes && r.value.shapesMap == p.shapesMap
    ensures r.Ok? ==> r.value.graph.vertices == p.graph.vertices
    ensures r.Ok? && !p.heap[a].hasText ==> r.value == p
    ensures r.Ok? ==> r.value.heap == WithText(p.heap, TextChoice(p, a, x, t), p.heap[a].textCenter)
  {
    if p.heap[a].hasText then GiveText(p, h, a, TextAfter(p, a, x, t)) else Ok(p)
  }

  /**
   * The last piece `x` is joined from the shape crossed last
   * ("inferred2d-split-next-end", a null dereference when nothing was
   * crossed) and to the shapes holding the end; then the connector is
   * removed.
   */
  function Close(p: Page, h: Hierarchy, a: Ref, x: Ref, last: Option<Ref>, toEnd: seq<Ref>): (r: Result<Page, Error>)
    requires Tracked(p, h) && a < |p.heap| && x < |p.heap| && InHeap(p, toEnd) && (last.Some? ==> last.value < |p.heap|)
    ensures r.Ok? ==> Tracked(r.value, h) && |r.value.heap| == |p.heap|
    ensures r.Err? ==> r.error == NullPointer || r.error == MissingVertex(p.heap[a].shapeId)
    ensures last.None? ==> r == Err(NullPointer)
    ensures r.Ok? ==> r.value.heap == Removed(p.heap, a)
    ensures r.Ok? ==> r.value.shapes == p.shapes && r.value.shapesMap == p.shapesMap
    ensures r.Ok? ==> p.heap[a].shapeId !in r.value.graph.vertices
  {
    var q1 :- CreateEdgeOrNull(p, last, Some(x), SplitNextEnd);
    GraphOnlyTracked(p, q1, h);
    var q2 := EdgesFrom(q1, x, toEnd, SplitEnd);
    GraphOnlyTracked(q1, q2, h);
    var q3 :- RemoveShape(q2, a);
    RemoveShapeKeeps(q2, h, a);
    Ok(q3)
  }

  /**
   * After the loop: the rest of the path becomes the last piece, the text
   * goes to the piece chosen, and the last piece is joined before the
   * connector is removed.
   */
  function Finish(w: Walk, h: Hierarchy, a: Ref, ends: Ends): (r: Result<(Page, seq<Ref>), Error>)
    requires WalkOk(w, h, a, ends)
    ensures r.Ok? ==> Tracked(r.value.0, h) && InHeap(r.value.0, r.value.1)
    ensures r.Ok? ==> w.lastShape.Some? && r.value.1 == w.pieces + [|w.page.heap|] && |r.value.0.heap| == |w.page.heap| + 1
    ensures r.Err? ==> r.error == NullPointer || r.error == MissingVertex(w.page.heap[a].shapeId)
  {
    var (q, x) := Piece(w.page, h, a, w.current);
    InHeapGrows(w.page, q, ends.toEnd);
    InHeapGrows(w.page, q, w.pieces);
    InHeapAppend(q, w.pieces, x);
    assert q.heap[a] == w.page.heap[a];
    var c :- Conclude(q, h, a, x, w.textShape, w.lastShape, ends.toEnd);
    Ok((c, w.pieces + [x]))
  }

  /** The piece the hand-over goes to: none when the connector has no text. */
  function TextChoice(q: Page, a: Ref, x: Ref, ts: Option<Ref>): (t: Option<Ref>)
    requires ShapesOk(q) && a < |q.heap| && x < |q.heap| && Is1d(q.heap[x]) && (ts.Some? ==> ts.value < |q.heap|)
    ensures t.Some? ==> t.value < |q.heap|
  {
    if q.heap[a].hasText then TextAfter(q, a, x, ts) else None
  }

  /** The records with `t`'s text flag set and its text centre replaced. */
  function WithText(heap: seq<ShapeData>, t: Option<Ref>, center: Option<Point>): (r: seq<ShapeData>)
    requires t.Some? ==> t.value < |heap|
    ensures |r| == |heap|
  {
    if t.None? then heap else heap[t.value := heap[t.value].(hasText := true, textCenter := center)]
  }

  /** The records with `a` marked removed. */
  function Removed(heap: seq<ShapeData>, a: Ref): (r: seq<ShapeData>)
    requires a < |heap|
    ensures |r| == |heap|
  {
    heap[a := heap[a].(removed := true)]
  }

  /** The text hand-over and the closing edges on the page `q` that holds the last piece `x`. */
  function Conclude(q: Page, h: Hierarchy, a: Ref, x: Ref, ts: Option<Ref>, last: Option<Ref>, toEnd: seq<Ref>): (r: Result<Page, Error>)
    requires Tracked(q, h) && a < |q.heap| && x < |q.heap| && Is1d(q.heap[x])
    requires InHeap(q, toEnd) && (last.Some? ==> last.value < |q.heap|) && (ts.Some? ==> ts.value < |q.heap|)
    ensures r.Ok? ==> Tracked(r.value, h) && |r.value.heap| == |q.heap|
    ensures r.Err? ==> r.error == NullPointer || r.error == MissingVertex(q.heap[a].shapeId)
    ensures last.None? ==> r == Err(NullPointer)
    ensures r.Ok? ==> r.value.heap == Removed(WithText(q.heap, TextChoice(q, a, x, ts), q.heap[a].textCenter), a)
    ensures r.Ok? ==> r.value.shapes == q.shapes && r.value.shapesMap == q.shapesMap
    ensures r.Ok? ==> q.heap[a].shapeId !in r.value.graph.vertices
  {
    var q1 :- Retext(q, h, a, x, ts);
    Close(q1, h, a, x, last, toEnd)
  }


  /**
   * The piece that ends up with the connector's text: the last piece when
   * its path is not empty, else the one chosen during the walk — none when
   * the connector has no text.
   */
  function TextTarget(w: Walk, a: Ref): Option<Ref>
    requires a < |w.page.heap|
  {
    if !w.page.heap[a].hasText then None
    else if Items(w.current) != [] then Some(|w.page.heap|)
    else w.textShape
  }

  /**
   * How the finish leaves the heap `q` made from `heap`: one last piece at
   * the end, the connector `a` marked removed, the text on the target piece
   * `t`, and every other record as it was.
   */
  predicate Finished(heap: seq<ShapeData>, a: Ref, t: Option<Ref>, q: seq<ShapeData>)
    requires a < |heap|
  {
    var n := |heap|;
    var src := heap[a];
    && |q| == n + 1
    && q[a] == src.(removed := true)
    && (forall i :: 0 <= i < n && i != a && Some(i) != t ==> q[i] == heap[i])
    && (forall i :: 0 <= i < n && Some(i) == t ==> q[i] == heap[i].(hasText := true, textCenter := src.textCenter))
    && PieceOf(q[n], src) && (q[n].hasText <==> t == Some(n))
    && (t == Some(n) ==> q[n].textCenter == src.textCenter)
  }

  /** The piece chosen during the walk is in the heap and is not the connector. */
  lemma TextShapeIn(w: Walk, h: Hierarchy, a: Ref, ends: Ends)
    requires WalkOk(w, h, a, ends) && a !in w.pieces
    ensures w.textShape.Some? ==> w.textShape.value < |w.page.heap| && w.textShape.value != a
  {
    if w.textShape.Some? {
      var i :| 0 <= i < |w.pieces| && w.pieces[i] == w.textShape.value;
    }
  }

  /** The heap-level step: after the last piece, move the text to `t` and remove `a`. */
  lemma FinishedHeap(heap: seq<ShapeData>, a: Ref, t: Option<Ref>, b: seq<ShapeData>)
    requires a < |heap| && |b| == |heap| + 1 && b[..|heap|] == heap
    requires PieceOf(b[|heap|], heap[a]) && !b[|heap|].hasText && t != Some(a)
    requires t.Some? ==> t.value <= |heap|
    ensures Finished(heap, a, t, Removed(WithText(b, t, b[a].textCenter), a))
  {
    assert b[a] == heap[a];
  }

  /**
   * The finish appends one last piece, marks the connector removed and
   * drops its vertex, moves the text onto the target piece, and changes no
   * other record, nor the list or the map. It fails when nothing was
   * crossed.
   */
  lemma FinishMeaning(w: Walk, h: Hierarchy, a: Ref, ends: Ends)
    requires WalkOk(w, h, a, ends) && a !in w.pieces
    ensures Finish(w, h, a, ends).Ok? ==>
              var q := Finish(w, h, a, ends).value.0;
              && Finished(w.page.heap, a, TextTarget(w, a), q.heap)
              && q.shapes == w.page.shapes && q.shapesMap == w.page.shapesMap
              && w.page.heap[a].shapeId !in q.graph.vertices
  {
    LastPieceConcludes(w, h, a, ends);
    FinishIsConclude(w, h, a, ends);
  }

  /** The text target is the last piece or the one chosen during the walk. */
  lemma FinishText(w: Walk, h: Hierarchy, a: Ref, ends: Ends)
    requires WalkOk(w, h, a, ends)
    ensures Finish(w, h, a, ends).Ok? && w.page.heap[a].hasText ==>
              TextTarget(w, a).Some? && TextTarget(w, a).value in Finish(w, h, a, ends).value.1
  {
    if Finish(w, h, a, ends).Ok? && w.page.heap[a].hasText {
      var t := TextTarget(w, a);
      var ps := Finish(w, h, a, ends).value.1;
      assert ps == w.pieces + [|w.page.heap|];
      if t != Some(|w.page.heap|) {
        assert t == w.textShape;
        var (q, x) := Piece(w.page, h, a, w.current);
        InHeapGrows(w.page, q, ends.toEnd);
        FinishIsConclude(w, h, a, ends);
        assert Conclude(q, h, a, x, w.textShape, w.lastShape, ends.toEnd).Ok?;
        assert t.Some?;
      }
    }
  }

  /** `ConcludeMeaning` on the page the finish makes its last piece on. */
  lemma LastPieceConcludes(w: Walk, h: Hierarchy, a: Ref, ends: Ends)
    requires WalkOk(w, h, a, ends) && a !in w.pieces
    ensures var (q, x) := Piece(w.page, h, a, w.current);
            InHeap(q, ends.toEnd) &&
            (Conclude(q, h, a, x, w.textShape, w.lastShape, ends.toEnd).Ok? ==>
               var c := Conclude(q, h, a, x, w.textShape, w.lastShape, ends.toEnd).value;
               && Finished(w.page.heap, a, TextTarget(w, a), c.heap)
               && c.shapes == w.page.shapes && c.shapesMap == w.page.shapesMap
               && w.page.heap[a].shapeId !in c.graph.vertices)
  {
    var (q, x) := Piece(w.page, h, a, w.current);
    InHeapGrows(w.page, q, ends.toEnd);
    TextShapeIn(w, h, a, ends);
    TextTargetAfter(w, q, a, x);
    ConcludeMeaning(w.page.heap, q, h, a, x, w.textShape, w.lastShape, ends.toEnd);
  }

  lemma FinishIsConclude(w: Walk, h: Hierarchy, a: Ref, ends: Ends)
    requires WalkOk(w, h, a, ends)
    ensures var (q, x) := Piece(w.page, h, a, w.current);
            InHeap(q, ends.toEnd) &&
            (Finish(w, h, a, ends).Ok? ==>
               && Conclude(q, h, a, x, w.textShape, w.lastShape, ends.toEnd).Ok?
               && Finish(w, h, a, ends).value == (Conclude(q, h, a, x, w.textShape, w.lastShape, ends.toEnd).value, w.pieces + [x]))
  {
    var (q, x) := Piece(w.page, h, a, w.current);
    InHeapGrows(w.page, q, ends.toEnd);
  }

  /** With nothing crossed, the closing `createEdge(lastShape, …)` dereferences null. */
  lemma FinishNeedsCrossing(w: Walk, h: Hierarchy, a: Ref, ends: Ends)
    requires WalkOk(w, h, a, ends) && w.lastShape.None?
    ensures Finish(w, h, a, ends) == Err(NullPointer)
  {
  }

  /** On the page holding the last piece, the text test picks the text target. */
  lemma TextTargetAfter(w: Walk, q: Page, a: Ref, x: Ref)
    requires ShapesOk(q) && a < |w.page.heap| && x == |w.page.heap| && |q.heap| == x + 1
    requires q.heap[a] == w.page.heap[a] && Is1d(q.heap[x]) && q.heap[x].geom.path1D == w.current
    requires w.textShape.Some? ==> w.textShape.value < |q.heap|
    ensures TextTarget(w, a) == TextChoice(q, a, x, w.textShape)
  {
  }

  /** What the text hand-over and the closing edges do to the heap. */
  lemma ConcludeMeaning(heap: seq<ShapeData>, q: Page, h: Hierarchy, a: Ref, x: Ref, ts: Option<Ref>,
                        last: Option<Ref>, toEnd: seq<Ref>)
    requires Tracked(q, h) && a < |heap| && x == |heap| && |q.heap| == |heap| + 1 && q.heap[..|heap|] == heap
    requires Is1d(q.heap[x]) && PieceOf(q.heap[x], heap[a]) && !q.heap[x].hasText
    requires InHeap(q, toEnd) && (last.Some? ==> last.value < |q.heap|)
    requires ts.Some? ==> ts.value < |heap| && ts.value != a
    ensures Conclude(q, h, a, x, ts, last, toEnd).Ok? ==>
              Finished(heap, a, TextChoice(q, a, x, ts), Conclude(q, h, a, x, ts, last, toEnd).value.heap)
  {
    FinishedHeap(heap, a, TextChoice(q, a, x, ts), q.heap);
  }

  // ---------------------------------------------------------------------------
  // infer2dConnections

  /** The walk's starting state: an empty `Path2D.Double`, the cursor at the origin, nothing crossed or chosen. */
  function Begin(p: Page): Walk {
    Walk(p, EmptyPath(NonZero), Origin, None, None, [])
  }

  /**
   * `infer2dConnections(a, newShapes)`: the search over the shapes whose
   * rtree rectangles meet the connector's bounds, and, when it leaves
   * crossings, the loop over the connector's edges, the cut along its
   * flattened path and the finish. The result holds the pieces made, in
   * order.
   */
  function Infer2d(p: Page, h: Hierarchy, contains: Inside, a: Ref): (r: Result<(Page, seq<Ref>), Error>)
    requires Tracked(p, h) && a < |p.heap| && Is1d(p.heap[a])
    ensures r.Ok? ==> Tracked(r.value.0, h) && InHeap(r.value.0, r.value.1)
  {
    var attached := Neighbours(p.graph, p.heap[a].shapeId, {Real});
    var s :- Scan(p, a, attached, contains, Around(p, a), []);
    GraphOnlyTracked(p, s.0, h);
    if s.1 == [] then Ok((s.0, [])) else Cut(s.0, h, contains, a, s.1)
  }

  /** The edge loop, the walk along the flattened path and the finish, once the search found crossings `conns`. */
  function Cut(p: Page, h: Hierarchy, contains: Inside, a: Ref, conns: seq<Ref>): (r: Result<(Page, seq<Ref>), Error>)
    requires Tracked(p, h) && a < |p.heap| && Is1d(p.heap[a]) && InHeap(p, conns)
    ensures r.Ok? ==> Tracked(r.value.0, h) && InHeap(r.value.0, r.value.1) && r.value.1 != []
  {
    var d :- Detach(p, a, contains, EdgesOf(p.graph, p.heap[a].shapeId), Ends(conns, [], []), AddsInEnd);
    GraphOnlyTracked(p, d.0, h);
    Trace(d.0, h, a, d.1, Flattened(p.heap[a].geom.path1D.segs))
  }

  /** The walk from the empty path along the flattened segments `segs`, then the finish. */
  function Trace(p: Page, h: Hierarchy, a: Ref, ends: Ends, segs: seq<Seg>): (r: Result<(Page, seq<Ref>), Error>)
    requires Tracked(p, h) && a < |p.heap| && Is1d(p.heap[a]) && EndsIn(p, ends)
    ensures r.Ok? ==> Tracked(r.value.0, h) && InHeap(r.value.0, r.value.1) && r.value.1 != []
  {
    var w :- WalkAll(Begin(p), h, a, ends, segs);
    Finish(w, h, a, ends)
  }

  // ---------------------------------------------------------------------------
  // What a split does

  /**
   * A connector `a` split into pieces: the heap `q` extends `heap` by at
   * least two pieces of the connector, marks the connector removed and
   * leaves every other earlier record as it was; the connector's text, if
   * any, sits on exactly one piece, with the connector's text centre, and
   * no piece has text otherwise.
   */
  predicate SplitHeap(heap: seq<ShapeData>, a: Ref, q: seq<ShapeData>)
    requires a < |heap|
  {
    var n := |heap|;
    && |q| >= n + 2
    && q[a] == heap[a].(removed := true)
    && (forall i :: 0 <= i < n && i != a ==> q[i] == heap[i])
    && (forall i :: n <= i < |q| ==> PieceOf(q[i], heap[a]))
    && (forall i, j :: n <= i < |q| && n <= j < |q| && q[i].hasText && q[j].hasText ==> i == j)
    && (forall i :: n <= i < |q| && q[i].hasText ==> q[i].textCenter == heap[a].textCenter)
    && (heap[a].hasText <==> exists i :: n <= i < |q| && q[i].hasText)
  }

  /** The walk's text-less pieces followed by the finish make a split. */
  lemma SplitHeapOf(heap: seq<ShapeData>, a: Ref, w: seq<ShapeData>, t: Option<Ref>, q: seq<ShapeData>)
    requires a < |heap| < |w| && w[..|heap|] == heap
    requires forall i :: |heap| <= i < |w| ==> PieceOf(w[i], heap[a]) && !w[i].hasText
    requires Finished(w, a, t, q)
    requires heap[a].hasText ==> t.Some? && |heap| <= t.value <= |w|
    requires !heap[a].hasText ==> t.None?
    ensures SplitHeap(heap, a, q)
  {
    var n := |heap|;
    assert w[a] == heap[a];
    forall i | 0 <= i < n && i != a ensures q[i] == heap[i] {
      assert w[i] == heap[i];
    }
    if heap[a].hasText {
      assert q[t.value].hasText;
    }
  }

  /**
   * The walk and the finish split the connector: the pieces are the new
   * records, in order, and the list, the map and every other record keep
   * their state; the connector's vertex is gone.
   */
  lemma TraceSplits(p: Page, h: Hierarchy, a: Ref, ends: Ends, segs: seq<Seg>)
    requires Tracked(p, h) && a < |p.heap| && Is1d(p.heap[a]) && EndsIn(p, ends)
    ensures Trace(p, h, a, ends, segs).Ok? ==>
              var (q, ps) := Trace(p, h, a, ends, segs).value;
              && SplitHeap(p.heap, a, q.heap) && ps == Span(|p.heap|, |q.heap|)
              && q.shapes == p.shapes && q.shapesMap == p.shapesMap
              && p.heap[a].shapeId !in q.graph.vertices
  {
    var ww := WalkAll(Begin(p), h, a, ends, segs);
    if ww.Ok? {
      WalkAllGrows(Begin(p), h, a, ends, segs);
      FinishSplits(p, ww.value, h, a, ends);
      FinishPiecesNew(p, ww.value, h, a, ends);
      FinishKeepsLists(p, ww.value, h, a, ends);
    }
  }

  /** The finish after a walk that grew `p` splits the connector. */
  lemma FinishSplits(p: Page, w: Walk, h: Hierarchy, a: Ref, ends: Ends)
    requires WalkOk(w, h, a, ends) && a < |p.heap| && Grown(Begin(p), w, p.heap[a])
    ensures Finish(w, h, a, ends).Ok? ==>
              var (q, ps) := Finish(w, h, a, ends).value;
              SplitHeap(p.heap, a, q.heap)
  {
    GrownFromBegin(p, w, a);
    FinishMeaning(w, h, a, ends);
    TargetAmongNew(p, w, h, a, ends);
    var f := Finish(w, h, a, ends);
    if f.Ok? {
      SplitFromGrown(p, w, a, TextTarget(w, a), f.value.0.heap);
    }
  }

  lemma SplitFromGrown(p: Page, w: Walk, a: Ref, t: Option<Ref>, q: seq<ShapeData>)
    requires a < |p.heap| < |w.page.heap| && Grown(Begin(p), w, p.heap[a])
    requires Finished(w.page.heap, a, t, q)
    requires p.heap[a].hasText ==> t.Some? && |p.heap| <= t.value <= |w.page.heap|
    requires !p.heap[a].hasText ==> t.None?
    ensures SplitHeap(p.heap, a, q)
  {
    SplitHeapOf(p.heap, a, w.page.heap, t, q);
  }

  /** The finish after a walk that grew `p` lists exactly the new records as the pieces, in order. */
  lemma FinishPiecesNew(p: Page, w: Walk, h: Hierarchy, a: Ref, ends: Ends)
    requires WalkOk(w, h, a, ends) && a < |p.heap| && Grown(Begin(p), w, p.heap[a])
    ensures Finish(w, h, a, ends).Ok? ==>
              Finish(w, h, a, ends).value.1 == Span(|p.heap|, |Finish(w, h, a, ends).value.0.heap|)
  {
    GrownFromBegin(p, w, a);
    if Finish(w, h, a, ends).Ok? {
      var r := Finish(w, h, a, ends).value;
      SpanNext(|p.heap|, |w.page.heap|, w.pieces, r.1, |r.0.heap|);
    }
  }

  lemma SpanNext(lo: nat, hi: nat, s: seq<Ref>, t: seq<Ref>, k: nat)
    requires lo <= hi && s == Span(lo, hi) && t == s + [hi] && k == hi + 1
    ensures t == Span(lo, k)
  {
  }

  /** The finish after a walk that grew `p` keeps the list and the map and drops the connector's vertex. */
  lemma FinishKeepsLists(p: Page, w: Walk, h: Hierarchy, a: Ref, ends: Ends)
    requires WalkOk(w, h, a, ends) && a < |p.heap| && Grown(Begin(p), w, p.heap[a])
    ensures Finish(w, h, a, ends).Ok? ==>
              var q := Finish(w, h, a, ends).value.0;
              && q.shapes == p.shapes && q.shapesMap == p.shapesMap
              && p.heap[a].shapeId !in q.graph.vertices
  {
    GrownFromBegin(p, w, a);
    FinishMeaning(w, h, a, ends);
  }

  /** After a walk that grew `p`, the text target of a successful finish is one of the new records. */
  lemma TargetAmongNew(p: Page, w: Walk, h: Hierarchy, a: Ref, ends: Ends)
    requires WalkOk(w, h, a, ends) && a < |p.heap| && Grown(Begin(p), w, p.heap[a])
    ensures Finish(w, h, a, ends).Ok? ==>
              && |p.heap| < |w.page.heap|
              && (p.heap[a].hasText ==> TextTarget(w, a).Some? && |p.heap| <= TextTarget(w, a).value <= |w.page.heap|)
              && (!p.heap[a].hasText ==> TextTarget(w, a).None?)
  {
    GrownFromBegin(p, w, a);
    FinishText(w, h, a, ends);
    if Finish(w, h, a, ends).Ok? && p.heap[a].hasText {
      InSpanOrEnd(|p.heap|, |w.page.heap|, TextTarget(w, a).value);
    }
  }

  /** A walk from the start: its pieces are exactly the new records, and the connector is not one of them. */
  lemma GrownFromBegin(p: Page, w: Walk, a: Ref)
    requires a < |p.heap| && Grown(Begin(p), w, p.heap[a])
    ensures w.pieces == Span(|p.heap|, |w.page.heap|)
    ensures a !in w.pieces && w.page.heap[a] == p.heap[a]
  {
    assert w.pieces == [] + Span(|p.heap|, |w.page.heap|);
    assert w.page.heap[..|p.heap|][a] == p.heap[a];
    assert forall k :: 0 <= k < |w.pieces| ==> w.pieces[k] >= |p.heap| > a;
  }

  lemma InSpanOrEnd(lo: nat, hi: nat, x: Ref)
    requires lo <= hi && x in Span(lo, hi) + [hi]
    ensures lo <= x <= hi
  {
    var k :| 0 <= k < |Span(lo, hi) + [hi]| && (Span(lo, hi) + [hi])[k] == x;
    if k < hi - lo {
      assert (Span(lo, hi) + [hi])[k] == Span(lo, hi)[k];
    }
  }

  /** A successful cut splits the connector. */
  lemma CutSplits(p: Page, h: Hierarchy, contains: Inside, a: Ref, conns: seq<Ref>)
    requires Tracked(p, h) && a < |p.heap| && Is1d(p.heap[a]) && InHeap(p, conns)
    ensures Cut(p, h, contains, a, conns).Ok? ==>
              var (q, ps) := Cut(p, h, contains, a, conns).value;
              && SplitHeap(p.heap, a, q.heap) && ps == Span(|p.heap|, |q.heap|)
              && q.shapes == p.shapes && q.shapesMap == p.shapesMap
              && p.heap[a].shapeId !in q.graph.vertices
  {
    var d := Detach(p, a, contains, EdgesOf(p.graph, p.heap[a].shapeId), Ends(conns, [], []), AddsInEnd);
    if d.Ok? {
      GraphOnlyTracked(p, d.value.0, h);
      TraceSplits(d.value.0, h, a, d.value.1, Flattened(p.heap[a].geom.path1D.segs));
    }
  }

  /**
   * `infer2dConnections` on a connector that crosses shapes: the pieces
   * are new records, at least two, in order; the connector is marked
   * removed and its vertex is gone; its text, if any, sits on exactly one
   * piece; every other record, the list and the map are unchanged.
   */
  lemma Infer2dSplits(p: Page, h: Hierarchy, contains: Inside, a: Ref)
    requires Tracked(p, h) && a < |p.heap| && Is1d(p.heap[a])
    ensures Infer2d(p, h, contains, a).Ok? && Infer2d(p, h, contains, a).value.1 != [] ==>
              var (q, ps) := Infer2d(p, h, contains, a).value;
              && SplitHeap(p.heap, a, q.heap) && ps == Span(|p.heap|, |q.heap|)
              && q.shapes == p.shapes && q.shapesMap == p.shapesMap
              && p.heap[a].shapeId !in q.graph.vertices
  {
    var attached := Neighbours(p.graph, p.heap[a].shapeId, {Real});
    var s := Scan(p, a, attached, contains, Around(p, a), []);
    if s.Ok? && s.value.1 != [] {
      GraphOnlyTracked(p, s.value.0, h);
      CutSplits(s.value.0, h, contains, a, s.value.1);
    }
  }

  /**
   * `infer2dConnections` on a connector that crosses nothing: the records
   * stay, every crossed shape around it holds one of its ends and is joined
   * to it, and each new edge joins it to a shape it crosses.
   */
  lemma Infer2dJoins(p: Page, h: Hierarchy, contains: Inside, a: Ref)
    requires Tracked(p, h) && a < |p.heap| && Is1d(p.heap[a])
    ensures var attached := Neighbours(p.graph, p.heap[a].shapeId, {Real});
            var os := Around(p, a);
            Infer2d(p, h, contains, a).Ok? && Infer2d(p, h, contains, a).value.1 == [] ==>
              var q := Infer2d(p, h, contains, a).value.0;
              && q == p.(graph := q.graph)
              && EdgesGrow(p, q)
              && (forall i :: |p.graph.edges| <= i < |q.graph.edges| ==> TouchEdge(p.heap, a, attached, contains, q.graph.edges[i]))
              && (forall j :: 0 <= j < |os| && Crosses(p.heap, a, attached, os[j]) ==>
                    && HoldsEnd(contains, p.heap[os[j]].geom.path2D, p.heap[a].geom) == Ok(true)
                    && Joined(q, p.heap[a].shapeId, p.heap[os[j]].shapeId))
  {
    var attached := Neighbours(p.graph, p.heap[a].shapeId, {Real});
    var os := Around(p, a);
    var s := Scan(p, a, attached, contains, os, []);
    if s.Ok? && s.value.1 == [] {
      ScanAdds(p, a, attached, contains, os, []);
      ScanUncrossed(p, a, attached, contains, os);
    }
  }

  /** A scan that collects no connector piece has joined every crossed shape, each of which holds an end. */
  lemma ScanUncrossed(p: Page, a: Ref, attached: set<int>, contains: Inside, os: seq<Ref>)
    requires Valid(p) && a < |p.heap| && Is1d(p.heap[a]) && InHeap(p, os)
    requires Scan(p, a, attached, contains, os, []).Ok? && Scan(p, a, attached, contains, os, []).value.1 == []
    ensures forall j :: 0 <= j < |os| && Crosses(p.heap, a, attached, os[j]) ==>
              && HoldsEnd(contains, p.heap[os[j]].geom.path2D, p.heap[a].geom) == Ok(true)
              && Joined(Scan(p, a, attached, contains, os, []).value.0, p.heap[a].shapeId, p.heap[os[j]].shapeId)
  {
    var s := Scan(p, a, attached, contains, os, []);
    ScanFails(p, a, attached, contains, os, []);
    ScanCollects(p, a, attached, contains, os, []);
    ScanJoins(p, a, attached, contains, os, []);
    forall j | 0 <= j < |os| && Crosses(p.heap, a, attached, os[j])
      ensures HoldsEnd(contains, p.heap[os[j]].geom.path2D, p.heap[a].geom) == Ok(true)
    {
      assert os[j] in os;
      assert os[j] !in s.value.1;
    }
  }
}
