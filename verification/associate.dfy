/**
 * `associateText`: every live shape without text takes the text of the
 * nearest live textbox within reach, together with the textbox's edges, and
 * the textbox is removed.
 */
module Association {
  import opened Wrappers
  import opened Geom2D
  import opened Errors
  import opened Seqs
  import opened Sorting
  import opened Shapes
  import opened PropertyGraph
  import opened Page

  // ---------------------------------------------------------------------------
  // rtree.nearest(bounds, 0.6, rtree.size())

  /** The gap between the intervals `[lo1, hi1]` and `[lo2, hi2]`; 0 when they overlap. */
  function Gap(lo1: real, hi1: real, lo2: real, hi2: real): (g: real)
    ensures g >= 0.0
    ensures lo1 <= hi2 && lo2 <= hi1 ==> g == 0.0
    ensures g > 0.0 ==> hi1 < lo2 || hi2 < lo1
  {
    Max(0.0, Max(lo2 - hi1, lo1 - hi2))
  }

  /**
   * The square of the rtree's distance between two rectangles: the length
   * of the shortest segment joining them, 0 when they meet.
   */
  function RectDistSq(a: Rect, b: Rect): (d: real)
    ensures d >= 0.0
    ensures Intersects(a, b) ==> d == 0.0
  {
    SumSq(Gap(a.x1, a.x2, b.x1, b.x2), Gap(a.y1, a.y2, b.y1, b.y2))
  }

  /** No two points of the intervals are closer than their gap. */
  lemma GapBelow(lo1: real, hi1: real, lo2: real, hi2: real, u: real, v: real)
    requires lo1 <= u <= hi1 && lo2 <= v <= hi2
    ensures Gap(lo1, hi1, lo2, hi2) * Gap(lo1, hi1, lo2, hi2) <= (u - v) * (u - v)
  {
    var g := Gap(lo1, hi1, lo2, hi2);
    var d := if u >= v then u - v else v - u;
    assert g <= d;
    assert d * d == (u - v) * (u - v);
    MulMono(g, g, d, d);
  }

  /** Two points of well-formed intervals, one in each, lie exactly the gap apart. */
  lemma GapAttained(lo1: real, hi1: real, lo2: real, hi2: real) returns (u: real, v: real)
    requires lo1 <= hi1 && lo2 <= hi2
    ensures lo1 <= u <= hi1 && lo2 <= v <= hi2
    ensures (u - v) * (u - v) == Gap(lo1, hi1, lo2, hi2) * Gap(lo1, hi1, lo2, hi2)
  {
    var g := Gap(lo1, hi1, lo2, hi2);
    if hi1 < lo2 {
      u, v := hi1, lo2;
      assert u - v == -g;
    } else if hi2 < lo1 {
      u, v := lo1, hi2;
      assert u - v == g;
    } else {
      u, v := Max(lo1, lo2), Max(lo1, lo2);
      assert g == 0.0;
    }
  }

  /**
   * The rectangle distance is a lower bound: no pair of points, one in each
   * well-formed rectangle, is closer (`RectDistSqAttained` gives a pair that
   * far apart).
   */
  lemma RectDistSqMeaning(a: Rect, b: Rect, p: Point, q: Point)
    requires WellFormed(a) && WellFormed(b)
    ensures InRect(p, a) && InRect(q, b) ==> RectDistSq(a, b) <= PointDistSq(p, q)
  {
    if InRect(p, a) && InRect(q, b) {
      GapBelow(a.x1, a.x2, b.x1, b.x2, p.x, q.x);
      GapBelow(a.y1, a.y2, b.y1, b.y2, p.y, q.y);
    }
  }

  /** The nearest pair of points of two well-formed rectangles. */
  lemma RectDistSqAttained(a: Rect, b: Rect) returns (p: Point, q: Point)
    requires WellFormed(a) && WellFormed(b)
    ensures InRect(p, a) && InRect(q, b)
    ensures PointDistSq(p, q) == RectDistSq(a, b)
  {
    var px, qx := GapAttained(a.x1, a.x2, b.x1, b.x2);
    var py, qy := GapAttained(a.y1, a.y2, b.y1, b.y2);
    p, q := Point(px, py), Point(qx, qy);
  }

  /** How far `associateTextWithShape` looks for a textbox. */
  const Reach: real := 0.6

  /** The entries `rtree.search(rect, Reach)` keeps: strictly closer than `Reach`. */
  function WithinReach(rect: Rect): Entry -> bool {
    (e: Entry) => RectDistSq(e.rect, rect) < Reach * Reach
  }

  /** The order `nearest` reports in, as a key sorted largest first: closer is larger. */
  function Closeness(rect: Rect): Entry -> real {
    (e: Entry) => -RectDistSq(e.rect, rect)
  }

  /**
   * `rtree.nearest(rect, Reach, rtree.size())`: every entry within reach,
   * closest first. Entries at the same distance keep their rtree order.
   */
  function Nearest(p: Page, rect: Rect): (os: seq<Entry>)
    requires RefsOk(p)
    ensures forall e :: e in os <==> e in p.rtree && RectDistSq(e.rect, rect) < Reach * Reach
    ensures forall i, j :: 0 <= i < j < |os| ==> RectDistSq(os[i].rect, rect) <= RectDistSq(os[j].rect, rect)
    ensures forall i :: 0 <= i < |os| ==> os[i].ref < |p.heap|
  {
    var os := SortDesc(Filter(p.rtree, WithinReach(rect)), Closeness(rect));
    NearestFacts(p.rtree, rect);
    forall i | 0 <= i < |os| ensures os[i].ref < |p.heap| {
      assert os[i] in p.rtree;
    }
    os
  }

  /** The sort by closeness keeps exactly the entries within reach and puts nearer ones first. */
  lemma NearestFacts(rtree: seq<Entry>, rect: Rect)
    ensures var os := SortDesc(Filter(rtree, WithinReach(rect)), Closeness(rect));
            && (forall e :: e in os <==> e in rtree && RectDistSq(e.rect, rect) < Reach * Reach)
            && (forall i, j :: 0 <= i < j < |os| ==> RectDistSq(os[i].rect, rect) <= RectDistSq(os[j].rect, rect))
  {
    var close := Filter(rtree, WithinReach(rect));
    var os := SortDesc(close, Closeness(rect));
    SortDescSameElements(close, Closeness(rect));
    forall i, j | 0 <= i < j < |os| ensures RectDistSq(os[i].rect, rect) <= RectDistSq(os[j].rect, rect) {
      assert Closeness(rect)(os[i]) >= Closeness(rect)(os[j]);
    }
  }

  /** A textbox whose text is still there to take. */
  predicate Stealable(heap: seq<ShapeData>, x: Ref)
    requires x < |heap|
  {
    heap[x].isTextbox && !heap[x].removed
  }

  /** The subscriber's test: the position of the first stealable hit, if any. */
  function FirstTextbox(heap: seq<ShapeData>, os: seq<Entry>): (k: Option<nat>)
    requires forall i :: 0 <= i < |os| ==> os[i].ref < |heap|
    ensures k.Some? ==> k.value < |os| && Stealable(heap, os[k.value].ref)
    ensures k.Some? ==> forall i :: 0 <= i < k.value ==> !Stealable(heap, os[i].ref)
    ensures k.None? ==> forall i :: 0 <= i < |os| ==> !Stealable(heap, os[i].ref)
    decreases |os|
  {
    if os == [] then None
    else if Stealable(heap, os[0].ref) then Some(0)
    else
      match FirstTextbox(heap, os[1..])
      case None => None
      case Some(k) => Some(k + 1)
  }

  /** The entry whose textbox `associateTextWithShape(a)` takes, if any. */
  function Chosen(p: Page, a: Ref): (c: Option<Entry>)
    requires Valid(p) && a < |p.heap|
    ensures c.Some? ==> c.value.ref < |p.heap| && Stealable(p.heap, c.value.ref)
  {
    var os := Nearest(p, p.heap[a].bounds);
    match FirstTextbox(p.heap, os)
    case None => None
    case Some(k) => Some(os[k])
  }

  /**
   * The choice is the nearest: the chosen textbox is stealable and within
   * reach, and no stealable textbox within reach is strictly closer.
   */
  lemma ChosenNearest(p: Page, a: Ref)
    requires Valid(p) && a < |p.heap| && Chosen(p, a).Some?
    ensures var c := Chosen(p, a).value;
            var rect := p.heap[a].bounds;
            && c in p.rtree && RectDistSq(c.rect, rect) < Reach * Reach && Stealable(p.heap, c.ref)
            && forall i :: 0 <= i < |p.rtree| && Stealable(p.heap, p.rtree[i].ref) && RectDistSq(p.rtree[i].rect, rect) < Reach * Reach ==>
                 RectDistSq(c.rect, rect) <= RectDistSq(p.rtree[i].rect, rect)
  {
    var rect := p.heap[a].bounds;
    var os := Nearest(p, rect);
    var k := FirstTextbox(p.heap, os).value;
    forall i | 0 <= i < |p.rtree| && Stealable(p.heap, p.rtree[i].ref) && RectDistSq(p.rtree[i].rect, rect) < Reach * Reach
      ensures RectDistSq(os[k].rect, rect) <= RectDistSq(p.rtree[i].rect, rect)
    {
      assert p.rtree[i] in os;
      var j :| 0 <= j < |os| && os[j] == p.rtree[i];
      if j != k {
        assert k < j;
      }
    }
  }

  /** Nothing is chosen exactly when no stealable textbox is within reach. */
  lemma ChosenNone(p: Page, a: Ref)
    requires Valid(p) && a < |p.heap|
    ensures Chosen(p, a).None? <==>
              forall i :: 0 <= i < |p.rtree| && RectDistSq(p.rtree[i].rect, p.heap[a].bounds) < Reach * Reach ==>
                !Stealable(p.heap, p.rtree[i].ref)
  {
    if Chosen(p, a).None? {
      NoneChosenNoneNear(p, a);
    } else {
      SomeChosenSomeNear(p, a);
    }
  }

  lemma NoneChosenNoneNear(p: Page, a: Ref)
    requires Valid(p) && a < |p.heap| && Chosen(p, a).None?
    ensures forall i :: 0 <= i < |p.rtree| && RectDistSq(p.rtree[i].rect, p.heap[a].bounds) < Reach * Reach ==>
              !Stealable(p.heap, p.rtree[i].ref)
  {
    var rect := p.heap[a].bounds;
    var os := Nearest(p, rect);
    forall i | 0 <= i < |p.rtree| && RectDistSq(p.rtree[i].rect, rect) < Reach * Reach
      ensures !Stealable(p.heap, p.rtree[i].ref)
    {
      assert p.rtree[i] in os;
      var j :| 0 <= j < |os| && os[j] == p.rtree[i];
    }
  }

  lemma SomeChosenSomeNear(p: Page, a: Ref)
    requires Valid(p) && a < |p.heap| && Chosen(p, a).Some?
    ensures exists i :: 0 <= i < |p.rtree| && RectDistSq(p.rtree[i].rect, p.heap[a].bounds) < Reach * Reach &&
              Stealable(p.heap, p.rtree[i].ref)
  {
    var os := Nearest(p, p.heap[a].bounds);
    var k := FirstTextbox(p.heap, os).value;
    assert os[k] in p.rtree;
    var i :| 0 <= i < |p.rtree| && p.rtree[i] == os[k];
  }

  // ---------------------------------------------------------------------------
  // Taking the textbox

  /**
   * `x` is the shape at the far end of the textbox `o`'s edge `e`, the one
   * the loop redraws the edge from: the OUT end when the IN end is `o`,
   * else the IN end when the OUT end is `o`.
   */
  predicate FarEnd(p: Page, o: Ref, e: Edge, x: Ref)
    requires Valid(p)
  {
    var inS := ShapeOfVertex(p, e.inV);
    var outS := ShapeOfVertex(p, e.outV);
    if inS == Some(o) then outS == Some(x) else outS == Some(o) && inS == Some(x)
  }

  /** The "reparent" edge from the far end of `e` to `a`. */
  predicate ReparentFrom(p: Page, a: Ref, o: Ref, e: Edge, f: Edge)
    requires Valid(p) && a < |p.heap|
  {
    exists x: Ref :: x < |p.heap| && FarEnd(p, o, e, x) && f == CanonicalEdge(p.heap[x], p.heap[a], Reparent)
  }

  /**
   * One turn of the loop over the textbox's edges: an edge between the
   * textbox `o` and a shape other than `a` is redrawn from that shape to
   * `a` as a "reparent" edge, and an edge whose ends map to neither `a` nor
   * `o` is an internal error; then the edge is removed. A far end that is
   * not in the map is null, and drawing from it throws.
   */
  function RehangStep(p: Page, a: Ref, o: Ref, e: Edge): (r: Result<Page, Error>)
    requires Valid(p) && a < |p.heap| && o < |p.heap|
    ensures r.Ok? ==> Valid(r.value) && r.value == p.(graph := r.value.graph)
    ensures r.Ok? ==> r.value.graph.vertices == p.graph.vertices && r.value.graph.props == p.graph.props
    ensures r.Ok? ==> forall f :: f in r.value.graph.edges ==>
                        (f in p.graph.edges && f.id != e.id) || (f.kind == Reparent && ReparentFrom(p, a, o, e, f))
    ensures r.Ok? ==> forall f :: f in p.graph.edges && f.id != e.id ==> f in r.value.graph.edges
    ensures r.Ok? ==> forall x: Ref ::
              x < |p.heap| && x != a && o != a && FarEnd(p, o, e, x) && e.id != PairId(p.heap[x].shapeId, p.heap[a].shapeId) ==>
                Joined(r.value, p.heap[x].shapeId, p.heap[a].shapeId)
  {
    var q :- Redraw(p, a, o, e);
    RemovalsKeepCanonical(q.graph, e.id, 0);
    RehangStepRemoves(p, a, o, e, q);
    Ok(q.(graph := RemoveEdge(q.graph, e.id)))
  }

  /** The first half of a turn: the redrawing, before the edge is removed. */
  function Redraw(p: Page, a: Ref, o: Ref, e: Edge): (r: Result<Page, Error>)
    requires Valid(p) && a < |p.heap| && o < |p.heap|
    ensures r.Ok? ==> Valid(r.value) && r.value == p.(graph := r.value.graph)
    ensures r.Ok? ==> r.value.graph.vertices == p.graph.vertices && r.value.graph.props == p.graph.props
    ensures r.Ok? ==> forall f :: f in r.value.graph.edges ==> f in p.graph.edges || (f.kind == Reparent && ReparentFrom(p, a, o, e, f))
    ensures r.Ok? ==> forall f :: f in p.graph.edges ==> f in r.value.graph.edges
    ensures r.Ok? ==> forall x: Ref :: x < |p.heap| && x != a && o != a && FarEnd(p, o, e, x) ==>
                        Joined(r.value, p.heap[x].shapeId, p.heap[a].shapeId)
  {
    var inS := ShapeOfVertex(p, e.inV);
    var outS := ShapeOfVertex(p, e.outV);
    var r := if inS == Some(a) || outS == Some(a) then Ok(p)
             else if inS == Some(o) then CreateEdgeOrNull(p, outS, Some(a), Reparent)
             else if outS == Some(o) then CreateEdgeOrNull(p, inS, Some(a), Reparent)
             else Err(InternalError);
    if r.Ok? then
      RehangStepEdges(p, a, o, e, r.value);
      r
    else r
  }

  /** The removal that ends a turn takes exactly the edge's id away. */
  lemma RehangStepRemoves(p: Page, a: Ref, o: Ref, e: Edge, q: Page)
    requires Valid(p) && a < |p.heap| && o < |p.heap|
    requires Valid(q) && q == p.(graph := q.graph)
    requires forall f :: f in q.graph.edges ==> f in p.graph.edges || (f.kind == Reparent && ReparentFrom(p, a, o, e, f))
    requires forall f :: f in p.graph.edges ==> f in q.graph.edges
    requires forall x: Ref :: x < |p.heap| && x != a && o != a && FarEnd(p, o, e, x) ==>
               Joined(q, p.heap[x].shapeId, p.heap[a].shapeId)
    ensures var r := q.(graph := RemoveEdge(q.graph, e.id));
            && (forall f :: f in r.graph.edges ==> (f in p.graph.edges && f.id != e.id) || (f.kind == Reparent && ReparentFrom(p, a, o, e, f)))
            && (forall f :: f in p.graph.edges && f.id != e.id ==> f in r.graph.edges)
            && (forall x: Ref ::
                  x < |p.heap| && x != a && o != a && FarEnd(p, o, e, x) && e.id != PairId(p.heap[x].shapeId, p.heap[a].shapeId) ==>
                    Joined(r, p.heap[x].shapeId, p.heap[a].shapeId))
  {
    var r := q.(graph := RemoveEdge(q.graph, e.id));
    forall x: Ref | x < |p.heap| && x != a && o != a && FarEnd(p, o, e, x) && e.id != PairId(p.heap[x].shapeId, p.heap[a].shapeId)
      ensures Joined(r, p.heap[x].shapeId, p.heap[a].shapeId)
    {
      JoinedAfterRemove(q, e.id, p.heap[x].shapeId, p.heap[a].shapeId);
    }
  }

  /** Removing another id keeps a pair joined. */
  lemma JoinedAfterRemove(q: Page, id: EdgeId, x: int, y: int)
    requires Joined(q, x, y) && id != PairId(x, y)
    ensures Joined(q.(graph := RemoveEdge(q.graph, id)), x, y)
  {
    var f := GetEdge(q.graph, PairId(x, y)).value;
    var r := q.(graph := RemoveEdge(q.graph, id));
    assert f in r.graph.edges;
    var i :| 0 <= i < |r.graph.edges| && r.graph.edges[i] == f;
  }

  /** The edges after the redrawing and before the removal. */
  lemma RehangStepEdges(p: Page, a: Ref, o: Ref, e: Edge, q: Page)
    requires Valid(p) && a < |p.heap| && o < |p.heap|
    requires var inS := ShapeOfVertex(p, e.inV);
             var outS := ShapeOfVertex(p, e.outV);
             Ok(q) == if inS == Some(a) || outS == Some(a) then Ok(p)
                      else if inS == Some(o) then CreateEdgeOrNull(p, outS, Some(a), Reparent)
                      else if outS == Some(o) then CreateEdgeOrNull(p, inS, Some(a), Reparent)
                      else Err(InternalError)
    ensures Valid(q) && q == p.(graph := q.graph) && q.graph.vertices == p.graph.vertices && q.graph.props == p.graph.props
    ensures forall f :: f in q.graph.edges ==> f in p.graph.edges || (f.kind == Reparent && ReparentFrom(p, a, o, e, f))
    ensures forall f :: f in p.graph.edges ==> f in q.graph.edges
    ensures forall x: Ref :: x < |p.heap| && x != a && o != a && FarEnd(p, o, e, x) ==>
              Joined(q, p.heap[x].shapeId, p.heap[a].shapeId)
  {
    var inS := ShapeOfVertex(p, e.inV);
    var outS := ShapeOfVertex(p, e.outV);
    if !(inS == Some(a) || outS == Some(a)) {
      var x := if inS == Some(o) then outS.value else inS.value;
      assert FarEnd(p, o, e, x);
      CreateEdgeGrows(p, x, a, Reparent);
      forall f | f in q.graph.edges ensures f in p.graph.edges || (f.kind == Reparent && ReparentFrom(p, a, o, e, f)) {
        var i :| 0 <= i < |q.graph.edges| && q.graph.edges[i] == f;
        if i >= |p.graph.edges| {
          assert f == CanonicalEdge(p.heap[x], p.heap[a], Reparent);
        } else {
          assert f == p.graph.edges[i];
        }
      }
      forall f | f in p.graph.edges ensures f in q.graph.edges {
        var i :| 0 <= i < |p.graph.edges| && p.graph.edges[i] == f;
        assert q.graph.edges[i] == f;
      }
    }
  }

  /**
   * The loop over the textbox's edges `es`, taken before the loop starts
   * (TinkerGraph hands out its own list).
   */
  function Rehang(p: Page, a: Ref, o: Ref, es: seq<Edge>): (r: Result<Page, Error>)
    requires Valid(p) && a < |p.heap| && o < |p.heap|
    ensures r.Ok? ==> Valid(r.value) && r.value == p.(graph := r.value.graph)
    ensures r.Ok? ==> r.value.graph.vertices == p.graph.vertices && r.value.graph.props == p.graph.props
    decreases |es|
  {
    if es == [] then Ok(p)
    else
      var q :- RehangStep(p, a, o, es[0]);
      Rehang(q, a, o, es[1..])
  }

  /** A change to the graph's edges alone leaves the far ends and the redrawn edges as they were. */
  lemma ReparentSame(p: Page, q: Page, a: Ref, o: Ref, e: Edge, f: Edge)
    requires Valid(p) && Valid(q) && q == p.(graph := q.graph) && q.graph.props == p.graph.props && a < |p.heap|
    ensures forall x: Ref :: FarEnd(q, o, e, x) == FarEnd(p, o, e, x)
    ensures ReparentFrom(q, a, o, e, f) == ReparentFrom(p, a, o, e, f)
  {
    assert ShapeOfVertex(q, e.inV) == ShapeOfVertex(p, e.inV);
    assert ShapeOfVertex(q, e.outV) == ShapeOfVertex(p, e.outV);
  }

  /** An edge of the page none of whose ids the loop visits stays. */
  lemma {:induction false} RehangKeeps(p: Page, a: Ref, o: Ref, es: seq<Edge>)
    requires Valid(p) && a < |p.heap| && o < |p.heap| && Rehang(p, a, o, es).Ok?
    ensures forall f :: f in p.graph.edges && (forall j :: 0 <= j < |es| ==> f.id != es[j].id) ==>
              f in Rehang(p, a, o, es).value.graph.edges
    decreases |es|
  {
    if es != [] {
      var q := RehangStep(p, a, o, es[0]).value;
      RehangKeeps(q, a, o, es[1..]);
      forall f | f in p.graph.edges && (forall j :: 0 <= j < |es| ==> f.id != es[j].id)
        ensures f in Rehang(p, a, o, es).value.graph.edges
      {
        assert forall j :: 0 <= j < |es[1..]| ==> f.id != es[1..][j].id by {
          forall j | 0 <= j < |es[1..]| ensures f.id != es[1..][j].id {
            assert es[1..][j] == es[j + 1];
          }
        }
      }
    }
  }

  /**
   * An edge of `r` is an edge of `p` whose id is none of `es`'s, or a
   * "reparent" edge from the far end of one of `es` to `a`.
   */
  predicate RehungFrom(p: Page, a: Ref, o: Ref, es: seq<Edge>, r: Page)
    requires Valid(p) && a < |p.heap|
  {
    forall f :: f in r.graph.edges ==>
      (f in p.graph.edges && forall j :: 0 <= j < |es| ==> f.id != es[j].id)
      || (f.kind == Reparent && exists j :: 0 <= j < |es| && ReparentFrom(p, a, o, es[j], f))
  }

  /** Soundness of the loop: only visited edges go, and only "reparent" edges to `a` come. */
  lemma {:induction false} RehangSound(p: Page, a: Ref, o: Ref, es: seq<Edge>)
    requires Valid(p) && a < |p.heap| && o < |p.heap| && Rehang(p, a, o, es).Ok?
    ensures RehungFrom(p, a, o, es, Rehang(p, a, o, es).value)
    decreases |es|
  {
    if es != [] {
      var q := RehangStep(p, a, o, es[0]).value;
      RehangSound(q, a, o, es[1..]);
      RehungCons(p, q, a, o, es, Rehang(p, a, o, es).value);
    }
  }

  /** One turn followed by the rest of the loop. */
  lemma RehungCons(p: Page, q: Page, a: Ref, o: Ref, es: seq<Edge>, r: Page)
    requires Valid(p) && a < |p.heap| && o < |p.heap| && es != []
    requires Valid(q) && q == p.(graph := q.graph) && q.graph.props == p.graph.props
    requires forall f :: f in q.graph.edges ==>
               (f in p.graph.edges && f.id != es[0].id) || (f.kind == Reparent && ReparentFrom(p, a, o, es[0], f))
    requires RehungFrom(q, a, o, es[1..], r)
    ensures RehungFrom(p, a, o, es, r)
  {
    forall f | f in r.graph.edges
      ensures (f in p.graph.edges && forall j :: 0 <= j < |es| ==> f.id != es[j].id)
              || (f.kind == Reparent && exists j :: 0 <= j < |es| && ReparentFrom(p, a, o, es[j], f))
    {
      if f in q.graph.edges && forall j :: 0 <= j < |es[1..]| ==> f.id != es[1..][j].id {
        if !(f in p.graph.edges && f.id != es[0].id) {
          assert ReparentFrom(p, a, o, es[0], f);
        } else {
          forall j | 0 <= j < |es| ensures f.id != es[j].id {
            if j > 0 {
              assert es[j] == es[1..][j - 1];
            }
          }
        }
      } else {
        var j :| 0 <= j < |es[1..]| && ReparentFrom(q, a, o, es[1..][j], f);
        ReparentSame(p, q, a, o, es[1..][j], f);
        assert es[1..][j] == es[j + 1];
      }
    }
  }

  /** Every edge of `es` touches `v` and carries the id its ends give it. */
  predicate EdgesAt(es: seq<Edge>, v: int) {
    forall j :: 0 <= j < |es| ==> es[j].id == EdgeId(es[j].outV, es[j].inV) && Incident(es[j], v)
  }

  /** An edge at `v` never has the id of a pair that leaves `v` out. */
  lemma PairIdAvoids(e: Edge, v: int, x: int, y: int)
    requires e.id == EdgeId(e.outV, e.inV) && Incident(e, v) && x != v && y != v
    ensures e.id != PairId(x, y)
  {
  }

  /** A pair joined by an edge whose id the rest of the loop never visits stays joined. */
  lemma JoinedThroughRehang(q: Page, a: Ref, o: Ref, es: seq<Edge>, x: int, y: int)
    requires Valid(q) && a < |q.heap| && o < |q.heap| && Rehang(q, a, o, es).Ok?
    requires Joined(q, x, y) && forall j :: 0 <= j < |es| ==> es[j].id != PairId(x, y)
    ensures Joined(Rehang(q, a, o, es).value, x, y)
  {
    var f := GetEdge(q.graph, PairId(x, y)).value;
    RehangKeeps(q, a, o, es);
    var r := Rehang(q, a, o, es).value;
    assert f in r.graph.edges;
    var i :| 0 <= i < |r.graph.edges| && r.graph.edges[i] == f;
  }

  /**
   * Completeness of the loop: every shape other than `a` at the far end of
   * one of the textbox's edges is joined to `a` afterwards, unless it
   * shares the textbox's id.
   */
  lemma {:induction false} RehangJoins(p: Page, a: Ref, o: Ref, es: seq<Edge>)
    requires Valid(p) && a < |p.heap| && o < |p.heap| && o != a && Rehang(p, a, o, es).Ok?
    requires EdgesAt(es, p.heap[o].shapeId) && p.heap[a].shapeId != p.heap[o].shapeId
    ensures forall j, x: Ref ::
              0 <= j < |es| && x < |p.heap| && x != a && FarEnd(p, o, es[j], x) && p.heap[x].shapeId != p.heap[o].shapeId ==>
                Joined(Rehang(p, a, o, es).value, p.heap[x].shapeId, p.heap[a].shapeId)
    decreases |es|
  {
    if es != [] {
      var q := RehangStep(p, a, o, es[0]).value;
      var r := Rehang(p, a, o, es).value;
      var ido := p.heap[o].shapeId;
      assert EdgesAt(es[1..], ido);
      RehangJoins(q, a, o, es[1..]);
      forall j, x: Ref | 0 <= j < |es| && x < |p.heap| && x != a && FarEnd(p, o, es[j], x) && p.heap[x].shapeId != ido
        ensures Joined(r, p.heap[x].shapeId, p.heap[a].shapeId)
      {
        var pair := PairId(p.heap[x].shapeId, p.heap[a].shapeId);
        if j == 0 {
          PairIdAvoids(es[0], ido, p.heap[x].shapeId, p.heap[a].shapeId);
          forall k | 0 <= k < |es[1..]| ensures es[1..][k].id != pair {
            PairIdAvoids(es[1..][k], ido, p.heap[x].shapeId, p.heap[a].shapeId);
          }
          JoinedThroughRehang(q, a, o, es[1..], p.heap[x].shapeId, p.heap[a].shapeId);
        } else {
          ReparentSame(p, q, a, o, es[j], es[j]);
          assert es[j] == es[1..][j - 1];
        }
      }
    }
  }

  /**
   * The property writes of `associateTextWithShape`: `a`'s vertex takes the
   * textbox's label and records the textbox's id as "textRef"; the record of
   * `a` takes the text flag and the textbox's text centre.
   */
  function CopyText(p: Page, a: Ref, o: Ref): (q: Page)
    requires Valid(p) && a < |p.heap| && o < |p.heap| && p.heap[o].isTextbox
    ensures Valid(q) && q == p.(heap := q.heap, graph := q.graph)
    ensures q.graph.vertices == p.graph.vertices && q.graph.edges == p.graph.edges
    ensures q.heap == p.heap[a := p.heap[a].(hasText := true, textCenter := p.heap[o].textCenter)]
    ensures var ida := p.heap[a].shapeId;
            var ido := p.heap[o].shapeId;
            && ida in q.graph.props
            && q.graph.props[ida] == p.graph.props[ida].(text := p.graph.props[ido].text, textRef := Some(ido))
            && forall v :: v in p.graph.props && v != ida ==> v in q.graph.props && q.graph.props[v] == p.graph.props[v]
    ensures q.graph.props.Keys == p.graph.props.Keys
  {
    var ida := p.heap[a].shapeId;
    var ido := p.heap[o].shapeId;
    var v := p.graph.props[ida].(text := p.graph.props[ido].text, textRef := Some(ido));
    p.(heap := p.heap[a := p.heap[a].(hasText := true, textCenter := p.heap[o].textCenter)],
       graph := SetProps(p.graph, ida, v))
  }

  /**
   * `onNext` on the chosen textbox `o`: copy its text, redraw its edges to
   * `a`, and remove it so that no later shape takes it.
   */
  function Steal(p: Page, a: Ref, o: Ref): (r: Result<Page, Error>)
    requires Valid(p) && a < |p.heap| && o < |p.heap| && p.heap[o].isTextbox
    ensures r.Ok? ==> Valid(r.value)
  {
    var q := CopyText(p, a, o);
    var t :- Rehang(q, a, o, EdgesOf(q.graph, p.heap[o].shapeId));
    RemoveShape(t, o)
  }

  /**
   * What taking the textbox does to the records and the vertices: `a` has
   * text, with the textbox's centre, label and id; the textbox is removed
   * with its vertex and every edge touching it; nothing else changes.
   */
  lemma StealRecords(p: Page, a: Ref, o: Ref)
    requires Valid(p) && a < |p.heap| && o < |p.heap| && p.heap[o].isTextbox && a != o
    ensures Steal(p, a, o).Ok? ==>
              var r := Steal(p, a, o).value;
              var ida := p.heap[a].shapeId;
              var ido := p.heap[o].shapeId;
              && r.heap == p.heap[a := p.heap[a].(hasText := true, textCenter := p.heap[o].textCenter)][o := p.heap[o].(removed := true)]
              && r.shapes == p.shapes && r.shapesMap == p.shapesMap && r.nextId == p.nextId
              && r.graph.vertices == p.graph.vertices - {ido}
              && ida in r.graph.props
              && r.graph.props[ida] == p.graph.props[ida].(text := p.graph.props[ido].text, textRef := Some(ido))
              && (forall f :: f in r.graph.edges ==> !Incident(f, ido))
              && (forall e :: e in r.rtree <==> e in p.rtree && e != Entry(o, p.heap[o].bounds))
  {
    if Steal(p, a, o).Ok? {
      var q := CopyText(p, a, o);
      var t := Rehang(q, a, o, EdgesOf(q.graph, p.heap[o].shapeId)).value;
      assert t.heap[o] == p.heap[o];
    }
  }

  /** The edges that touch `v` in the order TinkerGraph lists them satisfy `EdgesAt`. */
  lemma EdgesOfAt(g: Graph, v: int)
    requires Canonical(g)
    ensures EdgesAt(EdgesOf(g, v), v)
  {
    var es := EdgesOf(g, v);
    assert forall j :: 0 <= j < |es| ==> es[j] in g.edges && Incident(es[j], v);
  }

  /** Copying the text leaves the far ends as they were. */
  lemma FarEndAfterCopy(p: Page, a: Ref, o: Ref, e: Edge)
    requires Valid(p) && a < |p.heap| && o < |p.heap| && p.heap[o].isTextbox
    ensures forall x: Ref :: FarEnd(CopyText(p, a, o), o, e, x) == FarEnd(p, o, e, x)
  {
    var q := CopyText(p, a, o);
    assert ShapeOfVertex(q, e.inV) == ShapeOfVertex(p, e.inV);
    assert ShapeOfVertex(q, e.outV) == ShapeOfVertex(p, e.outV);
  }

  /** Every edge after taking the textbox was there before or is a "reparent" edge at `a`. */
  lemma StealSound(p: Page, a: Ref, o: Ref)
    requires Valid(p) && a < |p.heap| && o < |p.heap| && p.heap[o].isTextbox
    ensures Steal(p, a, o).Ok? ==>
              forall f :: f in Steal(p, a, o).value.graph.edges ==>
                f in p.graph.edges || (f.kind == Reparent && Incident(f, p.heap[a].shapeId))
  {
    var q := CopyText(p, a, o);
    var es := EdgesOf(q.graph, p.heap[o].shapeId);
    var t := Rehang(q, a, o, es);
    if t.Ok? {
      assert Steal(p, a, o) == RemoveShape(t.value, o);
      RehangSound(q, a, o, es);
      if RemoveShape(t.value, o).Ok? {
        RehungAtA(q, a, o, es, t.value, RemoveShape(t.value, o).value);
      }
    }
  }

  /** `RehangSound` read after the removal of the textbox. */
  lemma RehungAtA(q: Page, a: Ref, o: Ref, es: seq<Edge>, t: Page, r: Page)
    requires Valid(q) && a < |q.heap| && RehungFrom(q, a, o, es, t)
    requires forall f :: f in r.graph.edges ==> f in t.graph.edges
    ensures forall f :: f in r.graph.edges ==> f in q.graph.edges || (f.kind == Reparent && Incident(f, q.heap[a].shapeId))
  {
    forall f | f in r.graph.edges ensures f in q.graph.edges || (f.kind == Reparent && Incident(f, q.heap[a].shapeId)) {
      if !(f in q.graph.edges) {
        var j :| 0 <= j < |es| && ReparentFrom(q, a, o, es[j], f);
        var x: Ref :| x < |q.heap| && FarEnd(q, o, es[j], x) && f == CanonicalEdge(q.heap[x], q.heap[a], Reparent);
      }
    }
  }

  /** Every edge that does not touch the textbox stays. */
  lemma StealKeeps(p: Page, a: Ref, o: Ref)
    requires Valid(p) && a < |p.heap| && o < |p.heap| && p.heap[o].isTextbox
    ensures Steal(p, a, o).Ok? ==>
              forall f :: f in p.graph.edges && !Incident(f, p.heap[o].shapeId) ==> f in Steal(p, a, o).value.graph.edges
  {
    var ido := p.heap[o].shapeId;
    var q := CopyText(p, a, o);
    var es := EdgesOf(q.graph, ido);
    var t := Rehang(q, a, o, es);
    if t.Ok? {
      var r := RemoveShape(t.value, o);
      assert Steal(p, a, o) == r;
      assert t.value.heap[o].shapeId == ido;
      EdgesOfAt(q.graph, ido);
      RehangKeeps(q, a, o, es);
      KeptAcross(q.graph.edges, t.value.graph.edges, if r.Ok? then r.value.graph.edges else [], es, ido);
    }
  }

  /**
   * Edges away from `v` survive a pass that keeps every edge whose id the
   * edges at `v` do not carry, followed by one that drops only edges at `v`.
   */
  lemma KeptAcross(e0: seq<Edge>, e1: seq<Edge>, e2: seq<Edge>, es: seq<Edge>, v: int)
    requires CanonicalEdges(e0) && EdgesAt(es, v)
    requires forall f :: f in e0 && (forall j :: 0 <= j < |es| ==> f.id != es[j].id) ==> f in e1
    ensures (forall f :: f in e1 && !Incident(f, v) ==> f in e2) ==>
              forall f :: f in e0 && !Incident(f, v) ==> f in e2
  {
    forall f | f in e0 && !Incident(f, v) ensures f in e1 {
      assert forall j :: 0 <= j < |es| ==> f.id != es[j].id;
    }
  }

  /**
   * Every shape other than `a` at the far end of one of the textbox's
   * edges is joined to `a` afterwards, unless it shares the textbox's id.
   */
  lemma StealJoins(p: Page, a: Ref, o: Ref)
    requires Valid(p) && a < |p.heap| && o < |p.heap| && p.heap[o].isTextbox && a != o
    requires p.heap[a].shapeId != p.heap[o].shapeId
    ensures Steal(p, a, o).Ok? ==>
              forall f, x: Ref ::
                f in p.graph.edges && x < |p.heap| && x != a && FarEnd(p, o, f, x) && p.heap[x].shapeId != p.heap[o].shapeId ==>
                  Joined(Steal(p, a, o).value, p.heap[x].shapeId, p.heap[a].shapeId)
  {
    var ido := p.heap[o].shapeId;
    var q := CopyText(p, a, o);
    var es := EdgesOf(q.graph, ido);
    var t := Rehang(q, a, o, es);
    if t.Ok? {
      assert Steal(p, a, o) == RemoveShape(t.value, o);
      CopiedJoins(p, a, o, t.value);
      if RemoveShape(t.value, o).Ok? {
        var r := RemoveShape(t.value, o).value;
        forall f, x: Ref | f in p.graph.edges && x < |p.heap| && x != a && FarEnd(p, o, f, x) && p.heap[x].shapeId != ido
          ensures Joined(r, p.heap[x].shapeId, p.heap[a].shapeId)
        {
          JoinedAfterRemoval(t.value, o, p.heap[x].shapeId, p.heap[a].shapeId);
        }
      }
    }
  }

  /** `RehangJoins` for the edges of the textbox, read in the page before the copy. */
  lemma CopiedJoins(p: Page, a: Ref, o: Ref, t: Page)
    requires Valid(p) && a < |p.heap| && o < |p.heap| && p.heap[o].isTextbox && a != o
    requires p.heap[a].shapeId != p.heap[o].shapeId
    requires Rehang(CopyText(p, a, o), a, o, EdgesOf(p.graph, p.heap[o].shapeId)) == Ok(t)
    ensures forall f, x: Ref ::
              f in p.graph.edges && x < |p.heap| && x != a && FarEnd(p, o, f, x) && p.heap[x].shapeId != p.heap[o].shapeId ==>
                Joined(t, p.heap[x].shapeId, p.heap[a].shapeId)
  {
    var ido := p.heap[o].shapeId;
    var q := CopyText(p, a, o);
    var es := EdgesOf(p.graph, ido);
    EdgesOfAt(p.graph, ido);
    RehangJoins(q, a, o, es);
    forall f, x: Ref | f in p.graph.edges && x < |p.heap| && x != a && FarEnd(p, o, f, x) && p.heap[x].shapeId != ido
      ensures Joined(t, p.heap[x].shapeId, p.heap[a].shapeId)
    {
      FarEndAfterCopy(p, a, o, f);
      var j := FarEdgeListed(p, o, f, x);
      assert FarEnd(q, o, es[j], x);
      assert q.heap[x].shapeId == p.heap[x].shapeId && q.heap[a].shapeId == p.heap[a].shapeId;
    }
  }

  /** An edge with the textbox at one end is among the edges TinkerGraph lists for it. */
  lemma FarEdgeListed(p: Page, o: Ref, f: Edge, x: Ref) returns (j: nat)
    requires Valid(p) && o < |p.heap| && f in p.graph.edges && FarEnd(p, o, f, x)
    ensures j < |EdgesOf(p.graph, p.heap[o].shapeId)| && EdgesOf(p.graph, p.heap[o].shapeId)[j] == f
  {
    assert Incident(f, p.heap[o].shapeId);
    var es := EdgesOf(p.graph, p.heap[o].shapeId);
    j :| 0 <= j < |es| && es[j] == f;
  }

  /** Removing a shape keeps every pair that leaves it out joined. */
  lemma JoinedAfterRemoval(t: Page, o: Ref, x: int, y: int)
    requires Valid(t) && o < |t.heap| && RemoveShape(t, o).Ok?
    requires Joined(t, x, y) && x != t.heap[o].shapeId && y != t.heap[o].shapeId
    ensures Joined(RemoveShape(t, o).value, x, y)
  {
    var r := RemoveShape(t, o).value;
    var g := GetEdge(t.graph, PairId(x, y)).value;
    assert !Incident(g, t.heap[o].shapeId);
    assert g in r.graph.edges;
    var i :| 0 <= i < |r.graph.edges| && r.graph.edges[i] == g;
  }

  // ---------------------------------------------------------------------------
  // associateTextWithShape and associateText

  /**
   * `associateTextWithShape(a)` for a shape without text: take the chosen
   * textbox, if there is one.
   */
  function Associate(p: Page, a: Ref): (r: Result<Page, Error>)
    requires Valid(p) && a < |p.heap| && !p.heap[a].hasText
    ensures r.Ok? ==> Valid(r.value) && |r.value.heap| == |p.heap|
    ensures r.Ok? && Chosen(p, a).None? ==> r.value == p
    ensures r.Ok? && Chosen(p, a).Some? ==> r.value.heap[a].hasText && r.value.heap[Chosen(p, a).value.ref].removed
  {
    match Chosen(p, a)
    case None => Ok(p)
    case Some(e) =>
      StealMarks(p, a, e.ref);
      Steal(p, a, e.ref)
  }

  /** A steal keeps the heap's size, gives `a` text and marks the textbox removed. */
  lemma StealMarks(p: Page, a: Ref, o: Ref)
    requires Valid(p) && a < |p.heap| && o < |p.heap| && p.heap[o].isTextbox && a != o
    ensures Steal(p, a, o).Ok? ==>
              var r := Steal(p, a, o).value;
              |r.heap| == |p.heap| && r.heap[a].hasText && r.heap[o].removed
  {
    StealRecords(p, a, o);
  }

  /**
   * What a run of `associateTextWithShape` can do to the records: text is
   * only gained, a removed record stays removed, only textboxes get
   * removed, no bounds change, and rtree entries only go; the list and
   * the map stay.
   */
  predicate Consumed(p: Page, q: Page) {
    && |q.heap| == |p.heap| && q.shapes == p.shapes && q.shapesMap == p.shapesMap
    && (forall i :: 0 <= i < |p.heap| ==>
          && q.heap[i].bounds == p.heap[i].bounds && q.heap[i].isTextbox == p.heap[i].isTextbox
          && (p.heap[i].hasText ==> q.heap[i].hasText)
          && (p.heap[i].removed ==> q.heap[i].removed)
          && (q.heap[i].removed && !p.heap[i].removed ==> p.heap[i].isTextbox))
    && (forall e :: e in q.rtree ==> e in p.rtree)
  }

  lemma ConsumedTransitive(p: Page, q: Page, r: Page)
    requires Consumed(p, q) && Consumed(q, r)
    ensures Consumed(p, r)
  {
  }

  /** One call consumes at most the chosen textbox. */
  lemma AssociateConsumes(p: Page, a: Ref)
    requires Valid(p) && a < |p.heap| && !p.heap[a].hasText && Associate(p, a).Ok?
    ensures Consumed(p, Associate(p, a).value)
  {
    if Chosen(p, a).Some? {
      var o := Chosen(p, a).value.ref;
      StealRecords(p, a, o);
      StealConsumes(p, a, o, Steal(p, a, o).value);
    }
  }

  /** `StealRecords`, read as `Consumed`. */
  lemma StealConsumes(p: Page, a: Ref, o: Ref, r: Page)
    requires a < |p.heap| && o < |p.heap| && p.heap[o].isTextbox
    requires r.heap == p.heap[a := p.heap[a].(hasText := true, textCenter := p.heap[o].textCenter)][o := p.heap[o].(removed := true)]
    requires r.shapes == p.shapes && r.shapesMap == p.shapesMap
    requires forall e :: e in r.rtree <==> e in p.rtree && e != Entry(o, p.heap[o].bounds)
    ensures Consumed(p, r)
  {
  }

  /**
   * Consuming never makes a textbox stealable or brings one nearer: a
   * shape for which none was within reach still has none.
   */
  lemma NoneStaysNone(p: Page, q: Page, x: Ref)
    requires Valid(p) && Valid(q) && Consumed(p, q) && x < |p.heap| && Chosen(p, x).None?
    ensures Chosen(q, x).None?
  {
    ChosenNone(p, x);
    ChosenNone(q, x);
    var rect := p.heap[x].bounds;
    forall i | 0 <= i < |q.rtree| && RectDistSq(q.rtree[i].rect, rect) < Reach * Reach
      ensures !Stealable(q.heap, q.rtree[i].ref)
    {
      assert q.rtree[i] in p.rtree;
      var j :| 0 <= j < |p.rtree| && p.rtree[j] == q.rtree[i];
    }
  }

  /**
   * The loop of `associateText` over `rs`: shapes that have text or were
   * removed by an earlier turn are passed over.
   */
  function AssociateAll(p: Page, rs: seq<Ref>): (r: Result<Page, Error>)
    requires Valid(p) && InHeap(p, rs)
    ensures r.Ok? ==> Valid(r.value) && |r.value.heap| == |p.heap|
    decreases |rs|
  {
    if rs == [] then Ok(p)
    else
      assert InHeap(p, rs[1..]);
      var a := rs[0];
      if p.heap[a].hasText || p.heap[a].removed then AssociateAll(p, rs[1..])
      else
        var q :- Associate(p, a);
        AssociateAll(q, rs[1..])
  }

  /** `x` has text, was removed, or has no stealable textbox within reach. */
  predicate Settled(r: Page, x: Ref)
    requires Valid(r) && x < |r.heap|
  {
    r.heap[x].hasText || r.heap[x].removed || Chosen(r, x).None?
  }

  /** Consuming keeps a shape settled. */
  lemma SettledStays(q: Page, r: Page, x: Ref)
    requires Valid(q) && Valid(r) && Consumed(q, r) && x < |q.heap| && Settled(q, x)
    ensures Settled(r, x)
  {
    if !q.heap[x].hasText && !q.heap[x].removed {
      NoneStaysNone(q, r, x);
    }
  }

  /**
   * The loop as a whole consumes, and leaves every shape of `rs` with text,
   * removed, or with no stealable textbox within reach.
   */
  lemma {:induction false} AssociateAllMeaning(p: Page, rs: seq<Ref>)
    requires Valid(p) && InHeap(p, rs) && AssociateAll(p, rs).Ok?
    ensures var r := AssociateAll(p, rs).value;
            Consumed(p, r) && forall k :: 0 <= k < |rs| ==> Settled(r, rs[k])
    decreases |rs|
  {
    if rs != [] {
      var rest := rs[1..];
      assert InHeap(p, rest);
      var a := rs[0];
      var r := AssociateAll(p, rs).value;
      var q := if p.heap[a].hasText || p.heap[a].removed then p else Associate(p, a).value;
      assert AssociateAll(q, rest) == AssociateAll(p, rs);
      if q != p {
        AssociateConsumes(p, a);
      }
      assert Settled(q, a);
      assert InHeap(q, rest);
      AssociateAllMeaning(q, rest);
      SettledCons(p, q, r, rs);
    }
  }

  /** The first shape settled by its turn, the rest by the rest of the loop. */
  lemma SettledCons(p: Page, q: Page, r: Page, rs: seq<Ref>)
    requires Valid(p) && Valid(q) && Valid(r) && InHeap(p, rs) && rs != []
    requires Consumed(p, q) && Consumed(q, r) && Settled(q, rs[0])
    requires forall k :: 0 <= k < |rs[1..]| ==> Settled(r, rs[1..][k])
    ensures Consumed(p, r) && forall k :: 0 <= k < |rs| ==> Settled(r, rs[k])
  {
    ConsumedTransitive(p, q, r);
    forall k | 0 <= k < |rs| ensures Settled(r, rs[k]) {
      if k == 0 {
        SettledStays(q, r, rs[0]);
      } else {
        assert rs[k] == rs[1..][k - 1];
      }
    }
  }

  // ---------------------------------------------------------------------------
  // Bookkeeping

  /** Copying the text changes text fields only, which the bookkeeping does not look at. */
  lemma CopyTextTracked(p: Page, h: Hierarchy, a: Ref, o: Ref)
    requires Tracked(p, h) && a < |p.heap| && o < |p.heap| && p.heap[o].isTextbox
    ensures Tracked(CopyText(p, a, o), h)
  {
    var q := CopyText(p, a, o);
    assert forall i :: 0 <= i < |q.heap| ==>
      q.heap[i].bounds == p.heap[i].bounds && q.heap[i].removed == p.heap[i].removed
      && q.heap[i].parentId == p.heap[i].parentId;
  }

  /** Taking a textbox keeps the bookkeeping. */
  lemma StealTracked(p: Page, h: Hierarchy, a: Ref, o: Ref)
    requires Tracked(p, h) && a < |p.heap| && o < |p.heap| && p.heap[o].isTextbox && Steal(p, a, o).Ok?
    ensures Tracked(Steal(p, a, o).value, h)
  {
    var q := CopyText(p, a, o);
    CopyTextTracked(p, h, a, o);
    var t := Rehang(q, a, o, EdgesOf(q.graph, p.heap[o].shapeId)).value;
    GraphOnlyTracked(q, t, h);
    assert Steal(p, a, o) == RemoveShape(t, o);
    RemoveShapeKeeps(t, h, o);
  }

  lemma AssociateTracked(p: Page, h: Hierarchy, a: Ref)
    requires Tracked(p, h) && a < |p.heap| && !p.heap[a].hasText && Associate(p, a).Ok?
    ensures Tracked(Associate(p, a).value, h)
  {
    if Chosen(p, a).Some? {
      StealTracked(p, h, a, Chosen(p, a).value.ref);
    }
  }

  lemma {:induction false} AssociateAllTracked(p: Page, h: Hierarchy, rs: seq<Ref>)
    requires Tracked(p, h) && InHeap(p, rs) && AssociateAll(p, rs).Ok?
    ensures Tracked(AssociateAll(p, rs).value, h)
    decreases |rs|
  {
    if rs != [] {
      var rest := rs[1..];
      assert InHeap(p, rest);
      var a := rs[0];
      if p.heap[a].hasText || p.heap[a].removed {
        AssociateAllTracked(p, h, rest);
      } else {
        AssociateTracked(p, h, a);
        var q := Associate(p, a).value;
        assert InHeap(q, rest);
        AssociateAllTracked(q, h, rest);
      }
    }
  }

  /**
   * `associateText`: every listed shape still without text, largest first,
   * looks for a textbox; then the removed records leave the list and the map.
   */
  function AssociateText(p: Page, h: Hierarchy): (r: Result<Page, Error>)
    requires Tracked(p, h)
    ensures r.Ok? ==> Tracked(r.value, h)
    ensures r.Ok? ==> forall i :: 0 <= i < |r.value.shapes| ==> !r.value.heap[r.value.shapes[i]].removed
  {
    assert InHeap(p, p.shapes);
    var q :- AssociateAll(p, p.shapes);
    AssociateAllTracked(p, h, p.shapes);
    CleanShapesKeeps(q, h);
    Ok(CleanShapes(q))
  }

  /**
   * After `associateText`, the list holds exactly the shapes that were
   * listed and not taken as a textbox, and each one without text has no
   * textbox left within reach to take.
   */
  lemma AssociateTextMeaning(p: Page, h: Hierarchy)
    requires Tracked(p, h) && AssociateText(p, h).Ok?
    ensures var r := AssociateText(p, h).value;
            && (forall x :: x in r.shapes ==> x in p.shapes)
            && (forall x :: x in p.shapes && !r.heap[x].removed ==> x in r.shapes)
            && (forall x :: x in p.shapes && r.heap[x].removed && !p.heap[x].removed ==> p.heap[x].isTextbox)
            && forall i :: 0 <= i < |r.shapes| && !r.heap[r.shapes[i]].hasText ==> Chosen(r, r.shapes[i]).None?
  {
    assert InHeap(p, p.shapes);
    var q := AssociateAll(p, p.shapes).value;
    AssociateAllMeaning(p, p.shapes);
    var r := AssociateText(p, h).value;
    assert r == CleanShapes(q);
    forall i | 0 <= i < |r.shapes| && !r.heap[r.shapes[i]].hasText
      ensures Chosen(r, r.shapes[i]).None?
    {
      var x := r.shapes[i];
      assert x in p.shapes;
      var k :| 0 <= k < |p.shapes| && p.shapes[k] == x;
      assert Settled(q, p.shapes[k]);
      assert Chosen(r, x) == Chosen(q, x);
    }
  }
}
