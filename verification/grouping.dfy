/**
 * `joinGroupedShapes` and `addGroupLabels`: shapes of one symbol that overlap
 * without one containing the other are linked, and a labelled 2-D shape that
 * visually contains shapes of another hierarchy becomes their group label and
 * leaves the page.
 */
module Grouping {
  import opened Wrappers
  import opened Geom2D
  import opened Errors
  import opened Seqs
  import opened Shapes
  import opened PropertyGraph
  import opened Page

  // ---------------------------------------------------------------------------
  // joinGroupedShapes

  /** The "symbolName" property of a record's vertex. */
  function SymbolOf(p: Page, r: Ref): string
    requires Valid(p) && r < |p.heap|
  {
    p.graph.props[p.heap[r].shapeId].symbolName
  }

  /** The shapes the stage looks around: 2-D ones with a symbol name. */
  predicate Joins(p: Page, a: Ref)
    requires Valid(p) && a < |p.heap|
  {
    !Is1d(p.heap[a]) && SymbolOf(p, a) != ""
  }

  /**
   * Another 2-D shape of the same symbol whose overlap with `a` is smaller
   * than the smaller of the two areas, so that neither contains the other.
   */
  predicate Linkable(p: Page, a: Ref, o: Ref)
    requires Valid(p) && a < |p.heap| && o < |p.heap|
  {
    && o != a && !Is1d(p.heap[o])
    && SymbolOf(p, o) == SymbolOf(p, a)
    && IntersectionArea(p.heap[a].bounds, p.heap[o].bounds) < Min(p.heap[a].area, p.heap[o].area)
  }

  /** The relation is symmetric, so a pair is linked from whichever shape the loop reaches first. */
  lemma LinkableSymmetric(p: Page, a: Ref, o: Ref)
    requires Valid(p) && a < |p.heap| && o < |p.heap|
    requires Joins(p, a) && Linkable(p, a, o)
    ensures Joins(p, o) && Linkable(p, o, a)
  {
    IntersectionAreaSymmetric(p.heap[a].bounds, p.heap[o].bounds);
  }

  /** The search callback for one shape: link it to every linkable result. */
  function LinkAll(p: Page, a: Ref, os: seq<Ref>): (r: Page)
    requires Valid(p) && a < |p.heap| && InHeap(p, os)
    ensures Valid(r) && r == p.(graph := r.graph)
    ensures r.graph.vertices == p.graph.vertices && r.graph.props == p.graph.props
    decreases |os|
  {
    if os == [] then p
    else
      var q := if Linkable(p, a, os[0]) then CreateEdge(p, a, os[0], Linked) else p;
      LinkAll(q, a, os[1..])
  }

  /** An edge the stage adds: a "linked" edge between a shape it looks around and a linkable one. */
  predicate LinkEdge(p: Page, e: Edge)
    requires Valid(p)
  {
    exists a: Ref, o: Ref :: a < |p.heap| && o < |p.heap| && Joins(p, a) && Linkable(p, a, o)
                             && e == CanonicalEdge(p.heap[a], p.heap[o], Linked)
  }

  /** Edges that are link edges on `p` are link edges on a page differing from it in its edges only. */
  lemma LinkEdgeFrame(p: Page, q: Page, e: Edge)
    requires Valid(p) && Valid(q) && q == p.(graph := q.graph) && q.graph.props == p.graph.props
    requires LinkEdge(q, e)
    ensures LinkEdge(p, e)
  {
    var a: Ref, o: Ref :| a < |q.heap| && o < |q.heap| && Joins(q, a) && Linkable(q, a, o)
                          && e == CanonicalEdge(q.heap[a], q.heap[o], Linked);
    assert Joins(p, a) && Linkable(p, a, o);
  }

  /** One shape's links add only "linked" edges between it and a linkable result. */
  lemma {:induction false} LinkAllAdds(p: Page, a: Ref, os: seq<Ref>)
    requires Valid(p) && a < |p.heap| && InHeap(p, os) && Joins(p, a)
    ensures var r := LinkAll(p, a, os);
            && EdgesGrow(p, r)
            && (forall i :: |p.graph.edges| <= i < |r.graph.edges| ==> LinkEdge(p, r.graph.edges[i]))
    decreases |os|
  {
    var r := LinkAll(p, a, os);
    if os != [] {
      var o := os[0];
      var q := if Linkable(p, a, o) then CreateEdge(p, a, o, Linked) else p;
      if Linkable(p, a, o) {
        CreateEdgeGrows(p, a, o, Linked);
      }
      assert InHeap(q, os[1..]);
      LinkAllAdds(q, a, os[1..]);
      EdgesGrowTransitive(p, q, r);
      forall i | |p.graph.edges| <= i < |r.graph.edges| ensures LinkEdge(p, r.graph.edges[i]) {
        if i < |q.graph.edges| {
          assert r.graph.edges[i] == q.graph.edges[i];
          assert r.graph.edges[i] == CanonicalEdge(p.heap[a], p.heap[o], Linked);
        } else {
          LinkEdgeFrame(p, q, r.graph.edges[i]);
        }
      }
    }
  }

  /** After one shape's links it is joined to every linkable result. */
  lemma {:induction false} LinkAllJoins(p: Page, a: Ref, os: seq<Ref>)
    requires Valid(p) && a < |p.heap| && InHeap(p, os)
    ensures var r := LinkAll(p, a, os);
            && EdgesGrow(p, r)
            && forall j :: 0 <= j < |os| && Linkable(p, a, os[j]) ==> Joined(r, p.heap[a].shapeId, p.heap[os[j]].shapeId)
    decreases |os|
  {
    var r := LinkAll(p, a, os);
    if os != [] {
      var o := os[0];
      var q := if Linkable(p, a, o) then CreateEdge(p, a, o, Linked) else p;
      if Linkable(p, a, o) {
        CreateEdgeGrows(p, a, o, Linked);
      }
      assert InHeap(q, os[1..]);
      LinkAllJoins(q, a, os[1..]);
      EdgesGrowTransitive(p, q, r);
      forall j | 0 <= j < |os| && Linkable(p, a, os[j]) ensures Joined(r, p.heap[a].shapeId, p.heap[os[j]].shapeId) {
        if j == 0 {
          JoinedKept(q, r, p.heap[a].shapeId, p.heap[o].shapeId);
        } else {
          assert os[j] == os[1..][j - 1];
          assert Linkable(q, a, os[1..][j - 1]);
        }
      }
    }
  }

  /** The stage's loop over a snapshot of the shape list. */
  function JoinShapes(p: Page, todo: seq<Ref>): (r: Page)
    requires Valid(p) && InHeap(p, todo)
    ensures Valid(r) && r == p.(graph := r.graph)
    ensures r.graph.vertices == p.graph.vertices && r.graph.props == p.graph.props
    decreases |todo|
  {
    if todo == [] then p
    else
      var a := todo[0];
      var q := if Joins(p, a) then LinkAll(p, a, Around(p, a)) else p;
      JoinShapes(q, todo[1..])
  }

  /** The found neighbours of `a` the stage links it to. */
  predicate ShouldLink(p: Page, a: Ref, o: Ref)
    requires Valid(p) && a < |p.heap| && o < |p.heap|
  {
    Joins(p, a) && o in Around(p, a) && Linkable(p, a, o)
  }

  /**
   * `joinGroupedShapes` adds only "linked" edges between linkable shapes, and
   * every shape of the list is joined to every linkable shape the rtree
   * finds around it.
   */
  lemma {:induction false} JoinShapesMeaning(p: Page, todo: seq<Ref>)
    requires Valid(p) && InHeap(p, todo)
    ensures var r := JoinShapes(p, todo);
            && EdgesGrow(p, r)
            && (forall i :: |p.graph.edges| <= i < |r.graph.edges| ==> LinkEdge(p, r.graph.edges[i]))
            && (forall j, o: Ref :: 0 <= j < |todo| && o < |p.heap| && ShouldLink(p, todo[j], o) ==>
                  Joined(r, p.heap[todo[j]].shapeId, p.heap[o].shapeId))
    decreases |todo|
  {
    var r := JoinShapes(p, todo);
    if todo != [] {
      var a := todo[0];
      var os := Around(p, a);
      var q := if Joins(p, a) then LinkAll(p, a, os) else p;
      if Joins(p, a) {
        LinkAllAdds(p, a, os);
        LinkAllJoins(p, a, os);
      }
      assert Around(q, a) == os;
      JoinShapesMeaning(q, todo[1..]);
      assert r == JoinShapes(q, todo[1..]);
      EdgesGrowTransitive(p, q, r);
      forall i | |p.graph.edges| <= i < |r.graph.edges| ensures LinkEdge(p, r.graph.edges[i]) {
        if i < |q.graph.edges| {
          assert r.graph.edges[i] == q.graph.edges[i];
        } else {
          LinkEdgeFrame(p, q, r.graph.edges[i]);
        }
      }
      forall j, o: Ref | 0 <= j < |todo| && o < |p.heap| && ShouldLink(p, todo[j], o)
        ensures Joined(r, p.heap[todo[j]].shapeId, p.heap[o].shapeId)
      {
        if j == 0 {
          var k :| 0 <= k < |os| && os[k] == o;
          JoinedKept(q, r, p.heap[a].shapeId, p.heap[o].shapeId);
        } else {
          assert todo[j] == todo[1..][j - 1];
          assert ShouldLink(q, todo[1..][j - 1], o);
        }
      }
    }
  }

  /** `joinGroupedShapes`: the loop over the whole shape list. */
  function JoinGroupedShapes(p: Page): (r: Page)
    requires Valid(p)
    ensures Valid(r) && r == p.(graph := r.graph)
    ensures r.graph.vertices == p.graph.vertices && r.graph.props == p.graph.props
  {
    JoinShapes(p, p.shapes)
  }

  // ---------------------------------------------------------------------------
  // addGroupLabels

  /** `findTopmostParent(sd).shapeId`. */
  function TopId(p: Page, h: Hierarchy, r: Ref): (t: Result<int, Error>)
    requires Valid(p) && Hierarchical(p, h) && r < |p.heap|
    ensures t.Err? ==> t.error == NullPointer
  {
    var top :- FindTopmostParent(p, h, r);
    Ok(p.heap[top].shapeId)
  }

  /** `a`'s bounds cover the 2-D shape `o`: their overlap is at least `o`'s area. */
  predicate Covers(p: Page, a: Ref, o: Ref)
    requires a < |p.heap| && o < |p.heap|
  {
    !Is1d(p.heap[o]) && IntersectionArea(p.heap[a].bounds, p.heap[o].bounds) >= p.heap[o].area
  }

  /**
   * The search callback of `addGroupLabels`: the covered results whose
   * topmost ancestor is not `top`. A covered result with a broken parent
   * chain is dereferenced as null.
   */
  function Contained(p: Page, h: Hierarchy, a: Ref, top: int, os: seq<Ref>): (r: Result<seq<Ref>, Error>)
    requires Valid(p) && Hierarchical(p, h) && a < |p.heap| && InHeap(p, os)
    ensures r.Err? ==> r.error == NullPointer
    ensures r.Ok? ==> InHeap(p, r.value)
    decreases |os|
  {
    if os == [] then Ok([])
    else
      var o := os[0];
      var rest :- Contained(p, h, a, top, os[1..]);
      if !Covers(p, a, o) then Ok(rest)
      else
        var t :- TopId(p, h, o);
        if t != top then Ok([o] + rest) else Ok(rest)
  }

  /**
   * The callback fails exactly when a covered result's parent chain breaks,
   * and otherwise keeps exactly the covered results of another hierarchy.
   */
  lemma {:induction false} ContainedMeaning(p: Page, h: Hierarchy, a: Ref, top: int, os: seq<Ref>)
    requires Valid(p) && Hierarchical(p, h) && a < |p.heap| && InHeap(p, os)
    ensures var r := Contained(p, h, a, top, os);
            && (r.Ok? <==> forall j :: 0 <= j < |os| && Covers(p, a, os[j]) ==> TopId(p, h, os[j]).Ok?)
            && (r.Ok? ==> forall o :: o in r.value <==> o in os && Covers(p, a, o) && TopId(p, h, o) != Ok(top))
    decreases |os|
  {
    if os != [] {
      ContainedMeaning(p, h, a, top, os[1..]);
      var r := Contained(p, h, a, top, os);
      assert forall j :: 1 <= j < |os| ==> os[j] == os[1..][j - 1];
      if r.Ok? {
        forall o ensures o in r.value <==> o in os && Covers(p, a, o) && TopId(p, h, o) != Ok(top) {
          if o in os && o != os[0] {
            assert o in os[1..];
          }
        }
      }
    }
  }

  /** A shape never counts as contained in itself: it shares its own topmost ancestor. */
  lemma NeverContainsItself(p: Page, h: Hierarchy, a: Ref, os: seq<Ref>)
    requires Valid(p) && Hierarchical(p, h) && a < |p.heap| && InHeap(p, os)
    requires TopId(p, h, a).Ok? && Contained(p, h, a, TopId(p, h, a).value, os).Ok?
    ensures a !in Contained(p, h, a, TopId(p, h, a).value, os).value
  {
    ContainedMeaning(p, h, a, TopId(p, h, a).value, os);
  }

  /** The shape ids of the listed records. */
  function IdsOf(p: Page, os: seq<Ref>): set<int> {
    set o | o in os && o < |p.heap| :: p.heap[o].shapeId
  }

  /** Sets the "group" property of each listed record's vertex to `name`. */
  function SetGroups(p: Page, os: seq<Ref>, name: string): (q: Page)
    requires Valid(p) && InHeap(p, os)
    ensures Valid(q) && q == p.(graph := q.graph)
    ensures q.graph.vertices == p.graph.vertices && q.graph.edges == p.graph.edges
    ensures q.graph.props.Keys == p.graph.props.Keys
    ensures forall v :: v in p.graph.props ==>
              q.graph.props[v] == if v in IdsOf(p, os) then p.graph.props[v].(group := name) else p.graph.props[v]
    decreases |os|
  {
    if os == [] then p
    else
      var v := p.heap[os[0]].shapeId;
      var q := p.(graph := SetProps(p.graph, v, p.graph.props[v].(group := name)));
      assert RefsOk(q) by {
        assert forall k :: k in p.shapesMap ==> p.shapesMap[k] < |p.heap|;
      }
      var r := SetGroups(q, os[1..], name);
      assert forall u :: u in IdsOf(p, os) <==> u == v || u in IdsOf(q, os[1..]) by {
        forall u ensures u in IdsOf(p, os) <==> u == v || u in IdsOf(q, os[1..]) {
          if u in IdsOf(p, os) && u != v {
            var o :| o in os && o < |p.heap| && p.heap[o].shapeId == u;
            assert o in os[1..];
          }
        }
      }
      r
  }

  /** Whether `addGroupLabels` makes `a` a group label. */
  predicate MakesGroup(p: Page, h: Hierarchy, a: Ref)
    requires Valid(p) && Hierarchical(p, h) && a < |p.heap|
  {
    && !Is1d(p.heap[a]) && p.heap[a].hasText
    && TopId(p, h, a).Ok?
    && (var cs := Contained(p, h, a, TopId(p, h, a).value, Around(p, a));
        cs.Ok? && cs.value != [])
  }

  /** The group label's work once it has found the shapes it contains: label them, then leave. */
  function MakeGroup(p: Page, a: Ref, cs: seq<Ref>): (r: Result<Page, Error>)
    requires Valid(p) && a < |p.heap| && InHeap(p, cs)
  {
    RemoveShape(SetGroups(p, cs, p.graph.props[p.heap[a].shapeId].text), a)
  }

  lemma MakeGroupMeaning(p: Page, h: Hierarchy, a: Ref, cs: seq<Ref>)
    requires Tracked(p, h) && a < |p.heap| && InHeap(p, cs) && MakeGroup(p, a, cs).Ok?
    ensures var r := MakeGroup(p, a, cs).value;
            && Tracked(r, h) && SameGeometry(p, r) && EdgesShrink(p, r)
            && r.shapes == p.shapes && r.shapesMap == p.shapesMap && r.nextId == p.nextId
            && r.heap == p.heap[a := p.heap[a].(removed := true)]
            && p.heap[a].shapeId !in r.graph.vertices
            && forall o :: o in cs ==> r.graph.props[p.heap[o].shapeId].group == p.graph.props[p.heap[a].shapeId].text
  {
    var name := p.graph.props[p.heap[a].shapeId].text;
    var q := SetGroups(p, cs, name);
    assert Tracked(q, h);
    assert MakeGroup(p, a, cs) == RemoveShape(q, a);
    RemoveShapeKeeps(q, h, a);
    var r := RemoveShape(q, a).value;
    assert r.graph.props == q.graph.props;
    forall o | o in cs ensures r.graph.props[p.heap[o].shapeId].group == name {
      var v := p.heap[o].shapeId;
      assert v in IdsOf(p, cs) && v in p.graph.props;
    }
  }

  /**
   * One iteration of `addGroupLabels`: for a 2-D shape with text, every
   * covered shape of another hierarchy gets its label as "group", and if
   * there is one the shape is removed.
   */
  function GroupStep(p: Page, h: Hierarchy, a: Ref): (r: Result<Page, Error>)
    requires Tracked(p, h) && a < |p.heap|
    ensures r.Err? ==> r.error == NullPointer || r.error == MissingVertex(p.heap[a].shapeId)
    ensures r.Ok? ==> Tracked(r.value, h)
  {
    if Is1d(p.heap[a]) || !p.heap[a].hasText then Ok(p)
    else
      var top :- TopId(p, h, a);
      var cs :- Contained(p, h, a, top, Around(p, a));
      if cs == [] then Ok(p)
      else
        var r := MakeGroup(p, a, cs);
        if r.Ok? then
          MakeGroupMeaning(p, h, a, cs);
          r
        else r
  }

  /** A step changes nothing but removal flags and edges, and no flag but `a`'s. */
  lemma GroupStepFrame(p: Page, h: Hierarchy, a: Ref)
    requires Tracked(p, h) && a < |p.heap| && GroupStep(p, h, a).Ok?
    ensures var r := GroupStep(p, h, a).value;
            && SameGeometry(p, r) && EdgesShrink(p, r)
            && r.shapes == p.shapes && r.shapesMap == p.shapesMap && r.nextId == p.nextId
            && (forall i :: 0 <= i < |p.heap| && i != a ==> r.heap[i] == p.heap[i])
            && (r.heap[a] == p.heap[a] || r.heap[a] == p.heap[a].(removed := true))
            && (r.heap[a].removed && !p.heap[a].removed ==> !Is1d(p.heap[a]) && p.heap[a].hasText)
  {
    if !Is1d(p.heap[a]) && p.heap[a].hasText {
      var top := TopId(p, h, a).value;
      var cs := Contained(p, h, a, top, Around(p, a)).value;
      if cs != [] {
        MakeGroupMeaning(p, h, a, cs);
      }
    }
  }

  /**
   * A step removes `a` exactly when it makes it a group label; then its
   * vertex is gone and every shape it contains carries its label as "group".
   */
  lemma GroupStepMeaning(p: Page, h: Hierarchy, a: Ref)
    requires Tracked(p, h) && a < |p.heap| && GroupStep(p, h, a).Ok?
    ensures var r := GroupStep(p, h, a).value;
            && (r.heap[a].removed <==> p.heap[a].removed || MakesGroup(p, h, a))
            && (MakesGroup(p, h, a) ==>
                  var cs := Contained(p, h, a, TopId(p, h, a).value, Around(p, a)).value;
                  && p.heap[a].shapeId !in r.graph.vertices
                  && forall o :: o in cs ==> r.graph.props[p.heap[o].shapeId].group == p.graph.props[p.heap[a].shapeId].text)
  {
    var r := GroupStep(p, h, a).value;
    if Is1d(p.heap[a]) || !p.heap[a].hasText {
      assert r == p && !MakesGroup(p, h, a);
    } else {
      var top := TopId(p, h, a).value;
      var cs := Contained(p, h, a, top, Around(p, a)).value;
      if cs == [] {
        assert r == p && !MakesGroup(p, h, a);
      } else {
        MakeGroupMeaning(p, h, a, cs);
      }
    }
  }

  /** Every edge of `q` was already an edge of `p`. */
  predicate EdgesShrink(p: Page, q: Page) {
    forall e :: e in q.graph.edges ==> e in p.graph.edges
  }

  /** The stage's loop over a snapshot of the shape list; the first exception ends it. */
  function GroupAll(p: Page, h: Hierarchy, todo: seq<Ref>): (r: Result<Page, Error>)
    requires Tracked(p, h) && InHeap(p, todo)
    ensures r.Ok? ==> Tracked(r.value, h)
    decreases |todo|
  {
    if todo == [] then Ok(p)
    else
      var q :- GroupStep(p, h, todo[0]);
      assert InHeap(q, todo[1..]);
      GroupAll(q, h, todo[1..])
  }

  /** Only labelled 2-D shapes of the list are removed, and nothing but flags and edges changes. */
  lemma GroupAllMeaning(p: Page, h: Hierarchy, todo: seq<Ref>)
    requires Tracked(p, h) && InHeap(p, todo) && GroupAll(p, h, todo).Ok?
    ensures var r := GroupAll(p, h, todo).value;
            && SameGeometry(p, r) && EdgesShrink(p, r)
            && r.shapes == p.shapes && r.shapesMap == p.shapesMap && r.nextId == p.nextId
            && (forall i :: 0 <= i < |p.heap| && p.heap[i].removed ==> r.heap[i].removed)
            && (forall i :: 0 <= i < |p.heap| && r.heap[i].removed && !p.heap[i].removed ==>
                  i in todo && !Is1d(p.heap[i]) && p.heap[i].hasText)
  {
    GroupAllFrame(p, h, todo);
    GroupAllRemoves(p, h, todo);
  }

  /** The loop changes only flags and edges, and a removed record stays removed. */
  lemma {:induction false} GroupAllFrame(p: Page, h: Hierarchy, todo: seq<Ref>)
    requires Tracked(p, h) && InHeap(p, todo) && GroupAll(p, h, todo).Ok?
    ensures var r := GroupAll(p, h, todo).value;
            && SameGeometry(p, r) && EdgesShrink(p, r)
            && r.shapes == p.shapes && r.shapesMap == p.shapesMap && r.nextId == p.nextId
            && (forall i :: 0 <= i < |p.heap| && p.heap[i].removed ==> r.heap[i].removed)
    decreases |todo|
  {
    if todo != [] {
      var q := GroupStep(p, h, todo[0]).value;
      GroupStepFrame(p, h, todo[0]);
      assert InHeap(q, todo[1..]);
      GroupAllFrame(q, h, todo[1..]);
      assert GroupAll(p, h, todo).value == GroupAll(q, h, todo[1..]).value;
    }
  }

  /** A record the loop removes is a labelled 2-D shape of the list. */
  lemma {:induction false} GroupAllRemoves(p: Page, h: Hierarchy, todo: seq<Ref>)
    requires Tracked(p, h) && InHeap(p, todo) && GroupAll(p, h, todo).Ok?
    ensures var r := GroupAll(p, h, todo).value;
            |r.heap| == |p.heap| &&
            forall i :: 0 <= i < |p.heap| && r.heap[i].removed && !p.heap[i].removed ==>
              i in todo && !Is1d(p.heap[i]) && p.heap[i].hasText
    decreases |todo|
  {
    if todo != [] {
      var q := GroupStep(p, h, todo[0]).value;
      GroupStepFrame(p, h, todo[0]);
      assert InHeap(q, todo[1..]);
      GroupAllRemoves(q, h, todo[1..]);
      var r := GroupAll(p, h, todo).value;
      assert r == GroupAll(q, h, todo[1..]).value;
      forall i | 0 <= i < |p.heap| && r.heap[i].removed && !p.heap[i].removed
        ensures i in todo && !Is1d(p.heap[i]) && p.heap[i].hasText
      {
        if i == todo[0] {
          if !q.heap[i].removed {
            assert i in todo[1..];
          }
        } else {
          assert i in todo[1..];
        }
      }
    }
  }

  /**
   * `addGroupLabels`: the loop over the shape list, then `cleanShapes`.
   * Afterwards no removed record is listed or mapped, and only labelled 2-D
   * shapes of the list were removed.
   */
  function AddGroupLabels(p: Page, h: Hierarchy): (r: Result<Page, Error>)
    requires Tracked(p, h)
    ensures r.Ok? ==> Tracked(r.value, h) && SameGeometry(p, r.value) && EdgesShrink(p, r.value)
    ensures r.Ok? ==> forall i :: 0 <= i < |r.value.shapes| ==> !r.value.heap[r.value.shapes[i]].removed
    ensures r.Ok? ==> forall k :: k in r.value.shapesMap ==> !r.value.heap[r.value.shapesMap[k]].removed
    ensures r.Ok? ==> forall i :: 0 <= i < |p.heap| && r.value.heap[i].removed && !p.heap[i].removed ==>
                        i in p.shapes && !Is1d(p.heap[i]) && p.heap[i].hasText
  {
    var q :- GroupAll(p, h, p.shapes);
    GroupAllMeaning(p, h, p.shapes);
    CleanShapesKeeps(q, h);
    Ok(CleanShapes(q))
  }
}
