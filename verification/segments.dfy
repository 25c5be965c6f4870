/**
 * `GeomUtils.PathSegmentIterator`: walks a (flattened) path and reports, for
 * every line-to segment, either the segment from the cursor to its end point
 * or, when the two are within 10⁻⁴ of each other on both axes, a single point.
 * Moves only move the cursor; closes report nothing and leave it in place.
 */
module Segments {
  import opened Geom2D
  import opened Paths
  import opened Flattening

  /** `GeomUtils.arePointsEqual`: both coordinates differ by less than 10⁻⁴. */
  predicate ArePointsEqual(x1: real, y1: real, x2: real, y2: real) {
    Abs(x1 - x2) < 0.0001 && Abs(y1 - y2) < 0.0001
  }

  function Abs(x: real): real { if x < 0.0 then -x else x }

  /** The tolerance comparison is reflexive and symmetric, but not transitive. */
  lemma ArePointsEqualProperties(x1: real, y1: real, x2: real, y2: real)
    ensures ArePointsEqual(x1, y1, x1, y1)
    ensures ArePointsEqual(x1, y1, x2, y2) <==> ArePointsEqual(x2, y2, x1, y1)
    ensures ArePointsEqual(0.0, 0.0, 0.00006, 0.0) && ArePointsEqual(0.00006, 0.0, 0.00012, 0.0)
    ensures !ArePointsEqual(0.0, 0.0, 0.00012, 0.0)
  {
  }

  /** What one step of the iterator reports: `psit.pt` or `psit.line`. */
  datatype Item = PtItem(pt: Point) | LnItem(line: Line)

  /**
   * The iterator's private state: the cursor (`lastX`, `lastY`) and the
   * entries 4 and 5 of its reused `coords` array, which only a cubic writes.
   * Both start at zero, as Java initialises them.
   */
  datatype Cursor = Cursor(last: Point, c45: Point)

  const Start: Cursor := Cursor(Point(0.0, 0.0), Point(0.0, 0.0))

  /**
   * `AsWritten` follows the code: after a quad the cursor takes `coords[4..5]`
   * (left over from an earlier cubic) and after a cubic it takes its second
   * control point `coords[2..3]`. `Intended` moves the cursor to the segment's
   * end point in both cases.
   */
  datatype Variant = AsWritten | Intended

  /** The cursor after one segment. */
  function Advance(v: Variant, st: Cursor, s: Seg): (r: Cursor)
    ensures v == Intended && !s.SegClose? ==> r.last == s.p
    ensures s.SegClose? ==> r == st
  {
    match s
    case SegMove(p) => Cursor(p, st.c45)
    case SegLine(p) => Cursor(p, st.c45)
    case SegQuad(c, p) => if v == AsWritten then Cursor(st.c45, st.c45) else Cursor(p, st.c45)
    case SegCubic(c1, c2, p) => if v == AsWritten then Cursor(c2, p) else Cursor(p, p)
    case SegClose => st
  }

  /** The item a line-to reports, from the cursor `last` to `p`. */
  function MakeItem(last: Point, p: Point): (it: Item)
    ensures it.PtItem? <==> ArePointsEqual(last.x, last.y, p.x, p.y)
    ensures it.PtItem? ==> it.pt == last
    ensures it.LnItem? ==> it.line == Line(last, p)
  {
    if ArePointsEqual(last.x, last.y, p.x, p.y) then PtItem(last) else LnItem(Line(last, p))
  }

  /** The cursor after a prefix of the path. */
  function CursorAfter(v: Variant, segs: seq<Seg>): Cursor {
    if segs == [] then Start
    else Advance(v, CursorAfter(v, segs[..|segs| - 1]), segs[|segs| - 1])
  }

  /** What the segment `s` reports when the cursor is `st`. */
  function Emit(st: Cursor, s: Seg): seq<Item> {
    if s.SegLine? then [MakeItem(st.last, s.p)] else []
  }

  /** Every item the iterator reports over the whole path, in order. */
  function ItemsOf(v: Variant, segs: seq<Seg>): seq<Item> {
    if segs == [] then []
    else
      var pre := segs[..|segs| - 1];
      ItemsOf(v, pre) + Emit(CursorAfter(v, pre), segs[|segs| - 1])
  }

  /**
   * The items the rest of the model works with: every caller passes a
   * flatness of 0.01, so the iterator walks the flattened path.
   */
  function Items(path: Path): seq<Item> {
    ItemsOf(Intended, Flattened(path.segs))
  }

  /** The number of line-to segments. */
  function LineCount(segs: seq<Seg>): nat {
    if segs == [] then 0
    else LineCount(segs[..|segs| - 1]) + (if segs[|segs| - 1].SegLine? then 1 else 0)
  }

  /**
   * One item per line-to segment, and the item for the line-to at index `i`
   * runs from the cursor left by `segs[..i]` to that segment's end point.
   */
  lemma {:induction false} ItemsFollowLines(v: Variant, segs: seq<Seg>, i: nat)
    requires i < |segs| && segs[i].SegLine?
    ensures |ItemsOf(v, segs)| == LineCount(segs)
    ensures LineCount(segs[..i]) < |ItemsOf(v, segs)|
    ensures ItemsOf(v, segs)[LineCount(segs[..i])] == MakeItem(CursorAfter(v, segs[..i]).last, segs[i].p)
    decreases |segs|
  {
    var n := |segs|;
    var pre := segs[..n - 1];
    ItemCount(v, pre);
    if i == n - 1 {
      assert segs[..i] == pre;
    } else {
      assert pre[..i] == segs[..i];
      ItemsFollowLines(v, pre, i);
    }
  }

  lemma {:induction false} ItemCount(v: Variant, segs: seq<Seg>)
    ensures |ItemsOf(v, segs)| == LineCount(segs)
    decreases |segs|
  {
    if segs != [] {
      ItemCount(v, segs[..|segs| - 1]);
    }
  }

  /**
   * Under the intended reading, a line-to that follows a move, line, quad or
   * cubic starts at that segment's end point.
   */
  lemma IntendedCursorAtPreviousEnd(segs: seq<Seg>, i: nat)
    requires 0 < i < |segs| && segs[i].SegLine? && !segs[i - 1].SegClose?
    ensures LineCount(segs[..i]) < |ItemsOf(Intended, segs)|
    ensures ItemsOf(Intended, segs)[LineCount(segs[..i])] == MakeItem(segs[i - 1].p, segs[i].p)
  {
    ItemsFollowLines(Intended, segs, i);
    assert segs[..i][..i - 1] == segs[..i - 1];
  }

  /** On flat paths (the only ones a flattening iterator produces) the two readings agree. */
  lemma {:induction false} VariantsAgreeOnFlat(segs: seq<Seg>)
    requires Flat(segs)
    ensures CursorAfter(AsWritten, segs) == CursorAfter(Intended, segs)
    ensures ItemsOf(AsWritten, segs) == ItemsOf(Intended, segs)
    decreases |segs|
  {
    if segs != [] {
      var pre := segs[..|segs| - 1];
      assert Flat(pre) by {
        forall i | 0 <= i < |pre| ensures !pre[i].SegQuad? && !pre[i].SegCubic? {
          assert pre[i] == segs[i];
        }
      }
      VariantsAgreeOnFlat(pre);
      assert !segs[|segs| - 1].SegQuad? && !segs[|segs| - 1].SegCubic?;
    }
  }

  /**
   * A curve after a move is iterated as the line-tos it flattens to, so a
   * path drawn with a single quad or cubic still yields items; the first
   * starts at the move's point.
   */
  lemma CurveYieldsItems(w: Winding, p0: Point, c1: Point, c2: Point, p1: Point)
    ensures var items := Items(Path(w, [SegMove(p0), SegQuad(c1, p1)]));
            items != [] && items[0] == MakeItem(p0, FlattenQuad(p0, c1, p1)[0])
    ensures var items := Items(Path(w, [SegMove(p0), SegCubic(c1, c2, p1)]));
            items != [] && items[0] == MakeItem(p0, FlattenCubic(p0, c1, c2, p1)[0])
  {
    CurveFirstItem([SegMove(p0), SegQuad(c1, p1)], LinesTo(FlattenQuad(p0, c1, p1)));
    CurveFirstItem([SegMove(p0), SegCubic(c1, c2, p1)], LinesTo(FlattenCubic(p0, c1, c2, p1)));
  }

  /** The first item of a move followed by the line-tos `lines`. */
  lemma CurveFirstItem(segs: seq<Seg>, lines: seq<Seg>)
    requires |segs| == 2 && segs[0].SegMove? && (segs[1].SegQuad? || segs[1].SegCubic?)
    requires lines == FlattenSeg(segs[0].p, segs[1])
    ensures var items := ItemsOf(Intended, Flattened(segs));
            items != [] && items[0] == MakeItem(segs[0].p, lines[0].p)
  {
    var m := segs[0].p;
    assert FlattenFrom(m, m, segs[1..]) == lines by {
      assert FlattenFrom(m, m, segs[1..]) == FlattenNext(m, m, segs[1..]);
      var rest := segs[1..];
      assert rest[0] == segs[1] && rest[1..] == [];
      assert FlattenNext(m, m, rest) == FlattenSeg(m, rest[0]) + FlattenFrom(rest[0].p, m, []);
    }
    var flat := Flattened(segs);
    assert flat == [segs[0]] + lines by {
      assert flat == FlattenNext(Origin, Origin, segs);
      assert FlattenSeg(Origin, segs[0]) == [segs[0]];
    }
    assert flat[1] == lines[0] && lines[0].SegLine?;
    ItemsFollowLines(Intended, flat, 1);
    assert flat[..1] == [segs[0]];
    assert CursorAfter(Intended, flat[..1]).last == m by {
      assert flat[..1][..0] == [];
    }
  }

  /**
   * The iterator with a flatness never meets a curve, so the cursor slip
   * below cannot show through `Items`: reading the code as written gives
   * the same items.
   */
  lemma ItemsAsWritten(path: Path)
    ensures ItemsOf(AsWritten, Flattened(path.segs)) == Items(path)
  {
    VariantsAgreeOnFlat(Flattened(path.segs));
  }

  /**
   * As written, a line-to after a quad starts at the stale `coords[4..5]`
   * (here the zeros the array starts with), not at the quad's end point.
   */
  lemma QuadLeavesStaleCursor()
    ensures var segs := [SegMove(Point(0.0, 0.0)), SegQuad(Point(1.0, 1.0), Point(2.0, 0.0)), SegLine(Point(3.0, 0.0))];
            && ItemsOf(AsWritten, segs) == [LnItem(Line(Point(0.0, 0.0), Point(3.0, 0.0)))]
            && ItemsOf(Intended, segs) == [LnItem(Line(Point(2.0, 0.0), Point(3.0, 0.0)))]
  {
    var segs := [SegMove(Point(0.0, 0.0)), SegQuad(Point(1.0, 1.0), Point(2.0, 0.0)), SegLine(Point(3.0, 0.0))];
    Replay3(segs);
    assert CursorAfter(AsWritten, segs[..2]).last == Point(0.0, 0.0);
    assert CursorAfter(Intended, segs[..2]).last == Point(2.0, 0.0);
  }

  /** Unfolds the iterator over a three-segment path whose first two segments report nothing. */
  lemma Replay3(segs: seq<Seg>)
    requires |segs| == 3 && !segs[0].SegLine? && !segs[1].SegLine? && segs[2].SegLine?
    ensures forall v :: ItemsOf(v, segs) == [MakeItem(CursorAfter(v, segs[..2]).last, segs[2].p)]
    ensures forall v :: CursorAfter(v, segs[..2]) == Advance(v, Advance(v, Start, segs[0]), segs[1])
  {
    assert segs[..2][..1] == [segs[0]];
    assert segs[..3 - 1] == segs[..2];
    assert [segs[0]][..0] == [];
    forall v ensures ItemsOf(v, segs) == [MakeItem(CursorAfter(v, segs[..2]).last, segs[2].p)] {
      assert ItemsOf(v, [segs[0]]) == [];
      assert ItemsOf(v, segs[..2]) == [];
    }
    forall v ensures CursorAfter(v, segs[..2]) == Advance(v, Advance(v, Start, segs[0]), segs[1]) {
      assert CursorAfter(v, [segs[0]]) == Advance(v, Start, segs[0]);
    }
  }

  /**
   * As written, a line-to after a cubic starts at the cubic's second control
   * point, not at its end point.
   */
  lemma CubicLeavesControlPoint()
    ensures var segs := [SegMove(Point(0.0, 0.0)), SegCubic(Point(1.0, 1.0), Point(2.0, 1.0), Point(3.0, 0.0)), SegLine(Point(4.0, 0.0))];
            && ItemsOf(AsWritten, segs) == [LnItem(Line(Point(2.0, 1.0), Point(4.0, 0.0)))]
            && ItemsOf(Intended, segs) == [LnItem(Line(Point(3.0, 0.0), Point(4.0, 0.0)))]
  {
    var segs := [SegMove(Point(0.0, 0.0)), SegCubic(Point(1.0, 1.0), Point(2.0, 1.0), Point(3.0, 0.0)), SegLine(Point(4.0, 0.0))];
    Replay3(segs);
    assert CursorAfter(AsWritten, segs[..2]).last == Point(2.0, 1.0);
    assert CursorAfter(Intended, segs[..2]).last == Point(3.0, 0.0);
  }
}
