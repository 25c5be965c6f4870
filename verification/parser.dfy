/**
 * `VisioPageParser.process`: the six stages run in order on one page, each
 * on the page the previous one left behind.
 */
module Parser {
  import opened Wrappers
  import opened Errors
  import opened Collect
  import opened Page
  import opened Grouping
  import opened Inference
  import opened Association
  import opened Splitting

  /**
   * `process`: collect the shapes and the stored connections, join grouped
   * shapes, label groups, infer connections, then associate text. The page
   * that comes out keeps its bookkeeping and lists no removed shape.
   */
  function Process(d: Document, contains: Inside): (r: Result<Page, Error>)
    requires DocumentOk(d)
    ensures r.Ok? ==> Tracked(r.value, d.hierarchy)
    ensures r.Ok? ==> forall i :: 0 <= i < |r.value.shapes| ==> !r.value.heap[r.value.shapes[i]].removed
  {
    var p :- BeforeText(d, contains);
    AssociateText(p, d.hierarchy)
  }

  /** The page as it stands when text association starts. */
  function BeforeText(d: Document, contains: Inside): (r: Result<Page, Error>)
    requires DocumentOk(d)
    ensures r.Ok? ==> Tracked(r.value, d.hierarchy)
  {
    var h := d.hierarchy;
    var p0 :- CollectShapes(d);
    var p1 :- CollectConnections(p0, h, d.connections);
    var p2 := JoinGroupedShapes(p1);
    GraphOnlyTracked(p1, p2, h);
    var p3 :- AddGroupLabels(p2, h);
    InferConnections(p3, h, contains)
  }

  /**
   * Text association is the last stage: a processed page lists only shapes
   * listed before it, and every listed shape still without text has no
   * stealable textbox within reach.
   */
  lemma ProcessSettles(d: Document, contains: Inside)
    requires DocumentOk(d) && Process(d, contains).Ok?
    ensures BeforeText(d, contains).Ok?
    ensures var p := BeforeText(d, contains).value;
            var r := Process(d, contains).value;
            && (forall x :: x in r.shapes ==> x in p.shapes)
            && forall i :: 0 <= i < |r.shapes| && !r.heap[r.shapes[i]].hasText ==> Chosen(r, r.shapes[i]).None?
  {
    var p := BeforeText(d, contains).value;
    AssociateTextMeaning(p, d.hierarchy);
  }
}
