/** What block layout is given: the box tree, the viewport, and the two outside services it calls. */
module LayoutContext {
  import opened AppUnits
  import opened Geometry
  import opened Styles
  import opened Wrappers
  import opened BoxTrees
  import opened BoxModels

  datatype LayoutError = FontNotBundled(key: nat)

  datatype Glyph = Glyph(id: nat, x: Au, y: Au, advance: Au)

  datatype GlyphRun = GlyphRun(font: nat, size: Au, color: Rgba, origin: Point, glyphs: seq<Glyph>)

  /** The text node a piece of a line came from, and that node's style. */
  datatype TextSource = TextSource(node: NodeId, style: LayoutStyle)

  /**
   * One source's contribution to a line, positioned relative to the content box. What
   * no text node accounts for takes the style of its container.
   */
  datatype TextPiece = TextPiece(source: Option<TextSource>, runs: seq<GlyphRun>) {
    function Node(): Option<NodeId> {
      if source.Some? then Some(source.value.node) else None
    }

    function StyleIn(container: LayoutStyle): LayoutStyle {
      if source.Some? then source.value.style else container
    }
  }

  datatype LineBox = LineBox(height: Au, baseline: Au, pieces: seq<TextPiece>)

  /** The shaper's verdict on inline children, the container's text properties and a line width. */
  type Shaper = (seq<BoxId>, LayoutStyle, Au) -> Result<seq<LineBox>, LayoutError>

  datatype Env = Env(tree: BoxTree, viewport: Size, pct: PercentOf, shape: Shaper)

  predicate EstablishesBfc(style: LayoutStyle) {
    style.overflow != Visible
  }

  /** The parent of `c`, where some box lists it as a child. */
  ghost function Parent(boxes: seq<LayoutBox>, c: BoxId): (r: Option<BoxId>)
    ensures r.Some? ==> r.value < |boxes| && c in boxes[r.value].children
    ensures r.None? ==> forall p :: 0 <= p < |boxes| ==> c !in boxes[p].children
  {
    if p :| 0 <= p < |boxes| && c in boxes[p].children then Some(p) else None
  }

  lemma ParentOfChild(boxes: seq<LayoutBox>, p: BoxId, i: nat)
    requires UniqueParents(boxes)
    requires p < |boxes| && i < |boxes[p].children|
    ensures Parent(boxes, boxes[p].children[i]) == Some(p)
  {
    var c := boxes[p].children[i];
    assert c in boxes[p].children;
    var q := Parent(boxes, c).value;
    var j :| 0 <= j < |boxes[q].children| && boxes[q].children[j] == c;
  }

  /**
   * The containing block a box is really laid out against: its parent's content
   * width and definite height, resolved top-down from the viewport.
   */
  ghost function ContainingBlock(env: Env, id: BoxId): (Au, Option<Au>)
    requires WellFormed(env.tree) && id < |env.tree.boxes|
    decreases |env.tree.boxes| - id, 0
  {
    match Parent(env.tree.boxes, id)
    case None => (env.viewport.w, Some(env.viewport.h))
    case Some(p) => var m := ModelOf(env, p); (m.contentWidth, m.knownHeight)
  }

  ghost function ModelOf(env: Env, id: BoxId): BoxModel
    requires WellFormed(env.tree) && id < |env.tree.boxes|
    decreases |env.tree.boxes| - id, 1
  {
    var cb := ContainingBlock(env, id);
    ResolveBoxModel(env.pct, env.tree.boxes[id].style, cb.0, cb.1)
  }
}
