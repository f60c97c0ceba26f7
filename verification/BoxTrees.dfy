/**
 * The box tree: one arena of boxes, addressed by index, as box generation
 * produces it and block layout reads it.
 */
module BoxTrees {
  import opened Styles
  import opened Wrappers

  type BoxId = nat
  type NodeId = nat

  datatype BoxKind = Block | Inline | InlineText(text: NodeId) | AnonymousBlock | AnonymousInline | LineBreak

  datatype LayoutBox = LayoutBox(node: Option<NodeId>, kind: BoxKind, style: LayoutStyle, children: seq<BoxId>)

  datatype BoxTree = BoxTree(boxes: seq<LayoutBox>, root: BoxId)

  predicate IsBlockLevel(kind: BoxKind) {
    kind.Block? || kind.AnonymousBlock?
  }

  /** Every child id is below its parent's: the arena is filled children first. */
  predicate ChildrenBelow(boxes: seq<LayoutBox>) {
    forall p, i :: 0 <= p < |boxes| && 0 <= i < |boxes[p].children| ==> boxes[p].children[i] < p
  }

  /** No box is listed as a child twice, by one parent or by two. */
  ghost predicate UniqueParents(boxes: seq<LayoutBox>) {
    forall p, i, q, j ::
      (0 <= p < |boxes| && 0 <= i < |boxes[p].children| && 0 <= q < |boxes| && 0 <= j < |boxes[q].children| &&
       boxes[p].children[i] == boxes[q].children[j]) ==> p == q && i == j
  }

  /** A box's children are all block-level or all inline-level. */
  predicate HomogeneousAt(boxes: seq<LayoutBox>, p: BoxId)
    requires p < |boxes|
    requires forall i :: 0 <= i < |boxes[p].children| ==> boxes[p].children[i] < |boxes|
  {
    || (forall i :: 0 <= i < |boxes[p].children| ==> IsBlockLevel(boxes[boxes[p].children[i]].kind))
    || (forall i :: 0 <= i < |boxes[p].children| ==> !IsBlockLevel(boxes[boxes[p].children[i]].kind))
  }

  predicate Homogeneous(boxes: seq<LayoutBox>)
    requires ChildrenBelow(boxes)
  {
    forall p :: 0 <= p < |boxes| ==> HomogeneousAt(boxes, p)
  }

  ghost predicate WellFormed(t: BoxTree) {
    && t.root == |t.boxes| - 1
    && ChildrenBelow(t.boxes)
    && UniqueParents(t.boxes)
    && Homogeneous(t.boxes)
  }
}
