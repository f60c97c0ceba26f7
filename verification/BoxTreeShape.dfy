/**
 * What every generated box tree looks like: the invariants block layout relies on,
 * and which document nodes its boxes stand for, in which order.
 */
module BoxTreeShape {
  import opened Wrappers
  import opened Styles
  import opened BoxTrees
  import opened Dom
  import opened BoxGeneration
  import Forest

  // ----- the invariants of one arena -----

  /** No box lists `id` as a child. */
  ghost predicate Free(boxes: seq<LayoutBox>, id: BoxId) {
    forall p :: 0 <= p < |boxes| ==> id !in boxes[p].children
  }

  ghost predicate AttachedOnce(boxes: seq<LayoutBox>) {
    && (forall p :: 0 <= p < |boxes| ==> Forest.Distinct(boxes[p].children))
    && (forall p, q, c ::
          0 <= p < |boxes| && 0 <= q < |boxes| && c in boxes[p].children && c in boxes[q].children ==> p == q)
  }

  predicate AllBlock(boxes: seq<LayoutBox>, ids: seq<BoxId>) {
    forall i :: 0 <= i < |ids| ==> BlockAt(boxes, ids[i])
  }

  predicate NoneBlock(boxes: seq<LayoutBox>, ids: seq<BoxId>) {
    forall i :: 0 <= i < |ids| ==> ids[i] < |boxes| && !BlockAt(boxes, ids[i])
  }

  /** What the kind of a box promises about its style, node and children. */
  ghost predicate KindHolds(boxes: seq<LayoutBox>, box: LayoutBox) {
    match box.kind
    case Block => box.style.display.Block? && box.node.Some?
        && (AllBlock(boxes, box.children) || NoneBlock(boxes, box.children))
    case Inline => box.style.display.Inline? && box.node.Some? && NoneBlock(boxes, box.children)
    case AnonymousBlock => box.style.display.Block? && box.node.None? && box.children != []
        && NoneBlock(boxes, box.children)
    case InlineText(n) => box.node == Some(n) && box.children == []
    case LineBreak => box.node.Some? && box.children == []
    case AnonymousInline => false
  }

  ghost predicate Sound(boxes: seq<LayoutBox>) {
    && ChildrenBelow(boxes)
    && AttachedOnce(boxes)
    && forall p :: 0 <= p < |boxes| ==> KindHolds(boxes, boxes[p])
  }

  /** Boxes from `base` on only have children from `base` on. */
  ghost predicate SelfContained(boxes: seq<LayoutBox>, base: nat) {
    forall p, i :: base <= p < |boxes| && 0 <= i < |boxes[p].children| ==> base <= boxes[p].children[i]
  }

  /** Finished boxes waiting to be attached. */
  ghost predicate Waiting(boxes: seq<LayoutBox>, ids: seq<BoxId>, base: nat) {
    && Forest.Distinct(ids)
    && forall i :: 0 <= i < |ids| ==> base <= ids[i] < |boxes| && Free(boxes, ids[i])
  }

  lemma KindKept(boxes: seq<LayoutBox>, after: seq<LayoutBox>, box: LayoutBox)
    requires boxes <= after && KindHolds(boxes, box)
    ensures KindHolds(after, box)
  {
  }

  /** Appending a box over waiting children keeps the arena sound. */
  lemma PushSound(boxes: seq<LayoutBox>, box: LayoutBox, base: nat)
    requires Sound(boxes) && SelfContained(boxes, base) && Waiting(boxes, box.children, base) && KindHolds(boxes, box)
    ensures var after := boxes + [box];
            && Sound(after) && SelfContained(after, base) && Free(after, |boxes|)
            && forall x: BoxId :: Free(boxes, x) && x !in box.children ==> Free(after, x)
  {
    hide KindHolds;
    var after := boxes + [box];
    forall p | 0 <= p < |after| ensures KindHolds(after, after[p]) {
      KindKept(boxes, after, after[p]);
    }
  }

  lemma StillWaiting(boxes: seq<LayoutBox>, box: LayoutBox, ids: seq<BoxId>, base: nat)
    requires Waiting(boxes, ids, base)
    requires forall x: BoxId :: Free(boxes, x) && x !in box.children ==> Free(boxes + [box], x)
    requires forall i :: 0 <= i < |ids| ==> ids[i] !in box.children
    ensures Waiting(boxes + [box], ids, base)
  {
  }

  // ----- wrapping -----

  /** What wrapping `ids` makes of an arena. */
  ghost predicate WrappedSoundly(boxes: seq<LayoutBox>, ids: seq<BoxId>, base: nat, r: Wrapped) {
    && boxes <= r.boxes && Sound(r.boxes) && SelfContained(r.boxes, base)
    && Waiting(r.boxes, r.ids, base)
    && (forall x :: x in r.ids ==> x in ids || |boxes| <= x)
    && (forall x: BoxId :: Free(boxes, x) && x < |boxes| && x !in ids ==> Free(r.boxes, x))
  }

  lemma WaitingSlices(boxes: seq<LayoutBox>, ids: seq<BoxId>, base: nat, n: nat)
    requires Waiting(boxes, ids, base) && n <= |ids|
    ensures Waiting(boxes, ids[..n], base) && Waiting(boxes, ids[n..], base)
    ensures forall x :: x in ids[..n] ==> x !in ids[n..]
    ensures forall x :: x in ids <==> x in ids[..n] || x in ids[n..]
  {
    assert ids == ids[..n] + ids[n..];
  }

  /** Putting one more waiting box in front of a wrapped rest. */
  lemma ConsWrapped(boxes0: seq<LayoutBox>, boxes: seq<LayoutBox>, ids: seq<BoxId>, base: nat, x: BoxId,
                    tail: seq<BoxId>, rest: Wrapped)
    requires WrappedSoundly(boxes, tail, base, rest)
    requires base <= x < |boxes| && Free(boxes, x) && x !in tail
    requires boxes0 <= boxes && (x in ids || |boxes0| <= x)
    requires forall y :: y in tail ==> y in ids
    requires forall y: BoxId :: Free(boxes0, y) && y < |boxes0| && y !in ids ==> Free(boxes, y)
    ensures WrappedSoundly(boxes0, ids, base, Wrapped(rest.boxes, [x] + rest.ids))
  {
    hide Sound, Free, SelfContained;
    var r := [x] + rest.ids;
    assert x !in rest.ids;
    assert Forest.Distinct(r);
  }

  lemma {:induction false} WrapRunsSound(doc: StyledDoc, style: LayoutStyle, boxes: seq<LayoutBox>, ids: seq<BoxId>,
                                         base: nat)
    requires Sound(boxes) && SelfContained(boxes, base) && Waiting(boxes, ids, base)
    ensures WrappedSoundly(boxes, ids, base, WrapRuns(doc, style, boxes, ids))
    ensures AllBlock(WrapRuns(doc, style, boxes, ids).boxes, WrapRuns(doc, style, boxes, ids).ids)
    decreases |ids|
  {
    hide Sound, Free, SelfContained, BlockAt, WrappedSoundly, Waiting, FlushRun;
    if ids == [] {
      NothingWrapped(boxes, base);
    } else if BlockAt(boxes, ids[0]) {
      WaitingSlices(boxes, ids, base, 1);
      WaitingFirst(boxes, ids, base);
      WrapRunsSound(doc, style, boxes, ids[1..], base);
      var rest := WrapRuns(doc, style, boxes, ids[1..]);
      assert ids[0] in ids[..1];
      ConsWrapped(boxes, boxes, ids, base, ids[0], ids[1..], rest);
      ConsBlock(boxes, ids[0], rest, ids[1..], base);
    } else {
      var n := InlinePrefix(boxes, ids);
      WaitingSlices(boxes, ids, base, n);
      var flushed := FlushRun(doc, style, boxes, ids[..n]);
      FlushSound(doc, style, boxes, ids, base, n);
      WrapRunsSound(doc, style, flushed.boxes, ids[n..], base);
      var rest := WrapRuns(doc, style, flushed.boxes, ids[n..]);
      if flushed.ids == [] {
        TailWrapped(boxes, ids, base, ids[n..], rest);
        assert [] + rest.ids == rest.ids;
      } else {
        ConsWrapped(boxes, flushed.boxes, ids, base, |boxes|, ids[n..], rest);
        ConsBlock(flushed.boxes, |boxes|, rest, ids[n..], base);
      }
    }
  }

  lemma NothingWrapped(boxes: seq<LayoutBox>, base: nat)
    requires Sound(boxes) && SelfContained(boxes, base)
    ensures WrappedSoundly(boxes, [], base, Wrapped(boxes, [])) && AllBlock(boxes, [])
  {
  }

  lemma WaitingFirst(boxes: seq<LayoutBox>, ids: seq<BoxId>, base: nat)
    requires Waiting(boxes, ids, base) && ids != []
    ensures base <= ids[0] < |boxes| && Free(boxes, ids[0]) && ids[0] !in ids[1..]
  {
  }

  lemma ConsBlock(boxes: seq<LayoutBox>, x: BoxId, rest: Wrapped, tail: seq<BoxId>, base: nat)
    requires WrappedSoundly(boxes, tail, base, rest) && BlockAt(boxes, x) && AllBlock(rest.boxes, rest.ids)
    ensures AllBlock(rest.boxes, [x] + rest.ids)
  {
  }

  lemma TailWrapped(boxes: seq<LayoutBox>, ids: seq<BoxId>, base: nat, tail: seq<BoxId>, rest: Wrapped)
    requires WrappedSoundly(boxes, tail, base, rest) && forall y :: y in tail ==> y in ids
    ensures WrappedSoundly(boxes, ids, base, rest)
  {
  }

  /** Flushing the leading run: dropped, or an anonymous block over it. */
  lemma FlushSound(doc: StyledDoc, style: LayoutStyle, boxes: seq<LayoutBox>, ids: seq<BoxId>, base: nat, n: nat)
    requires Sound(boxes) && SelfContained(boxes, base) && Waiting(boxes, ids, base) && ids != []
    requires n == InlinePrefix(boxes, ids) && !BlockAt(boxes, ids[0])
    ensures n > 0
    ensures var flushed := FlushRun(doc, style, boxes, ids[..n]);
            && boxes <= flushed.boxes && Sound(flushed.boxes) && SelfContained(flushed.boxes, base)
            && Waiting(flushed.boxes, ids[n..], base)
            && (forall y: BoxId :: Free(boxes, y) && y < |boxes| && y !in ids ==> Free(flushed.boxes, y))
            && (flushed.ids == [] ==> flushed.boxes == boxes)
            && (flushed.ids != [] ==>
                  && flushed.ids == [|boxes|] && |flushed.boxes| == |boxes| + 1 && base <= |boxes|
                  && Free(flushed.boxes, |boxes|) && |boxes| !in ids[n..] && BlockAt(flushed.boxes, |boxes|))
  {
    hide Sound, Free, SelfContained;
    var run := ids[..n];
    WaitingSlices(boxes, ids, base, n);
    if !BlankRun(doc, boxes, run) {
      var box := AnonymousBox(style, run);
      assert KindHolds(boxes, box);
      PushSound(boxes, box, base);
      StillWaiting(boxes, box, ids[n..], base);
      forall y: BoxId | Free(boxes, y) && y < |boxes| && y !in ids ensures Free(boxes + [box], y) {
        assert y !in box.children;
      }
    }
  }

  lemma WrapMixedSound(doc: StyledDoc, style: LayoutStyle, boxes: seq<LayoutBox>, ids: seq<BoxId>, base: nat)
    requires Sound(boxes) && SelfContained(boxes, base) && Waiting(boxes, ids, base)
    ensures var r := WrapMixed(doc, style, boxes, ids);
            && WrappedSoundly(boxes, ids, base, r)
            && (HasBlock(boxes, ids) ==> AllBlock(r.boxes, r.ids))
            && (!HasBlock(boxes, ids) ==> NoneBlock(r.boxes, r.ids))
  {
    hide Sound, Free, SelfContained;
    WrapRunsSound(doc, style, boxes, ids, base);
  }

  // ----- generation -----

  lemma CloseSound(doc: StyledDoc, f: Frame, boxes: seq<LayoutBox>, base: nat)
    requires Sound(boxes) && SelfContained(boxes, base) && Waiting(boxes, f.built, base) && base <= |boxes|
    requires f.style.display == if f.isInline then Display.Inline else Display.Block
    ensures var g := CloseFrame(doc, f, boxes);
            && boxes <= g.boxes && Sound(g.boxes) && SelfContained(g.boxes, base)
            && base <= g.id == |g.boxes| - 1 && Free(g.boxes, g.id)
            && KindHolds(g.boxes, g.boxes[g.id])
  {
    hide Sound, Free, SelfContained, WrapMixed, BlockAt;
    var style := FinalStyle(f, boxes);
    var wrapped := WrapMixed(doc, style, boxes, f.built);
    WrapMixedSound(doc, style, boxes, f.built, base);
    var box := LayoutBox(Some(f.node), FinalKind(f, boxes), style, wrapped.ids);
    assert KindHolds(wrapped.boxes, box);
    PushSound(wrapped.boxes, box, base);
    KindKept(wrapped.boxes, wrapped.boxes + [box], box);
  }

  /** The state of a frame's children between two turns. */
  ghost predicate FrameSound(doc: StyledDoc, f: Frame, boxes: seq<LayoutBox>, base: nat) {
    && Sound(boxes) && SelfContained(boxes, base) && base <= |boxes|
    && Waiting(boxes, f.built, base)
    && f.style.display == (if f.isInline then Display.Inline else Display.Block)
  }

  lemma {:induction false} BoxSound(doc: StyledDoc, node: NodeId, style: LayoutStyle, isInline: bool,
                                    boxes: seq<LayoutBox>)
    requires DocWellFormed(doc) && node < |doc.kids| && Sound(boxes)
    requires style.display == if isInline then Display.Inline else Display.Block
    ensures var g := GenBox(doc, node, style, isInline, boxes);
            && boxes <= g.boxes && Sound(g.boxes) && SelfContained(g.boxes, |boxes|)
            && |boxes| <= g.id == |g.boxes| - 1 && Free(g.boxes, g.id)
    decreases Depth(doc, node), 1, 0
  {
    hide DocWellFormed, Sound, SelfContained, Waiting, Free, CloseFrame, KindHolds;
    var f := OpenFrame(doc, node, style, isInline);
    StartsSound(boxes);
    ChildrenSound(doc, f, boxes, |boxes|);
    var done := GenChildren(doc, f, boxes);
    CloseSound(doc, done.frame, done.boxes, |boxes|);
  }

  lemma StartsSound(boxes: seq<LayoutBox>)
    ensures SelfContained(boxes, |boxes|) && Waiting(boxes, [], |boxes|)
  {
  }

  lemma {:induction false} ChildrenSound(doc: StyledDoc, f: Frame, boxes: seq<LayoutBox>, base: nat)
    requires DocWellFormed(doc) && FrameOk(doc, f) && FrameSound(doc, f, boxes, base)
    ensures var r := GenChildren(doc, f, boxes);
            && boxes <= r.boxes && FrameSound(doc, r.frame, r.boxes, base)
            && r.frame.style == f.style && r.frame.isInline == f.isInline && r.frame.node == f.node
    decreases Depth(doc, f.node), 0, |f.children| - f.nextChild
  {
    hide DocWellFormed, Sound, SelfContained, Waiting, Free, KindHolds, GenBox;
    if f.nextChild < |f.children| {
      var c := f.children[f.nextChild];
      assert c in doc.kids[f.node];
      match Classify(doc, c, f.style) {
        case Skip =>
          assert f.built + [] == f.built;
          ChildrenSound(doc, Deeper(f, []), boxes, base);
        case Leaf(kind, style) =>
          LeafSound(doc, f, boxes, base, LayoutBox(Some(c), kind, style, []));
          ChildrenSound(doc, Deeper(f, [|boxes|]), boxes + [LayoutBox(Some(c), kind, style, [])], base);
        case Container(isInline, style) =>
          BoxSound(doc, c, style, isInline, boxes);
          var g := GenBox(doc, c, style, isInline, boxes);
          NestedSound(doc, f, boxes, base, g);
          ChildrenSound(doc, Deeper(f, [g.id]), g.boxes, base);
      }
    }
  }

  lemma LeafSound(doc: StyledDoc, f: Frame, boxes: seq<LayoutBox>, base: nat, leaf: LayoutBox)
    requires FrameSound(doc, f, boxes, base) && leaf.node.Some? && leaf.children == []
    requires leaf.kind == InlineText(leaf.node.value) || leaf.kind == LineBreak
    ensures FrameSound(doc, Deeper(f, [|boxes|]), boxes + [leaf], base)
  {
    hide Sound, SelfContained, Free;
    PushSound(boxes, leaf, base);
    StillWaiting(boxes, leaf, f.built, base);
  }

  lemma NestedSound(doc: StyledDoc, f: Frame, boxes: seq<LayoutBox>, base: nat, g: Generated)
    requires FrameSound(doc, f, boxes, base)
    requires boxes <= g.boxes && Sound(g.boxes) && SelfContained(g.boxes, |boxes|)
    requires |boxes| <= g.id == |g.boxes| - 1 && Free(g.boxes, g.id)
    ensures FrameSound(doc, Deeper(f, [g.id]), g.boxes, base)
  {
    hide Sound, KindHolds;
    forall i | 0 <= i < |f.built| ensures Free(g.boxes, f.built[i]) {
      assert Free(boxes, f.built[i]) && f.built[i] < |boxes|;
    }
    forall p, i | base <= p < |g.boxes| && 0 <= i < |g.boxes[p].children| ensures base <= g.boxes[p].children[i] {
      if p < |boxes| {
        assert g.boxes[p] == boxes[p];
      }
    }
  }

  lemma SoundIsWellFormed(boxes: seq<LayoutBox>)
    requires Sound(boxes) && boxes != []
    ensures BoxTrees.WellFormed(BoxTree(boxes, |boxes| - 1))
  {
    forall p | 0 <= p < |boxes| ensures HomogeneousAt(boxes, p) {
      assert KindHolds(boxes, boxes[p]);
    }
    SoundIsUnique(boxes);
  }

  lemma SoundIsUnique(boxes: seq<LayoutBox>)
    requires AttachedOnce(boxes)
    ensures UniqueParents(boxes)
  {
    forall p, i, q, j | 0 <= p < |boxes| && 0 <= i < |boxes[p].children| && 0 <= q < |boxes|
           && 0 <= j < |boxes[q].children| &&
                        boxes[p].children[i] == boxes[q].children[j]
      ensures p == q && i == j
    {
      var c := boxes[p].children[i];
      assert c in boxes[p].children && c in boxes[q].children;
    }
  }

  /**
   * Every generated tree is what layout expects: children below their parents and
   * listed once, all block-level or all inline-level, no block inside an inline box,
   * and `display` agreeing with the kind.
   */
  lemma GeneratedTreeIsSound(doc: StyledDoc)
    requires DocWellFormed(doc)
    ensures BoxTrees.WellFormed(GenTree(doc))
    ensures GenTree(doc) == EMPTY_TREE || Sound(GenTree(doc).boxes)
  {
    hide GenBox, Sound;
    var root := RootElement(doc, doc.kids[Forest.ROOT]);
    if root.Some? && root.value < |doc.kids| && !RootStyle(doc, root.value).display.Hide? {
      var style := RootStyle(doc, root.value);
      assert Sound([]) by { NoBoxes(); }
      BoxSound(doc, root.value, style, style.display.Inline?, []);
      SoundIsWellFormed(GenTree(doc).boxes);
    } else {
      EmptyIsWellFormed();
    }
  }

  lemma NoBoxes()
    ensures Sound([])
  {
  }

  lemma EmptyIsWellFormed()
    ensures BoxTrees.WellFormed(EMPTY_TREE)
  {
    assert HomogeneousAt(EMPTY_TREE.boxes, 0);
  }

  // ----- which nodes have boxes, in which order -----

  /** A node the document shows: a text, or an element whose computed style does not hide it. */
  predicate Shows(doc: StyledDoc, node: NodeId) {
    && node < |doc.kinds| && node < |doc.computed|
    && (doc.kinds[node].Text?
        || (doc.kinds[node].Element? && doc.computed[node].Some? && doc.computed[node].value.display != Display.Hide))
  }

  /** A shown element that holds its children: any but a line break. */
  predicate Holds(doc: StyledDoc, node: NodeId) {
    Shows(doc, node) && doc.kinds[node].Element? && doc.kinds[node].name != "br"
  }

  /** How a node takes part in generation, as the document says it; the container's style plays no role in it. */
  function RoleOf(doc: StyledDoc, node: NodeId): ChildBox {
    if !Shows(doc, node) then Skip
    else if doc.kinds[node].Text? then Leaf(InlineText(node), InheritedTextStyle(INITIAL))
    else if Holds(doc, node) then
      Container(doc.computed[node].value.display == Display.Inline, doc.computed[node].value)
    else Leaf(LineBreak, doc.computed[node].value)
  }

  /** Generation classifies every child by what the document says of it, whatever its container. */
  lemma RoleIgnoresStyle(doc: StyledDoc, node: NodeId, parent: LayoutStyle)
    ensures Classify(doc, node, parent).Skip? == RoleOf(doc, node).Skip?
    ensures Classify(doc, node, parent).Leaf? == RoleOf(doc, node).Leaf?
    ensures Classify(doc, node, parent).Container? ==> Classify(doc, node, parent) == RoleOf(doc, node)
  {
  }

  /** The displayed nodes below `node` from its `k`-th child on, children before their container. */
  ghost function ShownPost(doc: StyledDoc, node: NodeId, k: nat): seq<NodeId>
    requires DocWellFormed(doc) && node < |doc.kids|
    decreases Depth(doc, node), |doc.kids[node]| - k
  {
    if k >= |doc.kids[node]| then []
    else
      var c := doc.kids[node][k];
      assert c in doc.kids[node];
      (match RoleOf(doc, c)
       case Skip => []
       case Leaf(_, _) => [c]
       case Container(_, _) => ShownPost(doc, c, 0) + [c]) + ShownPost(doc, node, k + 1)
  }

  /** The same in document order, containers first. */
  ghost function ShownPre(doc: StyledDoc, node: NodeId, k: nat): seq<NodeId>
    requires DocWellFormed(doc) && node < |doc.kids|
    decreases Depth(doc, node), |doc.kids[node]| - k
  {
    if k >= |doc.kids[node]| then []
    else
      var c := doc.kids[node][k];
      assert c in doc.kids[node];
      (match RoleOf(doc, c)
       case Skip => []
       case Leaf(_, _) => [c]
       case Container(_, _) => [c] + ShownPre(doc, c, 0)) + ShownPre(doc, node, k + 1)
  }

  function NodeOf(box: LayoutBox): seq<NodeId> {
    if box.node.Some? then [box.node.value] else []
  }

  /** The nodes of an arena's boxes, in arena order. */
  function ArenaNodes(boxes: seq<LayoutBox>): seq<NodeId> {
    if boxes == [] then [] else ArenaNodes(boxes[..|boxes| - 1]) + NodeOf(boxes[|boxes| - 1])
  }

  lemma ArenaNodesPush(boxes: seq<LayoutBox>, box: LayoutBox)
    ensures ArenaNodes(boxes + [box]) == ArenaNodes(boxes) + NodeOf(box)
  {
    assert (boxes + [box])[..|boxes|] == boxes;
  }

  lemma {:induction false} WrapRunsNodes(doc: StyledDoc, style: LayoutStyle, boxes: seq<LayoutBox>, ids: seq<BoxId>)
    ensures ArenaNodes(WrapRuns(doc, style, boxes, ids).boxes) == ArenaNodes(boxes)
    decreases |ids|
  {
    if ids != [] {
      if BlockAt(boxes, ids[0]) {
        WrapRunsNodes(doc, style, boxes, ids[1..]);
      } else {
        var n := InlinePrefix(boxes, ids);
        ArenaNodesPush(boxes, AnonymousBox(style, ids[..n]));
        WrapRunsNodes(doc, style, FlushRun(doc, style, boxes, ids[..n]).boxes, ids[n..]);
      }
    }
  }

  lemma CloseNodes(doc: StyledDoc, f: Frame, boxes: seq<LayoutBox>)
    ensures ArenaNodes(CloseFrame(doc, f, boxes).boxes) == ArenaNodes(boxes) + [f.node]
  {
    hide WrapRuns, ArenaNodes, FinalKind, BlockAt;
    var style := FinalStyle(f, boxes);
    var wrapped := WrapMixed(doc, style, boxes, f.built);
    WrapRunsNodes(doc, style, boxes, f.built);
    ArenaNodesPush(wrapped.boxes, LayoutBox(Some(f.node), FinalKind(f, boxes), style, wrapped.ids));
  }

  /** Each displayed node gets exactly one box, children's boxes before their container's. */
  lemma {:induction false} BoxNodes(doc: StyledDoc, node: NodeId, style: LayoutStyle, isInline: bool,
                                    boxes: seq<LayoutBox>)
    requires DocWellFormed(doc) && node < |doc.kids|
    ensures ArenaNodes(GenBox(doc, node, style, isInline, boxes).boxes)
            == ArenaNodes(boxes) + ShownPost(doc, node, 0) + [node]
    decreases Depth(doc, node), 1, 0
  {
    hide DocWellFormed, ArenaNodes, CloseFrame;
    var f := OpenFrame(doc, node, style, isInline);
    ChildrenNodes(doc, f, boxes);
    var done := GenChildren(doc, f, boxes);
    CloseNodes(doc, done.frame, done.boxes);
  }

  /** The displayed nodes at and below one child. */
  ghost function ShownAt(doc: StyledDoc, c: NodeId): seq<NodeId>
    requires DocWellFormed(doc) && c < |doc.kids|
  {
    match RoleOf(doc, c)
    case Skip => []
    case Leaf(_, _) => [c]
    case Container(_, _) => ShownPost(doc, c, 0) + [c]
  }

  lemma ShownPostStep(doc: StyledDoc, node: NodeId, k: nat)
    requires DocWellFormed(doc) && node < |doc.kids| && k < |doc.kids[node]|
    ensures doc.kids[node][k] < |doc.kids|
    ensures ShownPost(doc, node, k) == ShownAt(doc, doc.kids[node][k]) + ShownPost(doc, node, k + 1)
  {
    hide DocWellFormed, RoleOf;
    assert doc.kids[node][k] in doc.kids[node];
    var d := Depth(doc, node);
  }

  lemma ShownPostEnd(doc: StyledDoc, node: NodeId, k: nat)
    requires DocWellFormed(doc) && node < |doc.kids| && k >= |doc.kids[node]|
    ensures ShownPost(doc, node, k) == []
  {
  }

  lemma {:induction false} ChildrenNodes(doc: StyledDoc, f: Frame, boxes: seq<LayoutBox>)
    requires DocWellFormed(doc) && FrameOk(doc, f)
    ensures var r := GenChildren(doc, f, boxes);
            ArenaNodes(r.boxes) == ArenaNodes(boxes) + ShownPost(doc, f.node, f.nextChild) && r.frame.node == f.node
    decreases Depth(doc, f.node), 0, |f.children| - f.nextChild
  {
    hide DocWellFormed, ArenaNodes, Classify, GenBox, ShownPost, RoleOf;
    if f.nextChild >= |f.children| {
      ShownPostEnd(doc, f.node, f.nextChild);
    } else {
      var c := f.children[f.nextChild];
      assert c in doc.kids[f.node];
      ShownPostStep(doc, f.node, f.nextChild);
      RoleIgnoresStyle(doc, c, f.style);
      var rest := ShownPost(doc, f.node, f.nextChild + 1);
      match Classify(doc, c, f.style) {
        case Skip =>
          ChildrenNodes(doc, Deeper(f, []), boxes);
          assert ShownPost(doc, f.node, f.nextChild) == [] + rest;
        case Leaf(kind, style) =>
          var leaf := LayoutBox(Some(c), kind, style, []);
          ArenaNodesPush(boxes, leaf);
          ChildrenNodes(doc, Deeper(f, [|boxes|]), boxes + [leaf]);
          RegroupLeaf(ArenaNodes(boxes), c, rest);
        case Container(isInline, style) =>
          BoxNodes(doc, c, style, isInline, boxes);
          var g := GenBox(doc, c, style, isInline, boxes);
          ChildrenNodes(doc, Deeper(f, [g.id]), g.boxes);
          RegroupContainer(ArenaNodes(boxes), ShownPost(doc, c, 0), c, rest);
      }
    }
  }

  lemma RegroupLeaf(a: seq<NodeId>, c: NodeId, rest: seq<NodeId>)
    ensures (a + [c]) + rest == a + ([c] + rest)
  {
  }

  lemma RegroupContainer(a: seq<NodeId>, p: seq<NodeId>, c: NodeId, rest: seq<NodeId>)
    ensures (a + p + [c]) + rest == a + ((p + [c]) + rest)
  {
  }
}
