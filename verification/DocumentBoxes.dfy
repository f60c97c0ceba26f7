/**
 * Generated boxes against the document itself: which nodes have a box, judged along the
 * path from the root, and of which kind and style each box is. Only node kinds, computed
 * styles and child lists are mentioned.
 */
module DocumentBoxes {
  import opened Wrappers
  import opened Geometry
  import opened Styles
  import opened BoxTrees
  import opened Dom
  import opened BoxGeneration
  import opened BoxTreeShape
  import opened BoxTreeOrder
  import Forest
  import Traverse

  // ----- which nodes have a box -----

  /** Every node of the path below its first is shown, and every one in between holds its children. */
  predicate ShownAlong(doc: StyledDoc, path: seq<NodeId>) {
    && (forall i :: 0 < i < |path| ==> Shows(doc, path[i]))
    && (forall i :: 0 < i < |path| - 1 ==> Holds(doc, path[i]))
  }

  lemma PathTail(doc: StyledDoc, path: seq<NodeId>)
    requires DocWellFormed(doc) && Forest.IsPath(doc.kids, path) && |path| > 1
    ensures var tail := path[1..];
            && Forest.IsPath(doc.kids, tail) && path[1] in doc.kids[path[0]] && path[1] < |doc.kids|
            && path[|path| - 1] < |doc.kids|
            && Forest.AncestorOrSelf(doc.kids, path[1], path[|path| - 1])
            && (|path| > 2 ==> path[1] != path[|path| - 1])
            && Depth(doc, path[1]) < Depth(doc, path[0])
  {
    hide Forest.Lists, Traverse.SomeRank;
    var tail := path[1..];
    assert Forest.IsPath(doc.kids, tail) && tail[0] == path[1] && tail[|tail| - 1] == path[|path| - 1];
    var d := Depth(doc, path[0]);
    if |path| > 2 {
      Forest.RankAlong(doc.kids, Traverse.SomeRank(doc.kids), tail, |tail| - 1);
    }
  }

  lemma ShownTail(doc: StyledDoc, path: seq<NodeId>)
    requires |path| > 1
    ensures ShownAlong(doc, path)
            <==> Shows(doc, path[1]) && (|path| > 2 ==> Holds(doc, path[1]) && ShownAlong(doc, path[1..]))
  {
    hide Shows, Holds;
    var tail := path[1..];
    if ShownAlong(doc, path) {
      forall i | 0 < i < |tail| ensures Shows(doc, tail[i]) && (i < |tail| - 1 ==> Holds(doc, tail[i])) {
        assert tail[i] == path[i + 1];
      }
    }
    if Shows(doc, path[1]) && (|path| > 2 ==> Holds(doc, path[1]) && ShownAlong(doc, tail)) {
      forall i | 0 < i < |path| ensures Shows(doc, path[i]) && (i < |path| - 1 ==> Holds(doc, path[i])) {
        assert i > 1 ==> path[i] == tail[i - 1];
      }
    }
  }

  /** A node displayed below the first node of its path is displayed below the second. */
  lemma BranchOfPath(doc: StyledDoc, path: seq<NodeId>)
    requires DocWellFormed(doc) && Forest.IsPath(doc.kids, path) && |path| > 1
    ensures path[1] < |doc.kids|
    ensures path[|path| - 1] in ShownPre(doc, path[0], 0) <==> path[|path| - 1] in ShownPreAt(doc, path[1])
  {
    hide Forest.Lists, ShownPre, ShownPreAt, Forest.AncestorOrSelf, Traverse.SomeRank;
    var p, c, t := path[0], path[1], path[|path| - 1];
    PathTail(doc, path);
    ShownMembers(doc, p, 0, t);
    var j :| 0 <= j < |doc.kids[p]| && doc.kids[p][j] == c;
    if t in ShownPre(doc, p, 0) {
      var i :| 0 <= i < |doc.kids[p]| && t in ShownPreAt(doc, doc.kids[p][i]);
      ShownBelow(doc, doc.kids[p][i], t);
      Traverse.SiblingsDisjoint(doc.kids, Traverse.SomeRank(doc.kids), p, i, j, t);
    }
  }

  /** Along any path down the document, the last node is displayed below the first exactly when the path is shown. */
  lemma {:induction false} DisplayedAlong(doc: StyledDoc, path: seq<NodeId>)
    requires DocWellFormed(doc) && Forest.IsPath(doc.kids, path) && |path| > 1
    ensures path[|path| - 1] in ShownPre(doc, path[0], 0) <==> ShownAlong(doc, path)
    decreases |path|
  {
    hide DocWellFormed, ShownPre, ShownPreAt, ShownAlong, Forest.AncestorOrSelf, Forest.IsPath, Shows, Holds;
    var c, t := path[1], path[|path| - 1];
    PathTail(doc, path);
    BranchOfPath(doc, path);
    ShownTail(doc, path);
    if |path| > 2 {
      DisplayedAlong(doc, path[1..]);
    }
    PreAtMeaning(doc, c, t);
  }

  lemma PreAtMeaning(doc: StyledDoc, c: NodeId, t: NodeId)
    requires DocWellFormed(doc) && c < |doc.kids|
    ensures t in ShownPreAt(doc, c)
            <==> Shows(doc, c) && (t == c || (Holds(doc, c) && t in ShownPre(doc, c, 0)))
  {
    hide DocWellFormed, ShownPre;
  }

  /** Whatever is displayed below a node is at the end of a path from it. */
  lemma {:induction false} DisplayedIsReached(doc: StyledDoc, p: NodeId, t: NodeId) returns (path: seq<NodeId>)
    requires DocWellFormed(doc) && p < |doc.kids| && t in ShownPre(doc, p, 0)
    ensures Forest.IsPath(doc.kids, path) && |path| > 1 && path[0] == p && path[|path| - 1] == t
    decreases Depth(doc, p)
  {
    hide Forest.WellFormed, ShownPre, ShownPreAt, RoleOf;
    ShownMembers(doc, p, 0, t);
    var i :| 0 <= i < |doc.kids[p]| && t in ShownPreAt(doc, doc.kids[p][i]);
    var c := doc.kids[p][i];
    assert c in doc.kids[p];
    var d := Depth(doc, p);
    PreAtMeaning(doc, c, t);
    if t == c {
      path := [p, c];
    } else {
      var rest := DisplayedIsReached(doc, c, t);
      path := [p] + rest;
    }
  }

  // ----- the root -----

  /** The document element: the first element among the document's children. */
  predicate IsDocumentElement(doc: StyledDoc, list: seq<NodeId>, root: NodeId) {
    exists i :: 0 <= i < |list| && list[i] == root && IsElement(doc, list[i])
                && forall j :: 0 <= j < i ==> !IsElement(doc, list[j])
  }

  predicate IsElement(doc: StyledDoc, c: NodeId) {
    c < |doc.kinds| && doc.kinds[c].Element?
  }

  lemma {:induction false} RootIsFirstElement(doc: StyledDoc, list: seq<NodeId>)
    ensures var r := RootElement(doc, list);
            if r.Some? then IsDocumentElement(doc, list, r.value)
            else forall i :: 0 <= i < |list| ==> !IsElement(doc, list[i])
  {
    if list != [] {
      RootIsFirstElement(doc, list[1..]);
      var r := RootElement(doc, list[1..]);
      if !IsElement(doc, list[0]) && r.Some? {
        var i :| 0 <= i < |list[1..]| && list[1..][i] == r.value && IsElement(doc, list[1..][i])
                 && forall j :: 0 <= j < i ==> !IsElement(doc, list[1..][j]);
        forall j | 0 <= j < i + 1 ensures !IsElement(doc, list[j]) {
          assert j > 0 ==> list[j] == list[1..][j - 1];
        }
        assert list[i + 1] == r.value;
      }
    }
  }

  /** A document element that is not hidden: there is a page. */
  predicate HasPage(doc: StyledDoc, root: NodeId) {
    root < |doc.computed| && (doc.computed[root].Some? ==> doc.computed[root].value.display != Display.Hide)
  }

  /**
   * Which nodes have a box. Without a shown document element there is only the empty
   * tree. With one, the nodes with a box are the root and, below it, exactly those that
   * are shown with every node between them and the root, none of these between a text
   * or a line break; a path leads to each.
   */
  lemma BoxedExactly(doc: StyledDoc)
    requires DocWellFormed(doc)
    ensures var root := RootElement(doc, doc.kids[Forest.ROOT]);
            root.Some? ==> IsDocumentElement(doc, doc.kids[Forest.ROOT], root.value)
    ensures var root := RootElement(doc, doc.kids[Forest.ROOT]);
            if root.None? || !HasPage(doc, root.value) then GenTree(doc) == EMPTY_TREE
            else
              var nodes := ArenaNodes(GenTree(doc).boxes);
              && root.value in nodes
              && (forall path :: Forest.IsPath(doc.kids, path) && |path| > 1 && path[0] == root.value ==>
                    (path[|path| - 1] in nodes <==> ShownAlong(doc, path)))
              && (forall t :: t in nodes ==> Forest.AncestorOrSelf(doc.kids, root.value, t))
  {
    hide Forest.Lists, Forest.Acyclic, ShownPre, ShownAlong, GenBox, Forest.IsPath, ArenaNodes,
         Forest.AncestorOrSelf, IsDocumentElement, IsElement, HasNode;
    var r := RootElement(doc, doc.kids[Forest.ROOT]);
    RootIsFirstElement(doc, doc.kids[Forest.ROOT]);
    if r.Some? && HasPage(doc, r.value) {
      PageIsNotEmpty(doc);
      PageNodes(doc);
      forall path | Forest.IsPath(doc.kids, path) && |path| > 1 && path[0] == r.value
        ensures path[|path| - 1] in ArenaNodes(GenTree(doc).boxes) <==> ShownAlong(doc, path)
      {
        PathBoxed(doc, path);
      }
      forall t | t in ArenaNodes(GenTree(doc).boxes) ensures Forest.AncestorOrSelf(doc.kids, r.value, t) {
        BoxedBelow(doc, t);
      }
    }
  }

  /** The nodes with a box, as the recursion lists them. */
  ghost predicate HasNode(doc: StyledDoc, root: NodeId, t: NodeId)
    requires DocWellFormed(doc) && root < |doc.kids|
  {
    t == root || t in ShownPre(doc, root, 0)
  }

  lemma PageNodes(doc: StyledDoc)
    requires DocWellFormed(doc) && GenTree(doc) != EMPTY_TREE
    ensures RootElement(doc, doc.kids[Forest.ROOT]).Some? && RootElement(doc, doc.kids[Forest.ROOT]).value < |doc.kids|
    ensures RootElement(doc, doc.kids[Forest.ROOT]).value in ArenaNodes(GenTree(doc).boxes)
    ensures forall t :: t in ArenaNodes(GenTree(doc).boxes)
                        <==> HasNode(doc, RootElement(doc, doc.kids[Forest.ROOT]).value, t)
  {
    hide Forest.Lists, Forest.Acyclic, ShownPre, ShownPost, GenBox, ArenaNodes, Kept, TreeNodes, BoxTrees.WellFormed,
         Forest.Distinct;
    BoxesFollowDocument(doc);
  }

  lemma PathBoxed(doc: StyledDoc, path: seq<NodeId>)
    requires DocWellFormed(doc) && GenTree(doc) != EMPTY_TREE && Forest.IsPath(doc.kids, path) && |path| > 1
    requires Some(path[0]) == RootElement(doc, doc.kids[Forest.ROOT])
    ensures path[|path| - 1] in ArenaNodes(GenTree(doc).boxes) <==> ShownAlong(doc, path)
  {
    hide DocWellFormed, ShownPre, ShownAlong, GenTree, ArenaNodes, Forest.IsPath;
    PageNodes(doc);
    DisplayedAlong(doc, path);
    NotItsOwnEnd(doc, path);
  }

  lemma BoxedBelow(doc: StyledDoc, t: NodeId)
    requires DocWellFormed(doc) && GenTree(doc) != EMPTY_TREE && t in ArenaNodes(GenTree(doc).boxes)
    ensures RootElement(doc, doc.kids[Forest.ROOT]).Some?
    ensures Forest.AncestorOrSelf(doc.kids, RootElement(doc, doc.kids[Forest.ROOT]).value, t)
  {
    hide DocWellFormed, ShownPre, GenTree, ArenaNodes, Forest.IsPath, Forest.AncestorOrSelf;
    PageNodes(doc);
    var root := RootElement(doc, doc.kids[Forest.ROOT]).value;
    if t == root {
      Forest.SelfPath(doc.kids, t);
    } else {
      var path := DisplayedIsReached(doc, root, t);
      PathJoins(doc, path);
    }
  }

  lemma PathJoins(doc: StyledDoc, path: seq<NodeId>)
    requires Forest.IsPath(doc.kids, path)
    ensures Forest.AncestorOrSelf(doc.kids, path[0], path[|path| - 1])
  {
  }

  lemma NotItsOwnEnd(doc: StyledDoc, path: seq<NodeId>)
    requires DocWellFormed(doc) && Forest.IsPath(doc.kids, path) && |path| > 1
    ensures path[|path| - 1] != path[0]
  {
    hide Forest.Lists, Traverse.SomeRank;
    Forest.RankAlong(doc.kids, Traverse.SomeRank(doc.kids), path, |path| - 1);
  }

  lemma PageIsNotEmpty(doc: StyledDoc)
    requires DocWellFormed(doc) && RootElement(doc, doc.kids[Forest.ROOT]).Some?
    requires HasPage(doc, RootElement(doc, doc.kids[Forest.ROOT]).value)
    ensures GenTree(doc) != EMPTY_TREE
  {
    hide Forest.Lists, Forest.Acyclic, GenBox, ShownPost;
    var root := RootElement(doc, doc.kids[Forest.ROOT]).value;
    var style := RootStyle(doc, root);
    BoxNodes(doc, root, style, style.display.Inline?, []);
    NoNodesInEmpty();
  }

  lemma NoNodesInEmpty()
    ensures ArenaNodes(EMPTY_TREE.boxes) == []
  {
    ArenaNodesPush([], EMPTY_TREE.boxes[0]);
  }

  // ----- which kind and style each box has -----

  /** A style with nothing of its own: no edges, no sizes, no background, in place. */
  predicate Plain(style: LayoutStyle) {
    && style.margin == Sides(Px(0), Px(0), Px(0), Px(0)) && style.padding == style.margin
    && style.borderWidth == Sides(0, 0, 0, 0) && style.borderSolid == Sides(false, false, false, false)
    && style.width == Auto && style.height == Auto && style.minWidth == Auto && style.minHeight == Auto
    && style.maxWidth.None? && style.maxHeight.None? && style.overflow == Visible && style.position == Static
    && style.background == TRANSPARENT && style.offset == Sides(Auto, Auto, Auto, Auto)
  }

  /** Text and anonymous blocks take over the inherited properties and have no others of their own. */
  lemma InheritOnly(parent: LayoutStyle)
    ensures var text, block := InheritedTextStyle(parent), AnonymousBlockStyle(parent);
            && Plain(text) && Plain(block) && text.display == Display.Inline && block.display == Display.Block
            && text.whiteSpace == block.whiteSpace == parent.whiteSpace
            && text.inherited == block.inherited == parent.inherited
  {
  }

  /** A container becomes block-level by its own display, or by a shown child that does. */
  ghost predicate HasBlockInside(doc: StyledDoc, t: NodeId)
    requires DocWellFormed(doc) && t < |doc.kids|
  {
    exists k :: k in doc.kids[t] && k < |doc.kids| && IsBlockNode(doc, k)
  }

  /** `IsBlockNode` in the document's terms. */
  lemma BlockNodeMeaning(doc: StyledDoc, c: NodeId)
    requires DocWellFormed(doc) && c < |doc.kids|
    ensures IsBlockNode(doc, c)
            <==> Holds(doc, c) && (doc.computed[c].value.display == Display.Block || HasBlockInside(doc, c))
  {
    hide Forest.WellFormed;
    KidsAreNodes(doc, c);
  }

  /** What the box of node `t` has to be. */
  ghost predicate MatchesNode(doc: StyledDoc, root: NodeId, box: LayoutBox, t: NodeId)
    requires DocWellFormed(doc) && t < |doc.kids|
  {
    var own := RootStyle(doc, t);
    if doc.kinds[t].Text? then
      && box.kind == InlineText(t) && box.children == []
      && exists p :: 0 <= p < |doc.kids| && t in doc.kids[p] && box.style == InheritedTextStyle(RootStyle(doc, p))
    else if doc.kinds[t] == Element("br") && t != root then
      box.kind == LineBreak && box.style == own && box.children == []
    else if own.display == Display.Block || HasBlockInside(doc, t) then
      box.kind == BoxKind.Block && box.style == own.(display := Display.Block)
    else
      box.kind == BoxKind.Inline && box.style == own
  }

  /** Anonymous blocks stand for whole runs: never two side by side, and only where a block of a node is among them. */
  ghost predicate RunsApart(boxes: seq<LayoutBox>, ids: seq<BoxId>)
    requires forall i :: 0 <= i < |ids| ==> ids[i] < |boxes|
  {
    && (forall i :: 0 < i < |ids| ==> boxes[ids[i - 1]].node.Some? || boxes[ids[i]].node.Some?)
    && ((exists i :: 0 <= i < |ids| && boxes[ids[i]].node.None?) ==>
          exists i :: 0 <= i < |ids| && boxes[ids[i]].node.Some? && BlockAt(boxes, ids[i]))
  }

  /** Every box of a node is as the document asks, and every other is an anonymous block in its parent's stead. */
  ghost predicate AllMatch(doc: StyledDoc, root: NodeId, boxes: seq<LayoutBox>)
    requires DocWellFormed(doc)
  {
    && (forall b :: 0 <= b < |boxes| && boxes[b].node.Some? ==>
          boxes[b].node.value < |doc.kids| && MatchesNode(doc, root, boxes[b], boxes[b].node.value))
    && (forall b :: 0 <= b < |boxes| && boxes[b].node.None? ==> boxes[b].kind == BoxKind.AnonymousBlock)
    && (forall q, i :: 0 <= q < |boxes| && 0 <= i < |boxes[q].children| ==>
          && boxes[q].children[i] < |boxes|
          && (boxes[boxes[q].children[i]].node.None? ==>
                boxes[boxes[q].children[i]].style == AnonymousBlockStyle(boxes[q].style)))
    && (forall q :: 0 <= q < |boxes| ==> RunsApart(boxes, boxes[q].children))
  }

  /** Boxes that stand for nodes, all of them in the arena. */
  predicate Named(boxes: seq<LayoutBox>, ids: seq<BoxId>) {
    forall i :: 0 <= i < |ids| ==> ids[i] < |boxes| && boxes[ids[i]].node.Some?
  }

  /** Every id is one of `old`, or a box after `n` made for `style`. */
  predicate OldOrAnonymous(boxes: seq<LayoutBox>, n: nat, style: LayoutStyle, ids: seq<BoxId>) {
    forall i :: 0 <= i < |ids| ==>
      && ids[i] < |boxes|
      && (boxes[ids[i]].node.Some? || (n <= ids[i] && boxes[ids[i]].style == AnonymousBlockStyle(style)))
  }

  lemma AddBox(doc: StyledDoc, root: NodeId, boxes: seq<LayoutBox>, box: LayoutBox)
    requires DocWellFormed(doc) && AllMatch(doc, root, boxes)
    requires box.node.Some? ==> box.node.value < |doc.kids| && MatchesNode(doc, root, box, box.node.value)
    requires box.node.None? ==> box.kind == BoxKind.AnonymousBlock
    requires OldOrAnonymous(boxes, 0, box.style, box.children) && RunsApart(boxes, box.children)
    ensures AllMatch(doc, root, boxes + [box])
  {
    hide DocWellFormed, MatchesNode, RunsApart;
    var after := boxes + [box];
    forall q | 0 <= q < |after| ensures RunsApart(after, after[q].children) {
      ApartKept(boxes, after, after[q].children);
    }
  }

  lemma ApartKept(boxes: seq<LayoutBox>, after: seq<LayoutBox>, ids: seq<BoxId>)
    requires boxes <= after && (forall i :: 0 <= i < |ids| ==> ids[i] < |boxes|) && RunsApart(boxes, ids)
    ensures RunsApart(after, ids)
  {
    if i :| 0 <= i < |ids| && boxes[ids[i]].node.Some? && BlockAt(boxes, ids[i]) {
      assert after[ids[i]].node.Some? && BlockAt(after, ids[i]);
    }
  }

  lemma NamedApart(boxes: seq<LayoutBox>, ids: seq<BoxId>)
    requires Named(boxes, ids)
    ensures RunsApart(boxes, ids)
  {
  }

  /** The wrapped list of children: a block it starts with, or any later one, stays; runs between them do not touch. */
  lemma {:induction false} WrappedApart(doc: StyledDoc, style: LayoutStyle, boxes: seq<LayoutBox>, ids: seq<BoxId>)
    requires Named(boxes, ids)
    ensures var r := WrapRuns(doc, style, boxes, ids);
            && boxes <= r.boxes && (forall i :: 0 <= i < |r.ids| ==> r.ids[i] < |r.boxes|)
            && (forall i :: 0 < i < |r.ids| ==> r.boxes[r.ids[i - 1]].node.Some? || r.boxes[r.ids[i]].node.Some?)
            && (ids != [] && BlockAt(boxes, ids[0]) ==> r.ids != [] && r.ids[0] == ids[0])
            && (forall i :: 0 <= i < |ids| && BlockAt(boxes, ids[i]) ==> ids[i] in r.ids)
    decreases |ids|
  {
    hide BlankRun, BlockAt;
    if ids != [] {
      if BlockAt(boxes, ids[0]) {
        WrappedApart(doc, style, boxes, ids[1..]);
        forall i | 0 <= i < |ids| && BlockAt(boxes, ids[i]) ensures ids[i] in WrapRuns(doc, style, boxes, ids).ids {
          assert i > 0 ==> ids[i] == ids[1..][i - 1];
        }
      } else {
        var n := InlinePrefix(boxes, ids);
        var flushed := FlushRun(doc, style, boxes, ids[..n]);
        BlockKept(boxes, flushed.boxes, ids);
        WrappedApart(doc, style, flushed.boxes, ids[n..]);
        forall i | 0 <= i < |ids| && BlockAt(boxes, ids[i]) ensures ids[i] in WrapRuns(doc, style, boxes, ids).ids {
          assert n <= i && ids[i] == ids[n..][i - n];
        }
      }
    }
  }

  lemma BlockKept(boxes: seq<LayoutBox>, after: seq<LayoutBox>, ids: seq<BoxId>)
    requires boxes <= after && Named(boxes, ids)
    ensures Named(after, ids) && forall i :: 0 <= i < |ids| ==> BlockAt(after, ids[i]) == BlockAt(boxes, ids[i])
  {
  }

  lemma MixedApart(doc: StyledDoc, style: LayoutStyle, boxes: seq<LayoutBox>, ids: seq<BoxId>)
    requires Named(boxes, ids)
    ensures var r := WrapMixed(doc, style, boxes, ids);
            (forall i :: 0 <= i < |r.ids| ==> r.ids[i] < |r.boxes|) && RunsApart(r.boxes, r.ids)
  {
    hide BlankRun, BlockAt, WrapRuns;
    NamedApart(boxes, ids);
    WrappedApart(doc, style, boxes, ids);
    if HasBlock(boxes, ids) {
      var i :| 0 <= i < |ids| && BlockAt(boxes, ids[i]);
      var r := WrapRuns(doc, style, boxes, ids);
      BlockKept(boxes, r.boxes, ids);
      assert ids[i] in r.ids;
    }
  }

  lemma {:induction false} RunsMatch(doc: StyledDoc, root: NodeId, style: LayoutStyle, boxes: seq<LayoutBox>,
                                     ids: seq<BoxId>)
    requires DocWellFormed(doc) && AllMatch(doc, root, boxes) && Named(boxes, ids)
    ensures var r := WrapRuns(doc, style, boxes, ids);
            && AllMatch(doc, root, r.boxes) && boxes <= r.boxes && OldOrAnonymous(r.boxes, |boxes|, style, r.ids)
    decreases |ids|
  {
    hide DocWellFormed, AllMatch, BlankRun, BlockAt, RunsApart;
    if ids != [] {
      if BlockAt(boxes, ids[0]) {
        RunsMatch(doc, root, style, boxes, ids[1..]);
      } else {
        var n := InlinePrefix(boxes, ids);
        var flushed := FlushRun(doc, style, boxes, ids[..n]);
        if flushed.ids != [] {
          NamedApart(boxes, ids[..n]);
          AddBox(doc, root, boxes, AnonymousBox(style, ids[..n]));
        }
        RunsMatch(doc, root, style, flushed.boxes, ids[n..]);
      }
    }
  }

  /** Closing a container over finished children. */
  lemma CloseMatches(doc: StyledDoc, root: NodeId, f: Frame, boxes: seq<LayoutBox>)
    requires DocWellFormed(doc) && FrameOk(doc, f) && AllMatch(doc, root, boxes) && Named(boxes, f.built)
    requires f.style == RootStyle(doc, f.node) && doc.kinds[f.node].Element?
    requires doc.kinds[f.node].name != "br" || f.node == root
    requires f.isInline <==> f.style.display == Display.Inline
    requires f.style.display != Display.Hide
    requires HasBlock(boxes, f.built) <==> HasBlockInside(doc, f.node)
    ensures var g := CloseFrame(doc, f, boxes); AllMatch(doc, root, g.boxes) && Named(g.boxes, [g.id])
  {
    hide DocWellFormed, AllMatch, WrapRuns, HasBlock, HasInline, HasBlockInside, RunsApart;
    var style := FinalStyle(f, boxes);
    RunsMatch(doc, root, style, boxes, f.built);
    var wrapped := WrapMixed(doc, style, boxes, f.built);
    var box := LayoutBox(Some(f.node), FinalKind(f, boxes), style, wrapped.ids);
    MixedApart(doc, style, boxes, f.built);
    assert OldOrAnonymous(wrapped.boxes, 0, style, wrapped.ids);
    assert MatchesNode(doc, root, box, f.node);
    AddBox(doc, root, wrapped.boxes, box);
  }

  /** What one child's box is, from what it is classified as. */
  lemma LeafMatches(doc: StyledDoc, root: NodeId, p: NodeId, c: NodeId)
    requires DocWellFormed(doc) && p < |doc.kids| && c in doc.kids[p] && c < |doc.kids| && c != root
    requires Classify(doc, c, RootStyle(doc, p)).Leaf?
    ensures var leaf := Classify(doc, c, RootStyle(doc, p));
            MatchesNode(doc, root, LayoutBox(Some(c), leaf.kind, leaf.style, []), c)
  {
    hide Forest.WellFormed, InheritedTextStyle, HasBlockInside;
  }

  lemma ContainerFacts(doc: StyledDoc, c: NodeId, parent: LayoutStyle)
    requires DocWellFormed(doc) && Classify(doc, c, parent).Container?
    ensures var child := Classify(doc, c, parent);
            && c < |doc.kids| && child.style == RootStyle(doc, c) && doc.kinds[c].Element? && doc.kinds[c].name != "br"
            && (child.isInline <==> child.style.display == Display.Inline) && child.style.display != Display.Hide
  {
    hide Forest.WellFormed;
  }

  lemma {:induction false} BoxMatches(doc: StyledDoc, root: NodeId, node: NodeId, style: LayoutStyle, isInline: bool,
                                      boxes: seq<LayoutBox>)
    requires DocWellFormed(doc) && node < |doc.kids| && Sound(boxes) && AllMatch(doc, root, boxes)
    requires style == RootStyle(doc, node) && doc.kinds[node].Element? && style.display != Display.Hide
    requires doc.kinds[node].name != "br" || node == root
    requires isInline <==> style.display == Display.Inline
    requires !BelowFrom(doc, node, 0, root)
    ensures var g := GenBox(doc, node, style, isInline, boxes);
            AllMatch(doc, root, g.boxes) && Named(g.boxes, [g.id])
    decreases Depth(doc, node), 1, 0
  {
    hide DocWellFormed, Sound, SelfContained, Waiting, Free, CloseFrame, KindHolds, AllMatch, Aligned, BelowFrom,
         IsBlockNode;
    var f := OpenFrame(doc, node, style, isInline);
    StartsSound(boxes);
    BelowSound(boxes, [], |boxes|);
    NothingAligned(doc, boxes, style.whiteSpace);
    assert f.children[..0] == [];
    ChildrenOrder(doc, f, boxes, |boxes|);
    ChildrenMatch(doc, root, f, boxes, |boxes|);
    var done := GenChildren(doc, f, boxes);
    AlignedIds(doc, done.boxes, done.frame.built, Displayed(doc, doc.kids[node]), style.whiteSpace);
    BlocksDisplayed(doc, node);
    CloseMatches(doc, root, done.frame, done.boxes);
  }

  lemma {:induction false} ChildrenMatch(doc: StyledDoc, root: NodeId, f: Frame, boxes: seq<LayoutBox>, base: nat)
    requires DocWellFormed(doc) && FrameOk(doc, f) && FrameSound(doc, f, boxes, base) && AllMatch(doc, root, boxes)
    requires Named(boxes, f.built) && f.style == RootStyle(doc, f.node) && !BelowFrom(doc, f.node, f.nextChild, root)
    ensures var r := GenChildren(doc, f, boxes);
            && AllMatch(doc, root, r.boxes) && Named(r.boxes, r.frame.built) && boxes <= r.boxes
    decreases Depth(doc, f.node), 0, |f.children| - f.nextChild
  {
    hide DocWellFormed, KindHolds, GenBox, FrameSound, Sound, Classify, AllMatch, BelowFrom, RootStyle;
    if f.nextChild < |f.children| {
      var c := f.children[f.nextChild];
      assert c in doc.kids[f.node];
      ChildInRange(doc, f);
      BelowStep(doc, f.node, f.nextChild, root);
      match Classify(doc, c, f.style) {
        case Skip =>
          SkipSound(doc, f, boxes, base);
          assert f.built + [] == f.built;
          ChildrenMatch(doc, root, Deeper(f, []), boxes, base);
        case Leaf(kind, style) =>
          var leaf := LayoutBox(Some(c), kind, style, []);
          ClassifiedLeaf(doc, c, f.style);
          LeafSound(doc, f, boxes, base, leaf);
          LeafMatches(doc, root, f.node, c);
          NamedApart(boxes, []);
          AddBox(doc, root, boxes, leaf);
          ChildrenMatch(doc, root, Deeper(f, [|boxes|]), boxes + [leaf], base);
        case Container(isInline, style) =>
          FrameParts(doc, f, boxes, base);
          ClassifiedContainer(doc, c, f.style);
          ContainerFacts(doc, c, f.style);
          BoxSound(doc, c, style, isInline, boxes);
          BoxMatches(doc, root, c, style, isInline, boxes);
          var g := GenBox(doc, c, style, isInline, boxes);
          NestedSound(doc, f, boxes, base, g);
          ChildrenMatch(doc, root, Deeper(f, [g.id]), g.boxes, base);
      }
    }
  }

  /**
   * Every box of a page is of the kind and style its node asks for: text inherits from the
   * element it lies in, a line break and a container carry their own computed style, and a
   * container is a block by its display or by a block inside it. All others are anonymous
   * blocks that inherit from the box they lie in.
   */
  lemma BoxesMatchDocument(doc: StyledDoc)
    requires DocWellFormed(doc) && GenTree(doc) != EMPTY_TREE
    ensures AllMatch(doc, RootElement(doc, doc.kids[Forest.ROOT]).value, GenTree(doc).boxes)
  {
    hide Forest.Lists, Forest.Acyclic, GenBox, Sound, AllMatch, BelowFrom;
    var root := RootElement(doc, doc.kids[Forest.ROOT]).value;
    RootIsFirstElement(doc, doc.kids[Forest.ROOT]);
    NoBoxes();
    assert AllMatch(doc, root, []) by { NothingMatches(doc, root); }
    RootOnce(doc, root);
    var style := RootStyle(doc, root);
    BoxMatches(doc, root, root, style, style.display.Inline?, []);
  }

  lemma NothingMatches(doc: StyledDoc, root: NodeId)
    requires DocWellFormed(doc)
    ensures AllMatch(doc, root, [])
  {
  }
}
