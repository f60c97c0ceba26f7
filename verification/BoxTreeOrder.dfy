/**
 * The order of a generated box tree: which document nodes its boxes stand for, each
 * once, in document order, and exactly which displayed nodes have no place in it.
 */
module BoxTreeOrder {
  import opened Wrappers
  import opened Styles
  import opened BoxTrees
  import opened Whitespace
  import opened Dom
  import opened BoxGeneration
  import opened BoxTreeShape
  import Forest
  import Traverse

  // ----- what the document says -----

  /** The children of a container that take part in generation, in order. */
  function Displayed(doc: StyledDoc, list: seq<NodeId>): (r: seq<NodeId>)
    ensures |r| <= |list|
    ensures forall c :: c in r <==> c in list && !RoleOf(doc, c).Skip?
  {
    if list == [] then []
    else
      var last := list[|list| - 1];
      Displayed(doc, list[..|list| - 1]) + if RoleOf(doc, last).Skip? then [] else [last]
  }

  /** A node that becomes a block-level box: a block element, or an inline one with such a child. */
  ghost predicate IsBlockNode(doc: StyledDoc, c: NodeId)
    requires DocWellFormed(doc) && c < |doc.kids|
    decreases Depth(doc, c)
  {
    RoleOf(doc, c).Container? &&
    (RoleOf(doc, c).isInline ==> exists k :: k in doc.kids[c] && IsBlockNode(doc, k))
  }

  /** Text that collapses away on its own, in a container of that white-space mode. */
  predicate BlankChild(doc: StyledDoc, c: NodeId, mode: WhiteSpace) {
    mode.Normal? && BlankNode(doc, c)
  }

  ghost predicate AllNodes(doc: StyledDoc, list: seq<NodeId>) {
    forall i :: 0 <= i < |list| ==> list[i] < |doc.kids|
  }

  /** No block-level child among the `i`-th to `j`-th: they are in one inline run. */
  ghost predicate OneRun(doc: StyledDoc, list: seq<NodeId>, i: nat, j: nat)
    requires DocWellFormed(doc) && AllNodes(doc, list) && i < |list| && j < |list|
  {
    forall k :: (i <= k <= j || j <= k <= i) ==> !IsBlockNode(doc, list[k])
  }

  ghost predicate SomeBlock(doc: StyledDoc, list: seq<NodeId>)
    requires DocWellFormed(doc) && AllNodes(doc, list)
  {
    exists i :: 0 <= i < |list| && IsBlockNode(doc, list[i])
  }

  /** The `k`-th displayed child has no place in the tree: a block is among its siblings, and its whole run is blank. */
  ghost predicate Dropped(doc: StyledDoc, list: seq<NodeId>, mode: WhiteSpace, k: nat)
    requires DocWellFormed(doc) && AllNodes(doc, list) && k < |list|
  {
    && SomeBlock(doc, list) && OneRun(doc, list, k, k)
    && forall j :: 0 <= j < |list| && OneRun(doc, list, j, k) ==> BlankChild(doc, list[j], mode)
  }

  lemma DisplayedNodes(doc: StyledDoc, p: NodeId)
    requires DocWellFormed(doc) && p < |doc.kids|
    ensures AllNodes(doc, Displayed(doc, doc.kids[p]))
    ensures forall i :: 0 <= i < |Displayed(doc, doc.kids[p])| ==>
              && Displayed(doc, doc.kids[p])[i] in doc.kids[p]
              && Depth(doc, Displayed(doc, doc.kids[p])[i]) < Depth(doc, p)
  {
    var list := Displayed(doc, doc.kids[p]);
    var d := Depth(doc, p);
    forall i | 0 <= i < |list| ensures list[i] in doc.kids[p] && list[i] < |doc.kids| && Depth(doc, list[i]) < d {
      assert list[i] in list;
    }
  }

  /** The nodes kept below `p` from its `k`-th displayed child on, in document order. */
  ghost function Kept(doc: StyledDoc, p: NodeId, mode: WhiteSpace, k: nat): seq<NodeId>
    requires DocWellFormed(doc) && p < |doc.kids|
    decreases Depth(doc, p), 0, |Displayed(doc, doc.kids[p])| - k
  {
    DisplayedNodes(doc, p);
    var list := Displayed(doc, doc.kids[p]);
    if k >= |list| then []
    else (if Dropped(doc, list, mode, k) then [] else KeptAt(doc, list[k])) + Kept(doc, p, mode, k + 1)
  }

  /** A kept node with everything kept below it. */
  ghost function KeptAt(doc: StyledDoc, c: NodeId): seq<NodeId>
    requires DocWellFormed(doc) && c < |doc.kids|
    decreases Depth(doc, c), 1, 0
  {
    [c] + if RoleOf(doc, c).Container? then Kept(doc, c, RoleOf(doc, c).style.whiteSpace, 0) else []
  }

  lemma KeptStep(doc: StyledDoc, p: NodeId, mode: WhiteSpace, k: nat)
    requires DocWellFormed(doc) && p < |doc.kids| && k < |Displayed(doc, doc.kids[p])|
    ensures var list := Displayed(doc, doc.kids[p]);
            && AllNodes(doc, list)
            && Kept(doc, p, mode, k) ==
               (if Dropped(doc, list, mode, k) then [] else KeptAt(doc, list[k])) + Kept(doc, p, mode, k + 1)
  {
    hide DocWellFormed, Dropped, KeptAt, Depth;
    DisplayedNodes(doc, p);
  }

  lemma KeptEnd(doc: StyledDoc, p: NodeId, mode: WhiteSpace, k: nat)
    requires DocWellFormed(doc) && p < |doc.kids| && k >= |Displayed(doc, doc.kids[p])|
    ensures Kept(doc, p, mode, k) == []
  {
  }

  // ----- what the tree says -----

  /** The nodes at and below box `id` in tree order. */
  function TreeNodes(boxes: seq<LayoutBox>, id: BoxId): seq<NodeId>
    requires ChildrenBelow(boxes) && id < |boxes|
    decreases id, 1, 0
  {
    NodeOf(boxes[id]) + TreeNodesFrom(boxes, id, 0)
  }

  function TreeNodesFrom(boxes: seq<LayoutBox>, id: BoxId, k: nat): seq<NodeId>
    requires ChildrenBelow(boxes) && id < |boxes|
    decreases id, 0, |boxes[id].children| - k
  {
    if k >= |boxes[id].children| then []
    else TreeNodes(boxes, boxes[id].children[k]) + TreeNodesFrom(boxes, id, k + 1)
  }

  /** The nodes at and below a list of boxes, in order. */
  function ListNodes(boxes: seq<LayoutBox>, ids: seq<BoxId>): seq<NodeId>
    requires ChildrenBelow(boxes) && forall i :: 0 <= i < |ids| ==> ids[i] < |boxes|
  {
    if ids == [] then [] else TreeNodes(boxes, ids[0]) + ListNodes(boxes, ids[1..])
  }

  /** A text node of nothing but collapsible characters. */
  predicate BlankNode(doc: StyledDoc, node: NodeId) {
    node < |doc.kinds| && doc.kinds[node].Text? && AllCollapsible(doc.kinds[node].text)
  }

  lemma {:induction false} TreeKept(boxes: seq<LayoutBox>, after: seq<LayoutBox>, id: BoxId)
    requires ChildrenBelow(boxes) && ChildrenBelow(after) && boxes <= after && id < |boxes|
    ensures TreeNodes(after, id) == TreeNodes(boxes, id)
    decreases id, 1, 0
  {
    TreeKeptFrom(boxes, after, id, 0);
  }

  lemma {:induction false} TreeKeptFrom(boxes: seq<LayoutBox>, after: seq<LayoutBox>, id: BoxId, k: nat)
    requires ChildrenBelow(boxes) && ChildrenBelow(after) && boxes <= after && id < |boxes|
    ensures TreeNodesFrom(after, id, k) == TreeNodesFrom(boxes, id, k)
    decreases id, 0, |boxes[id].children| - k
  {
    if k < |boxes[id].children| {
      TreeKept(boxes, after, boxes[id].children[k]);
      TreeKeptFrom(boxes, after, id, k + 1);
    }
  }

  lemma {:induction false} ListKept(boxes: seq<LayoutBox>, after: seq<LayoutBox>, ids: seq<BoxId>)
    requires ChildrenBelow(boxes) && ChildrenBelow(after) && boxes <= after && forall i :: 0 <= i < |ids| ==>
             ids[i] < |boxes|
    ensures ListNodes(after, ids) == ListNodes(boxes, ids)
  {
    hide ChildrenBelow;
    if ids != [] {
      TreeKept(boxes, after, ids[0]);
      ListKept(boxes, after, ids[1..]);
    }
  }

  lemma {:induction false} ListJoin(boxes: seq<LayoutBox>, a: seq<BoxId>, b: seq<BoxId>)
    requires ChildrenBelow(boxes) && (forall i :: 0 <= i < |a| ==> a[i] < |boxes|)
             && (forall i :: 0 <= i < |b| ==> b[i] < |boxes|)
    ensures ListNodes(boxes, a + b) == ListNodes(boxes, a) + ListNodes(boxes, b)
  {
    hide ChildrenBelow, TreeNodes;
    if a == [] {
      assert a + b == b;
    } else {
      assert (a + b)[1..] == a[1..] + b;
      ListJoin(boxes, a[1..], b);
    }
  }

  lemma OneTree(boxes: seq<LayoutBox>, id: BoxId)
    requires ChildrenBelow(boxes) && id < |boxes|
    ensures ListNodes(boxes, [id]) == TreeNodes(boxes, id)
  {
    hide TreeNodes;
    assert ListNodes(boxes, [id][1..]) == [];
  }

  lemma {:induction false} TreeIsList(boxes: seq<LayoutBox>, id: BoxId, k: nat)
    requires ChildrenBelow(boxes) && id < |boxes| && k <= |boxes[id].children|
    ensures TreeNodesFrom(boxes, id, k) == ListNodes(boxes, boxes[id].children[k..])
    decreases |boxes[id].children| - k
  {
    if k < |boxes[id].children| {
      TreeIsList(boxes, id, k + 1);
      assert boxes[id].children[k..][1..] == boxes[id].children[k + 1..];
    }
  }

  // ----- boxes and the children they stand for -----

  /** A finished box stands for node `c` of a container in that white-space mode. */
  ghost predicate StandsFor(doc: StyledDoc, boxes: seq<LayoutBox>, id: BoxId, c: NodeId, mode: WhiteSpace)
    requires DocWellFormed(doc) && ChildrenBelow(boxes)
  {
    && id < |boxes| && c < |doc.kids|
    && (BlockAt(boxes, id) <==> IsBlockNode(doc, c))
    && (BlankText(doc, boxes[id]) <==> BlankChild(doc, c, mode))
    && TreeNodes(boxes, id) == KeptAt(doc, c)
  }

  /** The finished boxes stand for the displayed children, one for one. */
  ghost predicate Aligned(doc: StyledDoc, boxes: seq<LayoutBox>, ids: seq<BoxId>, list: seq<NodeId>, mode: WhiteSpace)
    requires DocWellFormed(doc) && ChildrenBelow(boxes)
  {
    |ids| == |list| && forall i :: 0 <= i < |ids| ==> StandsFor(doc, boxes, ids[i], list[i], mode)
  }

  lemma StandsKept(doc: StyledDoc, boxes: seq<LayoutBox>, after: seq<LayoutBox>, id: BoxId, c: NodeId, mode: WhiteSpace)
    requires DocWellFormed(doc) && ChildrenBelow(boxes) && ChildrenBelow(after) && boxes <= after
    requires StandsFor(doc, boxes, id, c, mode)
    ensures StandsFor(doc, after, id, c, mode)
  {
    hide DocWellFormed, IsBlockNode, KeptAt, BlankChild, ChildrenBelow, TreeNodes;
    TreeKept(boxes, after, id);
  }

  lemma AlignedKept(doc: StyledDoc, boxes: seq<LayoutBox>, after: seq<LayoutBox>, ids: seq<BoxId>, list: seq<NodeId>,
                    mode: WhiteSpace)
    requires DocWellFormed(doc) && ChildrenBelow(boxes) && ChildrenBelow(after) && boxes <= after
    requires Aligned(doc, boxes, ids, list, mode)
    ensures Aligned(doc, after, ids, list, mode)
  {
    hide DocWellFormed, StandsFor, ChildrenBelow;
    forall i | 0 <= i < |ids| ensures StandsFor(doc, after, ids[i], list[i], mode) {
      StandsKept(doc, boxes, after, ids[i], list[i], mode);
    }
  }

  lemma AlignedAdd(doc: StyledDoc, boxes: seq<LayoutBox>, ids: seq<BoxId>, list: seq<NodeId>, mode: WhiteSpace,
                   id: BoxId, c: NodeId)
    requires DocWellFormed(doc) && ChildrenBelow(boxes) && Aligned(doc, boxes, ids, list, mode)
    requires StandsFor(doc, boxes, id, c, mode)
    ensures Aligned(doc, boxes, ids + [id], list + [c], mode)
  {
    hide DocWellFormed, StandsFor, ChildrenBelow;
  }

  lemma AlignedIds(doc: StyledDoc, boxes: seq<LayoutBox>, ids: seq<BoxId>, list: seq<NodeId>, mode: WhiteSpace)
    requires DocWellFormed(doc) && ChildrenBelow(boxes) && Aligned(doc, boxes, ids, list, mode)
    ensures |ids| == |list| && AllNodes(doc, list)
    ensures forall i :: 0 <= i < |ids| ==>
              && ids[i] < |boxes| && list[i] < |doc.kids| && (BlockAt(boxes, ids[i]) <==> IsBlockNode(doc, list[i]))
              && (BlankText(doc, boxes[ids[i]]) <==> BlankChild(doc, list[i], mode))
              && TreeNodes(boxes, ids[i]) == KeptAt(doc, list[i])
    ensures HasBlock(boxes, ids) <==> SomeBlock(doc, list)
  {
    hide DocWellFormed, BlankText, BlankChild, KeptAt, TreeNodes, ChildrenBelow, BlockAt, IsBlockNode;
    assert forall i :: 0 <= i < |ids| ==> StandsFor(doc, boxes, ids[i], list[i], mode);
    if HasBlock(boxes, ids) {
      var i :| 0 <= i < |ids| && BlockAt(boxes, ids[i]);
      assert IsBlockNode(doc, list[i]);
    }
    if SomeBlock(doc, list) {
      var i :| 0 <= i < |list| && IsBlockNode(doc, list[i]);
      assert BlockAt(boxes, ids[i]);
    }
  }

  // ----- wrapping drops exactly the dropped -----

  /** Without a drop from the `k`-th child on, the kept nodes are those of the boxes. */
  lemma {:induction false} AllKept(doc: StyledDoc, boxes: seq<LayoutBox>, ids: seq<BoxId>, p: NodeId,
                                   mode: WhiteSpace, k: nat)
    requires DocWellFormed(doc) && p < |doc.kids| && ChildrenBelow(boxes)
    requires Aligned(doc, boxes, ids, Displayed(doc, doc.kids[p]), mode) && k <= |ids|
    requires forall j :: k <= j < |ids| ==>
               AllNodes(doc, Displayed(doc, doc.kids[p])) && !Dropped(doc, Displayed(doc, doc.kids[p]), mode, j)
    ensures (forall i :: k <= i < |ids| ==> ids[i] < |boxes|) && ListNodes(boxes, ids[k..]) == Kept(doc, p, mode, k)
    decreases |ids| - k
  {
    hide DocWellFormed, Dropped, KeptAt, Kept, TreeNodes, ChildrenBelow, Aligned;
    AlignedIds(doc, boxes, ids, Displayed(doc, doc.kids[p]), mode);
    if k < |ids| {
      AllKept(doc, boxes, ids, p, mode, k + 1);
      KeptStep(doc, p, mode, k);
      assert ids[k..][1..] == ids[k + 1..];
    } else {
      KeptEnd(doc, p, mode, k);
    }
  }

  /** A stretch between blocks is one run: its children share their fate. */
  lemma RunShared(doc: StyledDoc, list: seq<NodeId>, mode: WhiteSpace, k: nat, n: nat, i: nat)
    requires DocWellFormed(doc) && AllNodes(doc, list) && SomeBlock(doc, list) && k <= i < k + n <= |list|
    requires forall j :: k <= j < k + n ==> !IsBlockNode(doc, list[j])
    requires k == 0 || IsBlockNode(doc, list[k - 1])
    requires k + n == |list| || IsBlockNode(doc, list[k + n])
    ensures Dropped(doc, list, mode, i) <==> forall j :: k <= j < k + n ==> BlankChild(doc, list[j], mode)
  {
    hide DocWellFormed, IsBlockNode, BlankChild;
    forall j | 0 <= j < |list| ensures OneRun(doc, list, j, i) <==> k <= j < k + n {
      if j < k {
        assert IsBlockNode(doc, list[k - 1]) && j <= k - 1 <= i;
      } else if j >= k + n {
        assert IsBlockNode(doc, list[k + n]) && i <= k + n <= j;
      }
    }
  }

  /** What is kept of one run: nothing or all of it. */
  lemma {:induction false} RunKept(doc: StyledDoc, boxes: seq<LayoutBox>, ids: seq<BoxId>, p: NodeId, mode: WhiteSpace,
                                   k: nat, n: nat, i: nat, blank: bool)
    requires DocWellFormed(doc) && p < |doc.kids| && ChildrenBelow(boxes)
    requires Aligned(doc, boxes, ids, Displayed(doc, doc.kids[p]), mode) && k <= i <= k + n <= |ids|
    requires AllNodes(doc, Displayed(doc, doc.kids[p]))
    requires forall j :: k <= j < k + n ==> (Dropped(doc, Displayed(doc, doc.kids[p]), mode, j) <==> blank)
    ensures forall j :: 0 <= j < |ids| ==> ids[j] < |boxes|
    ensures Kept(doc, p, mode, i) == (if blank then [] else ListNodes(boxes, ids[i..k + n])) + Kept(doc, p, mode, k + n)
    decreases k + n - i
  {
    hide DocWellFormed, Dropped, KeptAt, Kept, TreeNodes, ChildrenBelow, Aligned, ListNodes, Displayed, IsBlockNode,
         BlockAt;
    AlignedIds(doc, boxes, ids, Displayed(doc, doc.kids[p]), mode);
    if i < k + n {
      RunKept(doc, boxes, ids, p, mode, k, n, i + 1, blank);
      KeptStep(doc, p, mode, i);
      if blank {
        assert [] + Kept(doc, p, mode, i + 1) == Kept(doc, p, mode, i + 1);
      } else {
        ListFirst(boxes, ids, i, k + n);
      }
    } else {
      NoList(boxes, ids, i);
      assert [] + Kept(doc, p, mode, i) == Kept(doc, p, mode, i);
    }
  }

  lemma ListFirst(boxes: seq<LayoutBox>, ids: seq<BoxId>, i: nat, j: nat)
    requires ChildrenBelow(boxes) && i < j <= |ids| && forall k :: 0 <= k < |ids| ==> ids[k] < |boxes|
    ensures ListNodes(boxes, ids[i..j]) == TreeNodes(boxes, ids[i]) + ListNodes(boxes, ids[i + 1..j])
  {
    hide ChildrenBelow, TreeNodes;
    assert ids[i..j][1..] == ids[i + 1..j];
  }

  lemma NoList(boxes: seq<LayoutBox>, ids: seq<BoxId>, i: nat)
    requires ChildrenBelow(boxes) && i <= |ids| && forall k :: 0 <= k < |ids| ==> ids[k] < |boxes|
    ensures ListNodes(boxes, ids[i..i]) == []
  {
    assert ids[i..i] == [];
  }

  /** Wrapping leaves a sound arena that continues the one it was given. */
  lemma WrapFacts(doc: StyledDoc, style: LayoutStyle, boxes: seq<LayoutBox>, ids: seq<BoxId>, base: nat)
    requires Sound(boxes) && SelfContained(boxes, base) && Waiting(boxes, ids, base)
    ensures var r := WrapRuns(doc, style, boxes, ids);
            && boxes <= r.boxes && Sound(r.boxes) && ChildrenBelow(r.boxes)
            && forall i :: 0 <= i < |r.ids| ==> r.ids[i] < |r.boxes|
  {
    hide AttachedOnce, KindHolds, SelfContained, Free, WrapRuns;
    WrapRunsSound(doc, style, boxes, ids, base);
  }

  /** A block-level child is kept as it is. */
  lemma BlockOrder(doc: StyledDoc, style: LayoutStyle, boxes: seq<LayoutBox>, ids: seq<BoxId>, p: NodeId,
                   mode: WhiteSpace, k: nat)
    requires DocWellFormed(doc) && p < |doc.kids| && ChildrenBelow(boxes) && k < |ids| && BlockAt(boxes, ids[k])
    requires Aligned(doc, boxes, ids, Displayed(doc, doc.kids[p]), mode)
    requires var rest := WrapRuns(doc, style, boxes, ids[k + 1..]);
             && boxes <= rest.boxes && ChildrenBelow(rest.boxes)
             && (forall i :: 0 <= i < |rest.ids| ==> rest.ids[i] < |rest.boxes|)
             && ListNodes(rest.boxes, rest.ids) == Kept(doc, p, mode, k + 1)
    ensures var r := WrapRuns(doc, style, boxes, ids[k..]);
            && ChildrenBelow(r.boxes) && (forall i :: 0 <= i < |r.ids| ==> r.ids[i] < |r.boxes|)
            && ListNodes(r.boxes, r.ids) == Kept(doc, p, mode, k)
  {
    hide DocWellFormed, ChildrenBelow, BlockAt, TreeNodes, Kept, KeptAt, BlankChild, IsBlockNode, Aligned, BlankText;
    var list := Displayed(doc, doc.kids[p]);
    AlignedIds(doc, boxes, ids, list, mode);
    KeptStep(doc, p, mode, k);
    assert !Dropped(doc, list, mode, k) by {
      assert IsBlockNode(doc, list[k]);
    }
    assert ids[k..][0] == ids[k] && ids[k..][1..] == ids[k + 1..];
    var rest := WrapRuns(doc, style, boxes, ids[k + 1..]);
    TreeKept(boxes, rest.boxes, ids[k]);
    assert ([ids[k]] + rest.ids)[1..] == rest.ids;
  }

  lemma PrefixIsRun(doc: StyledDoc, boxes: seq<LayoutBox>, ids: seq<BoxId>, list: seq<NodeId>, mode: WhiteSpace, k: nat)
    requires DocWellFormed(doc) && ChildrenBelow(boxes) && Aligned(doc, boxes, ids, list, mode) && k < |ids|
    requires !BlockAt(boxes, ids[k])
    ensures AllNodes(doc, list)
    ensures var n := InlinePrefix(boxes, ids[k..]);
            && 0 < n && k + n <= |list| && (forall j :: k <= j < k + n ==> !IsBlockNode(doc, list[j]))
            && (k + n == |list| || IsBlockNode(doc, list[k + n]))
            && (BlankRun(doc, boxes, ids[k..k + n]) <==> forall j :: k <= j < k + n ==> BlankChild(doc, list[j], mode))
  {
    hide DocWellFormed, ChildrenBelow, BlockAt, TreeNodes, Kept, KeptAt, BlankChild, IsBlockNode, Aligned, BlankText;
    AlignedIds(doc, boxes, ids, list, mode);
    var n := InlinePrefix(boxes, ids[k..]);
    assert forall j :: k <= j < k + n ==> ids[j] == ids[k..][j - k];
    assert k + n < |list| ==> ids[k + n] == ids[k..][n];
    assert forall j :: k <= j < k + n ==> ids[k..k + n][j - k] == ids[j];
    if BlankRun(doc, boxes, ids[k..k + n]) {
      forall j | k <= j < k + n ensures BlankChild(doc, list[j], mode) {
        assert BlankText(doc, boxes[ids[k..k + n][j - k]]);
      }
    }
  }

  /** The nodes of a flushed run. */
  lemma FlushOrder(doc: StyledDoc, style: LayoutStyle, boxes: seq<LayoutBox>, run: seq<BoxId>)
    requires ChildrenBelow(boxes) && run != [] && (forall i :: 0 <= i < |run| ==> run[i] < |boxes|)
    requires ChildrenBelow(FlushRun(doc, style, boxes, run).boxes)
    ensures var flushed := FlushRun(doc, style, boxes, run);
            && (forall i :: 0 <= i < |flushed.ids| ==> flushed.ids[i] < |flushed.boxes|)
            && ListNodes(flushed.boxes, flushed.ids) == if BlankRun(doc, boxes, run) then [] else ListNodes(boxes, run)
  {
    hide ChildrenBelow, BlankRun, TreeNodes;
    if !BlankRun(doc, boxes, run) {
      AnonymousTree(boxes, FlushRun(doc, style, boxes, run).boxes, run);
    }
  }

  lemma AnonymousTree(boxes: seq<LayoutBox>, after: seq<LayoutBox>, run: seq<BoxId>)
    requires ChildrenBelow(boxes) && ChildrenBelow(after) && boxes <= after && |after| == |boxes| + 1
    requires after[|boxes|].children == run && after[|boxes|].node.None?
    requires forall i :: 0 <= i < |run| ==> run[i] < |boxes|
    ensures ListNodes(after, [|boxes|]) == ListNodes(boxes, run)
  {
    hide ChildrenBelow, TreeNodes, TreeNodesFrom, ListNodes;
    TreeIsList(after, |boxes|, 0);
    assert run[0..] == run;
    ListKept(boxes, after, run);
    OneTree(after, |boxes|);
    AnonymousNodes(after, |boxes|);
  }

  lemma AnonymousNodes(boxes: seq<LayoutBox>, id: BoxId)
    requires ChildrenBelow(boxes) && id < |boxes| && boxes[id].node.None?
    ensures TreeNodes(boxes, id) == TreeNodesFrom(boxes, id, 0)
  {
  }

  lemma RunIsKept(doc: StyledDoc, boxes: seq<LayoutBox>, ids: seq<BoxId>, p: NodeId, mode: WhiteSpace, k: nat)
    requires DocWellFormed(doc) && p < |doc.kids| && ChildrenBelow(boxes) && k < |ids| && !BlockAt(boxes, ids[k])
    requires Aligned(doc, boxes, ids, Displayed(doc, doc.kids[p]), mode)
    requires AllNodes(doc, Displayed(doc, doc.kids[p])) && SomeBlock(doc, Displayed(doc, doc.kids[p]))
    requires k == 0 || IsBlockNode(doc, Displayed(doc, doc.kids[p])[k - 1])
    ensures var n := InlinePrefix(boxes, ids[k..]);
            && 0 < n && k + n <= |ids| && (forall i :: 0 <= i < |ids| ==> ids[i] < |boxes|)
            && Kept(doc, p, mode, k) ==
               (if BlankRun(doc, boxes, ids[k..k + n]) then [] else ListNodes(boxes, ids[k..k + n]))
                   + Kept(doc, p, mode, k + n)
  {
    hide DocWellFormed, ChildrenBelow, BlockAt, TreeNodes, Kept, KeptAt, BlankChild, IsBlockNode, Aligned, BlankText,
         BlankRun,
         SomeBlock, Dropped, ListNodes, Displayed, InlinePrefix;
    var list := Displayed(doc, doc.kids[p]);
    AlignedIds(doc, boxes, ids, list, mode);
    PrefixIsRun(doc, boxes, ids, list, mode, k);
    var n := InlinePrefix(boxes, ids[k..]);
    var blank := BlankRun(doc, boxes, ids[k..k + n]);
    forall j | k <= j < k + n ensures Dropped(doc, list, mode, j) <==> blank {
      RunShared(doc, list, mode, k, n, j);
    }
    RunKept(doc, boxes, ids, p, mode, k, n, k, blank);
  }

  /** A maximal inline run goes or stays as a whole. */
  lemma RunOrder(doc: StyledDoc, style: LayoutStyle, boxes: seq<LayoutBox>, ids: seq<BoxId>, p: NodeId,
                 mode: WhiteSpace, k: nat)
    requires DocWellFormed(doc) && p < |doc.kids| && ChildrenBelow(boxes) && k < |ids| && !BlockAt(boxes, ids[k])
    requires Aligned(doc, boxes, ids, Displayed(doc, doc.kids[p]), mode)
    requires AllNodes(doc, Displayed(doc, doc.kids[p])) && SomeBlock(doc, Displayed(doc, doc.kids[p]))
    requires k == 0 || IsBlockNode(doc, Displayed(doc, doc.kids[p])[k - 1])
    requires var n := InlinePrefix(boxes, ids[k..]);
             var flushed := FlushRun(doc, style, boxes, ids[k..][..n]);
             var rest := WrapRuns(doc, style, flushed.boxes, ids[k..][n..]);
             && ChildrenBelow(flushed.boxes) && flushed.boxes <= rest.boxes && ChildrenBelow(rest.boxes)
             && (forall i :: 0 <= i < |rest.ids| ==> rest.ids[i] < |rest.boxes|)
             && ListNodes(rest.boxes, rest.ids) == Kept(doc, p, mode, k + n)
    ensures var r := WrapRuns(doc, style, boxes, ids[k..]);
            && ChildrenBelow(r.boxes) && (forall i :: 0 <= i < |r.ids| ==> r.ids[i] < |r.boxes|)
            && ListNodes(r.boxes, r.ids) == Kept(doc, p, mode, k)
  {
    hide DocWellFormed, ChildrenBelow, BlockAt, TreeNodes, Kept, KeptAt, IsBlockNode, Aligned, BlankRun,
         FlushRun, SomeBlock, ListNodes, Displayed, InlinePrefix, AllNodes;
    RunIsKept(doc, boxes, ids, p, mode, k);
    var n := InlinePrefix(boxes, ids[k..]);
    var run := ids[k..][..n];
    assert run == ids[k..k + n];
    var flushed := FlushRun(doc, style, boxes, run);
    var rest := WrapRuns(doc, style, flushed.boxes, ids[k..][n..]);
    FlushOrder(doc, style, boxes, run);
    ListKept(flushed.boxes, rest.boxes, flushed.ids);
    ListJoin(rest.boxes, flushed.ids, rest.ids);
    assert ids[k..][0] == ids[k];
  }

  /** Wrapping from a block, or from the start of a run, on. */
  lemma {:induction false} WrapRunsOrder(doc: StyledDoc, style: LayoutStyle, boxes: seq<LayoutBox>, ids: seq<BoxId>,
                                         p: NodeId, mode: WhiteSpace, k: nat, base: nat)
    requires DocWellFormed(doc) && p < |doc.kids| && Sound(boxes) && SelfContained(boxes, base) && k <= |ids|
    requires Waiting(boxes, ids[k..], base) && Aligned(doc, boxes, ids, Displayed(doc, doc.kids[p]), mode)
    requires AllNodes(doc, Displayed(doc, doc.kids[p])) && SomeBlock(doc, Displayed(doc, doc.kids[p]))
    requires k == 0 || k == |ids| || IsBlockNode(doc, Displayed(doc, doc.kids[p])[k - 1])
             || IsBlockNode(doc, Displayed(doc, doc.kids[p])[k])
    ensures var r := WrapRuns(doc, style, boxes, ids[k..]);
            && ChildrenBelow(r.boxes) && (forall i :: 0 <= i < |r.ids| ==> r.ids[i] < |r.boxes|)
            && ListNodes(r.boxes, r.ids) == Kept(doc, p, mode, k)
    decreases |ids| - k
  {
    hide DocWellFormed, AttachedOnce, SelfContained, KindHolds, ChildrenBelow, BlockAt, Free, TreeNodes, FlushRun,
         ListNodes,
         Kept, KeptAt, Waiting, Aligned, SomeBlock, IsBlockNode, WrapRuns, Displayed, InlinePrefix, BlankText, BlankRun,
         BlankChild;
    var list := Displayed(doc, doc.kids[p]);
    AlignedIds(doc, boxes, ids, list, mode);
    WrapFacts(doc, style, boxes, ids[k..], base);
    if k == |ids| {
      KeptEnd(doc, p, mode, k);
      assert ids[k..] == [];
      NothingOrder(doc, style, boxes);
    } else if BlockAt(boxes, ids[k]) {
      WaitingSlices(boxes, ids[k..], base, 1);
      assert ids[k..][1..] == ids[k + 1..];
      WrapRunsOrder(doc, style, boxes, ids, p, mode, k + 1, base);
      WrapFacts(doc, style, boxes, ids[k + 1..], base);
      BlockOrder(doc, style, boxes, ids, p, mode, k);
    } else {
      var n := InlinePrefix(boxes, ids[k..]);
      PrefixIsRun(doc, boxes, ids, list, mode, k);
      FlushSound(doc, style, boxes, ids[k..], base, n);
      var flushed := FlushRun(doc, style, boxes, ids[k..][..n]);
      assert ids[k..][n..] == ids[k + n..];
      BelowSound(flushed.boxes, ids[k + n..], base);
      AlignedKept(doc, boxes, flushed.boxes, ids, list, mode);
      WrapRunsOrder(doc, style, flushed.boxes, ids, p, mode, k + n, base);
      WrapFacts(doc, style, flushed.boxes, ids[k + n..], base);
      RunOrder(doc, style, boxes, ids, p, mode, k);
    }
  }

  lemma NothingOrder(doc: StyledDoc, style: LayoutStyle, boxes: seq<LayoutBox>)
    requires ChildrenBelow(boxes)
    ensures WrapRuns(doc, style, boxes, []) == Wrapped(boxes, []) && ListNodes(boxes, []) == []
  {
  }

  lemma BelowSound(boxes: seq<LayoutBox>, ids: seq<BoxId>, base: nat)
    requires Sound(boxes) && Waiting(boxes, ids, base)
    ensures ChildrenBelow(boxes) && forall i :: 0 <= i < |ids| ==> ids[i] < |boxes|
  {
  }

  lemma WrapMixedOrder(doc: StyledDoc, style: LayoutStyle, boxes: seq<LayoutBox>, ids: seq<BoxId>,
                       p: NodeId, mode: WhiteSpace, base: nat)
    requires DocWellFormed(doc) && p < |doc.kids| && Sound(boxes) && SelfContained(boxes, base)
             && Waiting(boxes, ids, base)
    requires Aligned(doc, boxes, ids, Displayed(doc, doc.kids[p]), mode)
    ensures var r := WrapMixed(doc, style, boxes, ids);
            && ChildrenBelow(r.boxes) && (forall i :: 0 <= i < |r.ids| ==> r.ids[i] < |r.boxes|)
            && ListNodes(r.boxes, r.ids) == Kept(doc, p, mode, 0)
  {
    hide DocWellFormed, AttachedOnce, SelfContained, KindHolds, ChildrenBelow, BlockAt, Free, TreeNodes, ListNodes,
         Kept, KeptAt, Waiting, Aligned, IsBlockNode, WrapRuns, BlankChild;
    var list := Displayed(doc, doc.kids[p]);
    AlignedIds(doc, boxes, ids, list, mode);
    assert ids[0..] == ids;
    BelowSound(boxes, ids, base);
    if HasBlock(boxes, ids) && HasInline(boxes, ids) {
      WrapRunsOrder(doc, style, boxes, ids, p, mode, 0, base);
    } else {
      forall j | 0 <= j < |ids| ensures !Dropped(doc, list, mode, j) {
        if HasBlock(boxes, ids) {
          assert BlockAt(boxes, ids[j]);
        }
      }
      AllKept(doc, boxes, ids, p, mode, 0);
    }
  }

  // ----- the walk -----

  lemma CloseOrder(doc: StyledDoc, f: Frame, boxes: seq<LayoutBox>, base: nat)
    requires DocWellFormed(doc) && FrameOk(doc, f) && FrameSound(doc, f, boxes, base)
    requires ChildrenBelow(boxes) && Aligned(doc, boxes, f.built, Displayed(doc, doc.kids[f.node]), f.style.whiteSpace)
    ensures var g := CloseFrame(doc, f, boxes);
            && ChildrenBelow(g.boxes) && g.id < |g.boxes|
            && TreeNodes(g.boxes, g.id) == [f.node] + Kept(doc, f.node, f.style.whiteSpace, 0)
            && (BlockAt(g.boxes, g.id) <==>
                  !f.isInline || exists k :: k in doc.kids[f.node] && k < |doc.kids| && IsBlockNode(doc, k))
            && !g.boxes[g.id].kind.InlineText?
  {
    hide DocWellFormed, AttachedOnce, SelfContained, KindHolds, ChildrenBelow, Free, ListNodes, WrapRuns,
         Kept, KeptAt, Waiting, Aligned, IsBlockNode, BlankChild, WrapMixed, BlankText;
    var list := Displayed(doc, doc.kids[f.node]);
    CloseSound(doc, f, boxes, base);
    WrapMixedOrder(doc, FinalStyle(f, boxes), boxes, f.built, f.node, f.style.whiteSpace, base);
    var g := CloseFrame(doc, f, boxes);
    var wrapped := WrapMixed(doc, FinalStyle(f, boxes), boxes, f.built);
    SoundBelow(g.boxes);
    TreeIsList(g.boxes, g.id, 0);
    assert g.boxes[g.id].children[0..] == wrapped.ids;
    ListKept(wrapped.boxes, g.boxes, wrapped.ids);
    AlignedIds(doc, boxes, f.built, list, f.style.whiteSpace);
    BlocksDisplayed(doc, f.node);
  }

  lemma SoundBelow(boxes: seq<LayoutBox>)
    requires Sound(boxes)
    ensures ChildrenBelow(boxes)
  {
  }

  lemma BlocksDisplayed(doc: StyledDoc, p: NodeId)
    requires DocWellFormed(doc) && p < |doc.kids|
    ensures AllNodes(doc, Displayed(doc, doc.kids[p]))
    ensures SomeBlock(doc, Displayed(doc, doc.kids[p])) <==>
            exists k :: k in doc.kids[p] && k < |doc.kids| && IsBlockNode(doc, k)
  {
    hide DocWellFormed;
    DisplayedNodes(doc, p);
    var list := Displayed(doc, doc.kids[p]);
    if SomeBlock(doc, list) {
      var i :| 0 <= i < |list| && IsBlockNode(doc, list[i]);
      assert list[i] in list;
    }
    if k :| k in doc.kids[p] && k < |doc.kids| && IsBlockNode(doc, k) {
      assert k in list;
      var i :| 0 <= i < |list| && list[i] == k;
    }
  }

  lemma KidsAreNodes(doc: StyledDoc, p: NodeId)
    requires DocWellFormed(doc) && p < |doc.kids|
    ensures forall k :: k in doc.kids[p] ==> k < |doc.kids|
    ensures forall i :: 0 <= i < |doc.kids[p]| ==> doc.kids[p][i] < |doc.kids|
  {
    forall i | 0 <= i < |doc.kids[p]| ensures doc.kids[p][i] < |doc.kids| {
      assert doc.kids[p][i] in doc.kids[p];
    }
  }

  /** A container's box, the last of its stretch, with the kept nodes of its subtree in order. */
  lemma {:induction false} BoxTreeOrder(doc: StyledDoc, node: NodeId, style: LayoutStyle, isInline: bool,
                                        boxes: seq<LayoutBox>)
    requires DocWellFormed(doc) && node < |doc.kids| && Sound(boxes)
    requires style.display == if isInline then Display.Inline else Display.Block
    ensures var g := GenBox(doc, node, style, isInline, boxes);
            && ChildrenBelow(g.boxes) && g.id < |g.boxes| && boxes <= g.boxes
            && TreeNodes(g.boxes, g.id) == [node] + Kept(doc, node, style.whiteSpace, 0)
            && (BlockAt(g.boxes, g.id) <==>
                  !isInline || exists k :: k in doc.kids[node] && k < |doc.kids| && IsBlockNode(doc, k))
            && !g.boxes[g.id].kind.InlineText?
    decreases Depth(doc, node), 1, 0
  {
    hide DocWellFormed, Sound, SelfContained, Waiting, Free, CloseFrame, KindHolds, TreeNodes, Kept, IsBlockNode,
         BlockAt, Aligned;
    BoxSound(doc, node, style, isInline, boxes);
    var f := OpenFrame(doc, node, style, isInline);
    StartsSound(boxes);
    BelowSound(boxes, [], |boxes|);
    NothingAligned(doc, boxes, style.whiteSpace);
    assert f.children[..0] == [];
    ChildrenOrder(doc, f, boxes, |boxes|);
    var done := GenChildren(doc, f, boxes);
    CloseOrder(doc, done.frame, done.boxes, |boxes|);
  }

  lemma NothingAligned(doc: StyledDoc, boxes: seq<LayoutBox>, mode: WhiteSpace)
    requires DocWellFormed(doc) && ChildrenBelow(boxes)
    ensures Aligned(doc, boxes, [], Displayed(doc, []), mode)
  {
  }

  lemma {:induction false} ChildrenOrder(doc: StyledDoc, f: Frame, boxes: seq<LayoutBox>, base: nat)
    requires DocWellFormed(doc) && FrameOk(doc, f) && FrameSound(doc, f, boxes, base) && f.nextChild <= |f.children|
    requires ChildrenBelow(boxes) && Aligned(doc, boxes, f.built, Displayed(doc, f.children[..f.nextChild]),
                                             f.style.whiteSpace)
    ensures var r := GenChildren(doc, f, boxes);
            && FrameOk(doc, r.frame) && FrameSound(doc, r.frame, r.boxes, base) && ChildrenBelow(r.boxes)
            && r.frame.node == f.node && r.frame.style == f.style && r.frame.isInline == f.isInline
            && Aligned(doc, r.boxes, r.frame.built, Displayed(doc, f.children), f.style.whiteSpace)
    decreases Depth(doc, f.node), 0, |f.children| - f.nextChild
  {
    hide DocWellFormed, KindHolds, GenBox, FrameSound, ChildrenBelow, Sound, Classify, Aligned, Displayed, RoleOf;
    if f.nextChild >= |f.children| {
      assert f.children[..f.nextChild] == f.children;
    } else {
      var c := f.children[f.nextChild];
      assert c in doc.kids[f.node];
      RoleIgnoresStyle(doc, c, f.style);
      DisplayedNext(doc, f);
      match Classify(doc, c, f.style) {
        case Skip =>
          SkipSound(doc, f, boxes, base);
          assert f.built + [] == f.built;
          ChildrenOrder(doc, Deeper(f, []), boxes, base);
        case Leaf(kind, style) =>
          var leaf := LayoutBox(Some(c), kind, style, []);
          ChildInRange(doc, f);
          ClassifiedLeaf(doc, c, f.style);
          LeafSound(doc, f, boxes, base, leaf);
          LeafOrder(doc, f, boxes, c);
          ChildrenOrder(doc, Deeper(f, [|boxes|]), boxes + [leaf], base);
        case Container(isInline, style) =>
          ChildInRange(doc, f);
          FrameParts(doc, f, boxes, base);
          ClassifiedContainer(doc, c, f.style);
          BoxSound(doc, c, style, isInline, boxes);
          BoxTreeOrder(doc, c, style, isInline, boxes);
          var g := GenBox(doc, c, style, isInline, boxes);
          NestedSound(doc, f, boxes, base, g);
          ContainerStands(doc, f, g, c);
          AlignedKept(doc, boxes, g.boxes, f.built, Displayed(doc, f.children[..f.nextChild]), f.style.whiteSpace);
          AlignedAdd(doc, g.boxes, f.built, Displayed(doc, f.children[..f.nextChild]), f.style.whiteSpace, g.id, c);
          ChildrenOrder(doc, Deeper(f, [g.id]), g.boxes, base);
      }
    }
  }

  lemma DisplayedNext(doc: StyledDoc, f: Frame)
    requires f.nextChild < |f.children|
    ensures var c := f.children[f.nextChild];
            Displayed(doc, f.children[..f.nextChild + 1])
            == if RoleOf(doc, c).Skip? then Displayed(doc, f.children[..f.nextChild])
               else Displayed(doc, f.children[..f.nextChild]) + [c]
  {
    assert f.children[..f.nextChild + 1][..f.nextChild] == f.children[..f.nextChild];
  }

  lemma ContainerStands(doc: StyledDoc, f: Frame, g: Generated, c: NodeId)
    requires DocWellFormed(doc) && c < |doc.kids| && ChildrenBelow(g.boxes) && g.id < |g.boxes|
    requires var child := Classify(doc, c, f.style);
             && child.Container?
             && TreeNodes(g.boxes, g.id) == [c] + Kept(doc, c, child.style.whiteSpace, 0)
             && (BlockAt(g.boxes, g.id) <==>
                   !child.isInline || exists k :: k in doc.kids[c] && k < |doc.kids| && IsBlockNode(doc, k))
             && !g.boxes[g.id].kind.InlineText?
    ensures StandsFor(doc, g.boxes, g.id, c, f.style.whiteSpace)
  {
    hide ChildrenBelow, BlockAt, Kept;
    KidsAreNodes(doc, c);
  }

  /** A leaf's box is inline, without children, and blank when its text is. */
  lemma LeafOrder(doc: StyledDoc, f: Frame, boxes: seq<LayoutBox>, c: NodeId)
    requires DocWellFormed(doc) && FrameOk(doc, f) && f.nextChild < |f.children| && c == f.children[f.nextChild]
    requires Classify(doc, c, f.style).Leaf? && c < |doc.kids|
    requires ChildrenBelow(boxes) && Aligned(doc, boxes, f.built, Displayed(doc, f.children[..f.nextChild]),
                                             f.style.whiteSpace)
    ensures var leaf := LayoutBox(Some(c), Classify(doc, c, f.style).kind, Classify(doc, c, f.style).style, []);
            && ChildrenBelow(boxes + [leaf])
            && Aligned(doc, boxes + [leaf], f.built + [|boxes|],
                       Displayed(doc, f.children[..f.nextChild]) + [c], f.style.whiteSpace)
  {
    hide Aligned, StandsFor, Kept, Displayed;
    var leaf := LayoutBox(Some(c), Classify(doc, c, f.style).kind, Classify(doc, c, f.style).style, []);
    var after := boxes + [leaf];
    assert ChildrenBelow(after);
    LeafStands(doc, f, after, c);
    AlignedKept(doc, boxes, after, f.built, Displayed(doc, f.children[..f.nextChild]), f.style.whiteSpace);
    AlignedAdd(doc, after, f.built, Displayed(doc, f.children[..f.nextChild]), f.style.whiteSpace, |boxes|, c);
  }

  lemma LeafStands(doc: StyledDoc, f: Frame, after: seq<LayoutBox>, c: NodeId)
    requires DocWellFormed(doc) && c < |doc.kids| && Classify(doc, c, f.style).Leaf? && ChildrenBelow(after)
             && after != []
    requires after[|after| - 1] == LayoutBox(Some(c), Classify(doc, c, f.style).kind,
                                             Classify(doc, c, f.style).style, [])
    ensures StandsFor(doc, after, |after| - 1, c, f.style.whiteSpace)
  {
    hide ChildrenBelow, Kept, DocWellFormed;
    RoleIgnoresStyle(doc, c, f.style);
    assert TreeNodesFrom(after, |after| - 1, 0) == [];
    assert !RoleOf(doc, c).Container?;
  }

  lemma SkipSound(doc: StyledDoc, f: Frame, boxes: seq<LayoutBox>, base: nat)
    requires FrameSound(doc, f, boxes, base)
    ensures FrameSound(doc, Deeper(f, []), boxes, base)
  {
    assert f.built + [] == f.built;
  }

  lemma FrameParts(doc: StyledDoc, f: Frame, boxes: seq<LayoutBox>, base: nat)
    requires FrameSound(doc, f, boxes, base)
    ensures Sound(boxes) && Waiting(boxes, f.built, base) && ChildrenBelow(boxes)
  {
  }

  lemma ClassifiedLeaf(doc: StyledDoc, c: NodeId, parent: LayoutStyle)
    requires Classify(doc, c, parent).Leaf?
    ensures var kind := Classify(doc, c, parent).kind;
            kind == LineBreak || (kind == InlineText(c) && c < |doc.kinds| && doc.kinds[c].Text?)
  {
  }

  lemma ClassifiedContainer(doc: StyledDoc, c: NodeId, parent: LayoutStyle)
    requires Classify(doc, c, parent).Container?
    ensures var child := Classify(doc, c, parent);
            child.style.display == if child.isInline then Display.Inline else Display.Block
  {
  }

  // ----- each node once -----

  ghost predicate BelowFrom(doc: StyledDoc, p: NodeId, k: nat, x: NodeId)
    requires DocWellFormed(doc) && p < |doc.kids|
  {
    x in Traverse.Below(doc.kids, Traverse.SomeRank(doc.kids), Traverse.SomeBound(doc.kids), p, k)
  }

  lemma BelowStep(doc: StyledDoc, p: NodeId, k: nat, x: NodeId)
    requires DocWellFormed(doc) && p < |doc.kids| && k < |doc.kids[p]|
    ensures var c := doc.kids[p][k];
            && c < |doc.kids| && Depth(doc, c) < Depth(doc, p)
            && (BelowFrom(doc, p, k, x) <==> x == c || BelowFrom(doc, c, 0, x) || BelowFrom(doc, p, k + 1, x))
            && !BelowFrom(doc, c, 0, c)
            && (x == c || BelowFrom(doc, c, 0, x) ==> !BelowFrom(doc, p, k + 1, x))
  {
    var rank, bound := Traverse.SomeRank(doc.kids), Traverse.SomeBound(doc.kids);
    var c := doc.kids[p][k];
    assert c in doc.kids[p];
    var d := Depth(doc, p);
    Traverse.BelowOwn(doc.kids, rank, bound, c);
    Traverse.BelowInRange(doc.kids, rank, bound, c, 0);
    if x == c || BelowFrom(doc, c, 0, x) {
      Traverse.BelowApart(doc.kids, rank, bound, p, k, x);
    }
  }

  /** No displayed node comes up twice, in either order. */
  lemma {:induction false} ShownOnce(doc: StyledDoc, p: NodeId, k: nat)
    requires DocWellFormed(doc) && p < |doc.kids|
    ensures Forest.Distinct(ShownPost(doc, p, k)) && Forest.Distinct(ShownPre(doc, p, k))
    ensures forall x :: x in ShownPre(doc, p, k) <==> x in ShownPost(doc, p, k)
    ensures forall x :: x in ShownPost(doc, p, k) ==> BelowFrom(doc, p, k, x)
    decreases Depth(doc, p), |doc.kids[p]| - k
  {
    hide DocWellFormed, RoleOf, BelowFrom, Forest.Distinct, Depth;
    if k >= |doc.kids[p]| {
      NoneShown(doc, p, k);
    } else {
      var c := doc.kids[p][k];
      BelowStep(doc, p, k, c);
      var tailPost, tailPre := ShownPost(doc, p, k + 1), ShownPre(doc, p, k + 1);
      ShownOnce(doc, p, k + 1);
      if RoleOf(doc, c).Container? {
        ShownOnce(doc, c, 0);
      }
      ShownSteps(doc, p, k);
      var post, pre := ShownAt(doc, c), ShownPreAt(doc, c);
      BranchOnce(doc, c);
      forall x | x in post + tailPost ensures BelowFrom(doc, p, k, x) {
        BelowStep(doc, p, k, x);
      }
      forall x | x in post ensures x !in tailPost && x !in tailPre {
        BelowStep(doc, p, k, x);
      }
      Traverse.ConcatDistinct(post, tailPost);
      Traverse.ConcatDistinct(pre, tailPre);
    }
  }

  /** The displayed nodes at and below one child, the child first. */
  ghost function ShownPreAt(doc: StyledDoc, c: NodeId): seq<NodeId>
    requires DocWellFormed(doc) && c < |doc.kids|
  {
    match RoleOf(doc, c)
    case Skip => []
    case Leaf(_, _) => [c]
    case Container(_, _) => [c] + ShownPre(doc, c, 0)
  }

  lemma NoneShown(doc: StyledDoc, p: NodeId, k: nat)
    requires DocWellFormed(doc) && p < |doc.kids| && k >= |doc.kids[p]|
    ensures ShownPost(doc, p, k) == [] && ShownPre(doc, p, k) == [] && Forest.Distinct([])
  {
  }

  lemma ShownSteps(doc: StyledDoc, p: NodeId, k: nat)
    requires DocWellFormed(doc) && p < |doc.kids| && k < |doc.kids[p]|
    ensures doc.kids[p][k] < |doc.kids|
    ensures ShownPost(doc, p, k) == ShownAt(doc, doc.kids[p][k]) + ShownPost(doc, p, k + 1)
    ensures ShownPre(doc, p, k) == ShownPreAt(doc, doc.kids[p][k]) + ShownPre(doc, p, k + 1)
  {
    hide DocWellFormed, RoleOf;
    ShownPostStep(doc, p, k);
    assert doc.kids[p][k] in doc.kids[p];
    var d := Depth(doc, p);
  }

  lemma BranchOnce(doc: StyledDoc, c: NodeId)
    requires DocWellFormed(doc) && c < |doc.kids| && !BelowFrom(doc, c, 0, c)
    requires RoleOf(doc, c).Container? ==>
               && Forest.Distinct(ShownPost(doc, c, 0)) && Forest.Distinct(ShownPre(doc, c, 0))
               && (forall x :: x in ShownPre(doc, c, 0) <==> x in ShownPost(doc, c, 0))
               && forall x :: x in ShownPost(doc, c, 0) ==> BelowFrom(doc, c, 0, x)
    ensures Forest.Distinct(ShownAt(doc, c)) && Forest.Distinct(ShownPreAt(doc, c))
    ensures forall x :: x in ShownPreAt(doc, c) <==> x in ShownAt(doc, c)
    ensures forall x :: x in ShownAt(doc, c) ==> x == c || (RoleOf(doc, c).Container? && BelowFrom(doc, c, 0, x))
  {
    hide DocWellFormed, RoleOf, BelowFrom, ShownPost, ShownPre;
  }

  // ----- which nodes are missing -----

  /** Node `t` is among the displayed children of `q` and is dropped there. */
  ghost predicate DroppedFrom(doc: StyledDoc, q: NodeId, mode: WhiteSpace, t: NodeId)
    requires DocWellFormed(doc) && q < |doc.kids|
  {
    var list := Displayed(doc, doc.kids[q]);
    AllNodes(doc, list) && exists k :: 0 <= k < |list| && list[k] == t && Dropped(doc, list, mode, k)
  }

  lemma {:induction false} DisplayedDistinct(doc: StyledDoc, list: seq<NodeId>)
    requires Forest.Distinct(list)
    ensures Forest.Distinct(Displayed(doc, list))
  {
    if list != [] {
      DisplayedDistinct(doc, list[..|list| - 1]);
      assert list[|list| - 1] !in list[..|list| - 1];
    }
  }

  /** What is kept from the `k`-th displayed child on. */
  lemma {:induction false} KeptMembers(doc: StyledDoc, p: NodeId, mode: WhiteSpace, k: nat, t: NodeId)
    requires DocWellFormed(doc) && p < |doc.kids|
    ensures AllNodes(doc, Displayed(doc, doc.kids[p]))
    ensures var list := Displayed(doc, doc.kids[p]);
            t in Kept(doc, p, mode, k) <==>
            exists j :: k <= j < |list| && !Dropped(doc, list, mode, j) && t in KeptAt(doc, list[j])
    decreases |Displayed(doc, doc.kids[p])| - k
  {
    hide DocWellFormed, Dropped, KeptAt, Kept, Displayed;
    DisplayedNodes(doc, p);
    if k < |Displayed(doc, doc.kids[p])| {
      KeptStep(doc, p, mode, k);
      KeptMembers(doc, p, mode, k + 1, t);
    } else {
      KeptEnd(doc, p, mode, k);
    }
  }

  lemma KeptAtMembers(doc: StyledDoc, c: NodeId, t: NodeId)
    requires DocWellFormed(doc) && c < |doc.kids|
    ensures t in KeptAt(doc, c) <==>
            t == c || (RoleOf(doc, c).Container? && t in Kept(doc, c, RoleOf(doc, c).style.whiteSpace, 0))
    ensures !RoleOf(doc, c).Skip? ==>
              (t in ShownPreAt(doc, c) <==> t == c || (RoleOf(doc, c).Container? && t in ShownPre(doc, c, 0)))
  {
    hide DocWellFormed, RoleOf, Kept, ShownPre;
  }

  /** Whatever is kept is displayed. */
  lemma {:induction false} KeptIsShown(doc: StyledDoc, p: NodeId, mode: WhiteSpace, t: NodeId)
    requires DocWellFormed(doc) && p < |doc.kids| && t in Kept(doc, p, mode, 0)
    ensures t in ShownPre(doc, p, 0)
    decreases Depth(doc, p)
  {
    hide DocWellFormed, Dropped, Kept, RoleOf, Depth, ShownPre, KeptAt, ShownPreAt, Displayed;
    KeptMembers(doc, p, mode, 0, t);
    DisplayedNodes(doc, p);
    var list := Displayed(doc, doc.kids[p]);
    var j :| 0 <= j < |list| && t in KeptAt(doc, list[j]);
    var c := list[j];
    assert c in list;
    KeptAtMembers(doc, c, t);
    if t != c {
      KeptIsShown(doc, c, RoleOf(doc, c).style.whiteSpace, t);
    }
    ShownMembers(doc, p, 0, t);
    var i :| 0 <= i < |doc.kids[p]| && doc.kids[p][i] == c;
  }

  lemma {:induction false} ShownMembers(doc: StyledDoc, p: NodeId, k: nat, t: NodeId)
    requires DocWellFormed(doc) && p < |doc.kids|
    ensures forall i :: 0 <= i < |doc.kids[p]| ==> doc.kids[p][i] < |doc.kids|
    ensures t in ShownPre(doc, p, k) <==> exists i :: k <= i < |doc.kids[p]| && t in ShownPreAt(doc, doc.kids[p][i])
    decreases |doc.kids[p]| - k
  {
    hide DocWellFormed, ShownPreAt, ShownPre;
    KidsAreNodes(doc, p);
    if k < |doc.kids[p]| {
      ShownSteps(doc, p, k);
      ShownMembers(doc, p, k + 1, t);
    } else {
      NoneShown(doc, p, k);
    }
  }

  /** The node lies at or below the child it is displayed under. */
  lemma ShownBelow(doc: StyledDoc, c: NodeId, t: NodeId)
    requires DocWellFormed(doc) && c < |doc.kids| && t in ShownPreAt(doc, c)
    ensures t < |doc.kids| && Forest.AncestorOrSelf(doc.kids, c, t) && !RoleOf(doc, c).Skip?
  {
    hide DocWellFormed, RoleOf, ShownPre, ShownPost, Forest.AncestorOrSelf;
    if t != c {
      ShownOnce(doc, c, 0);
    }
    BranchBelow(doc, c, t);
  }

  lemma BranchBelow(doc: StyledDoc, c: NodeId, t: NodeId)
    requires DocWellFormed(doc) && c < |doc.kids| && (t == c || BelowFrom(doc, c, 0, t))
    ensures t < |doc.kids| && Forest.AncestorOrSelf(doc.kids, c, t)
  {
    hide Forest.AncestorOrSelf;
    var rank, bound := Traverse.SomeRank(doc.kids), Traverse.SomeBound(doc.kids);
    Traverse.BelowInRange(doc.kids, rank, bound, c, 0);
    Traverse.BelowMembers(doc.kids, rank, bound, c, 0, t);
    Traverse.BranchMembers(doc.kids, c, t);
  }

  /** A node is displayed under one child only, and not under its own container's child. */
  lemma OneBranch(doc: StyledDoc, p: NodeId, c: NodeId, d: NodeId, t: NodeId)
    requires DocWellFormed(doc) && p < |doc.kids| && c in doc.kids[p] && d in doc.kids[p]
    requires c < |doc.kids| && d < |doc.kids| && t in ShownPreAt(doc, c)
    ensures t in ShownPreAt(doc, d) ==> c == d
    ensures t != p
  {
    hide Forest.AncestorOrSelf, ShownPreAt;
    ShownBelow(doc, c, t);
    Forest.NoSelfAncestor(doc.kids, Traverse.SomeRank(doc.kids), c, p, c);
    if t in ShownPreAt(doc, d) {
      ShownBelow(doc, d, t);
      var i :| 0 <= i < |doc.kids[p]| && doc.kids[p][i] == c;
      var j :| 0 <= j < |doc.kids[p]| && doc.kids[p][j] == d;
      Traverse.SiblingsDisjoint(doc.kids, Traverse.SomeRank(doc.kids), p, i, j, t);
    }
  }

  /** The white-space mode of a container: its own, or for `p` the one given. */
  function ModeOf(doc: StyledDoc, p: NodeId, mode: WhiteSpace, q: NodeId): WhiteSpace {
    if q != p && RoleOf(doc, q).Container? then RoleOf(doc, q).style.whiteSpace else mode
  }

  /** The only child a node displayed below `p` can be kept under. */
  lemma KeptUnder(doc: StyledDoc, p: NodeId, mode: WhiteSpace, t: NodeId) returns (k: nat)
    requires DocWellFormed(doc) && p < |doc.kids| && t in ShownPre(doc, p, 0)
    ensures var list := Displayed(doc, doc.kids[p]);
            && AllNodes(doc, list) && k < |list| && list[k] in doc.kids[p] && Depth(doc, list[k]) < Depth(doc, p)
            && t in ShownPreAt(doc, list[k])
            && (t in Kept(doc, p, mode, 0) <==> !Dropped(doc, list, mode, k) && t in KeptAt(doc, list[k]))
  {
    hide DocWellFormed, Dropped, Kept, RoleOf, Depth, ShownPre, KeptAt, ShownPreAt;
    ShownMembers(doc, p, 0, t);
    var i :| 0 <= i < |doc.kids[p]| && t in ShownPreAt(doc, doc.kids[p][i]);
    var c := doc.kids[p][i];
    ShownBelow(doc, c, t);
    DisplayedNodes(doc, p);
    var list := Displayed(doc, doc.kids[p]);
    assert c in list;
    k :| 0 <= k < |list| && list[k] == c;
    KeptMembers(doc, p, mode, 0, t);
    KidsOnce(doc, p);
    forall j | 0 <= j < |list| && t in KeptAt(doc, list[j]) ensures j == k {
      assert list[j] in list;
      KeptAtMembers(doc, list[j], t);
      if t != list[j] {
        KeptIsShown(doc, list[j], RoleOf(doc, list[j]).style.whiteSpace, t);
      }
      OneBranch(doc, p, c, list[j], t);
    }
  }

  lemma KidsOnce(doc: StyledDoc, p: NodeId)
    requires DocWellFormed(doc) && p < |doc.kids|
    ensures var list := Displayed(doc, doc.kids[p]);
            forall i, j :: 0 <= i < |list| && 0 <= j < |list| && list[i] == list[j] ==> i == j
  {
    DisplayedDistinct(doc, doc.kids[p]);
  }

  /** A container is never dropped. */
  lemma ContainersStay(doc: StyledDoc, list: seq<NodeId>, mode: WhiteSpace, k: nat)
    requires DocWellFormed(doc) && AllNodes(doc, list) && k < |list| && RoleOf(doc, list[k]).Container?
    ensures !Dropped(doc, list, mode, k)
  {
    hide DocWellFormed, IsBlockNode;
    assert !BlankChild(doc, list[k], mode);
  }

  /**
   * Which displayed nodes have no place in the tree: those dropped from among their
   * parent's displayed children, and no others.
   */
  lemma {:induction false} MissingExactly(doc: StyledDoc, p: NodeId, mode: WhiteSpace, t: NodeId) returns (q: NodeId)
    requires DocWellFormed(doc) && p < |doc.kids| && t in ShownPre(doc, p, 0)
    ensures q < |doc.kids| && t in doc.kids[q] && (q == p || (q in ShownPre(doc, p, 0) && RoleOf(doc, q).Container?))
    ensures t !in Kept(doc, p, mode, 0) <==> DroppedFrom(doc, q, ModeOf(doc, p, mode, q), t)
    decreases Depth(doc, p)
  {
    hide DocWellFormed, Dropped, Kept, RoleOf, Depth, ShownPre, KeptAt, ShownPreAt, Displayed, AllNodes;
    var list := Displayed(doc, doc.kids[p]);
    var k := KeptUnder(doc, p, mode, t);
    DisplayedNodes(doc, p);
    var c := list[k];
    KidsAreNodes(doc, p);
    KeptAtMembers(doc, c, t);
    ShownBelow(doc, c, t);
    if t == c {
      q := p;
      KidsOnce(doc, p);
    } else {
      ContainersStay(doc, list, mode, k);
      q := MissingExactly(doc, c, RoleOf(doc, c).style.whiteSpace, t);
      KeptAtMembers(doc, c, q);
      KeptAtMembers(doc, c, c);
      ShownMembers(doc, p, 0, q);
      var i :| 0 <= i < |doc.kids[p]| && doc.kids[p][i] == c;
      OneBranch(doc, p, c, c, q);
    }
  }

  /** What is kept at or below a displayed child is displayed there. */
  lemma KeptAtIsShown(doc: StyledDoc, c: NodeId, t: NodeId)
    requires DocWellFormed(doc) && c < |doc.kids| && !RoleOf(doc, c).Skip? && t in KeptAt(doc, c)
    ensures t in ShownPreAt(doc, c)
  {
    hide DocWellFormed, RoleOf, Kept, KeptAt, ShownPre, ShownPreAt;
    KeptAtMembers(doc, c, t);
    if t != c {
      KeptIsShown(doc, c, RoleOf(doc, c).style.whiteSpace, t);
    }
  }

  /** Nothing kept at the `k`-th displayed child is kept at a later one. */
  lemma KeptApart(doc: StyledDoc, p: NodeId, mode: WhiteSpace, k: nat)
    requires DocWellFormed(doc) && p < |doc.kids| && k < |Displayed(doc, doc.kids[p])|
    ensures var c := Displayed(doc, doc.kids[p])[k];
            c < |doc.kids| && forall t :: t in KeptAt(doc, c) ==> t !in Kept(doc, p, mode, k + 1)
  {
    hide DocWellFormed, Dropped, Kept, KeptAt, RoleOf, ShownPreAt, Displayed, Depth;
    DisplayedNodes(doc, p);
    ListedShown(doc, p);
    KidsOnce(doc, p);
    var list := Displayed(doc, doc.kids[p]);
    var c := list[k];
    forall t | t in KeptAt(doc, c) ensures t !in Kept(doc, p, mode, k + 1) {
      KeptMembers(doc, p, mode, k + 1, t);
      if j :| k + 1 <= j < |list| && t in KeptAt(doc, list[j]) {
        KeptAtIsShown(doc, c, t);
        KeptAtIsShown(doc, list[j], t);
        OneBranch(doc, p, c, list[j], t);
      }
    }
  }

  lemma ListedShown(doc: StyledDoc, p: NodeId)
    requires DocWellFormed(doc) && p < |doc.kids|
    ensures var list := Displayed(doc, doc.kids[p]);
            forall i :: 0 <= i < |list| ==> list[i] in doc.kids[p] && !RoleOf(doc, list[i]).Skip?
  {
    var list := Displayed(doc, doc.kids[p]);
    forall i | 0 <= i < |list| ensures list[i] in doc.kids[p] && !RoleOf(doc, list[i]).Skip? {
      assert list[i] in list;
    }
  }

  lemma KeptAtOnce(doc: StyledDoc, c: NodeId)
    requires DocWellFormed(doc) && c < |doc.kids|
    requires RoleOf(doc, c).Container? ==>
               var below := Kept(doc, c, RoleOf(doc, c).style.whiteSpace, 0); Forest.Distinct(below) && c !in below
    ensures Forest.Distinct(KeptAt(doc, c))
  {
    hide DocWellFormed, Kept, RoleOf;
  }

  /** No node is kept twice, nor below itself. */
  lemma {:induction false} KeptOnce(doc: StyledDoc, p: NodeId, mode: WhiteSpace, k: nat)
    requires DocWellFormed(doc) && p < |doc.kids|
    ensures Forest.Distinct(Kept(doc, p, mode, k)) && p !in Kept(doc, p, mode, 0)
    decreases Depth(doc, p), |Displayed(doc, doc.kids[p])| - k
  {
    hide DocWellFormed, Dropped, Kept, KeptAt, RoleOf, Displayed, Depth, Forest.Distinct, ShownPre;
    NotBelowItself(doc, p, mode);
    var list := Displayed(doc, doc.kids[p]);
    if k < |list| {
      DisplayedNodes(doc, p);
      KeptStep(doc, p, mode, k);
      KeptOnce(doc, p, mode, k + 1);
      var c := list[k];
      if RoleOf(doc, c).Container? {
        KeptOnce(doc, c, RoleOf(doc, c).style.whiteSpace, 0);
      }
      KeptAtOnce(doc, c);
      KeptApart(doc, p, mode, k);
      Traverse.ConcatDistinct(KeptAt(doc, c), Kept(doc, p, mode, k + 1));
      assert [] + Kept(doc, p, mode, k + 1) == Kept(doc, p, mode, k + 1);
    } else {
      KeptEnd(doc, p, mode, k);
      NoneDistinct();
    }
  }

  lemma NoneDistinct()
    ensures Forest.Distinct([])
  {
  }

  lemma NotBelowItself(doc: StyledDoc, p: NodeId, mode: WhiteSpace)
    requires DocWellFormed(doc) && p < |doc.kids|
    ensures p !in Kept(doc, p, mode, 0)
  {
    hide DocWellFormed, Kept, ShownPre, ShownPost, BelowFrom;
    if p in Kept(doc, p, mode, 0) {
      KeptIsShown(doc, p, mode, p);
      ShownOnce(doc, p, 0);
      RootOnce(doc, p);
    }
  }

  // ----- the whole tree -----

  /**
   * Every displayed node has exactly one box, and reading the tree gives, each once and
   * in document order, the displayed nodes that are not dropped.
   */
  lemma BoxesFollowDocument(doc: StyledDoc)
    requires DocWellFormed(doc) && GenTree(doc) != EMPTY_TREE
    ensures var root := RootElement(doc, doc.kids[Forest.ROOT]).value;
            var tree := GenTree(doc);
            && root < |doc.kids| && BoxTrees.WellFormed(tree)
            && ArenaNodes(tree.boxes) == ShownPost(doc, root, 0) + [root]
            && Forest.Distinct(ArenaNodes(tree.boxes))
            && (forall t :: t in ArenaNodes(tree.boxes) <==> t in [root] + ShownPre(doc, root, 0))
            && TreeNodes(tree.boxes, tree.root) == [root] + Kept(doc, root, RootStyle(doc, root).whiteSpace, 0)
            && Forest.Distinct(TreeNodes(tree.boxes, tree.root))
  {
    hide GenBox, Sound, Kept, TreeNodes, ShownPost, ShownPre, ArenaNodes, BoxTrees.WellFormed, RootStyle;
    var root := RootElement(doc, doc.kids[Forest.ROOT]).value;
    var style := RootStyle(doc, root);
    GeneratedTreeIsSound(doc);
    NoBoxes();
    BoxNodes(doc, root, style, style.display.Inline?, []);
    BoxTreeOrder(doc, root, style, style.display.Inline?, []);
    assert [] + ShownPost(doc, root, 0) + [root] == ShownPost(doc, root, 0) + [root];
    assert ArenaNodes([]) == [] by { NoNodes(); }
    ShownOnce(doc, root, 0);
    RootOnce(doc, root);
    Traverse.ConcatDistinct(ShownPost(doc, root, 0), [root]);
    KeptOnce(doc, root, style.whiteSpace, 0);
    Traverse.ConcatDistinct([root], Kept(doc, root, style.whiteSpace, 0));
  }

  lemma NoNodes()
    ensures ArenaNodes([]) == []
  {
  }

  lemma RootOnce(doc: StyledDoc, root: NodeId)
    requires DocWellFormed(doc) && root < |doc.kids|
    ensures !BelowFrom(doc, root, 0, root)
  {
    Traverse.BelowOwn(doc.kids, Traverse.SomeRank(doc.kids), Traverse.SomeBound(doc.kids), root);
  }

  /**
   * A text-only run in `normal` mode is dropped exactly when its text, threaded from a block start,
   * comes out empty.
   */
  lemma RunDroppedExactlyWhenEmpty(doc: StyledDoc, boxes: seq<LayoutBox>, run: seq<BoxId>)
    requires run != []
    requires forall i :: 0 <= i < |run| ==>
               run[i] < |boxes| && boxes[run[i]].kind.InlineText? && boxes[run[i]].style.whiteSpace.Normal?
    ensures BlankRun(doc, boxes, run) <==> Threaded(RunTexts(doc, boxes, run), true).text == ""
  {
    ThreadedIsWhole(RunTexts(doc, boxes, run), true);
    EmptyExactlyWhenCollapsible(Joined(RunTexts(doc, boxes, run)), false);
    JoinedBlank(doc, boxes, run);
  }

  function RunTexts(doc: StyledDoc, boxes: seq<LayoutBox>, run: seq<BoxId>): seq<string>
    requires forall i :: 0 <= i < |run| ==> run[i] < |boxes| && boxes[run[i]].kind.InlineText?
  {
    if run == [] then [] else [TextOf(doc, boxes[run[0]].kind.text)] + RunTexts(doc, boxes, run[1..])
  }

  lemma {:induction false} JoinedBlank(doc: StyledDoc, boxes: seq<LayoutBox>, run: seq<BoxId>)
    requires forall i :: 0 <= i < |run| ==> run[i] < |boxes| && boxes[run[i]].kind.InlineText?
    ensures AllCollapsible(Joined(RunTexts(doc, boxes, run)))
            <==> forall i :: 0 <= i < |run| ==> AllCollapsible(TextOf(doc, boxes[run[i]].kind.text))
  {
    if run != [] {
      JoinedBlank(doc, boxes, run[1..]);
      var first, rest := TextOf(doc, boxes[run[0]].kind.text), Joined(RunTexts(doc, boxes, run[1..]));
      BlankConcat(first, rest);
      assert RunTexts(doc, boxes, run)[1..] == RunTexts(doc, boxes, run[1..]);
      assert (forall i :: 0 <= i < |run| ==> AllCollapsible(TextOf(doc, boxes[run[i]].kind.text)))
        <==> AllCollapsible(first) && forall i :: 0 <= i < |run[1..]| ==>
            AllCollapsible(TextOf(doc, boxes[run[1..][i]].kind.text));
    }
  }

  lemma BlankConcat(a: string, b: string)
    ensures AllCollapsible(a + b) <==> AllCollapsible(a) && AllCollapsible(b)
  {
    if AllCollapsible(a + b) {
      assert forall i :: 0 <= i < |a| ==> a[i] == (a + b)[i];
      assert forall i :: 0 <= i < |b| ==> b[i] == (a + b)[|a| + i];
    }
  }
}
