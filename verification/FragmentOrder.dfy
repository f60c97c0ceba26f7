/**
 * The order of a laid-out arena: every fragment's subtree is one stretch without a
 * gap, its children's stretches in order, ending at the fragment itself.
 */
module FragmentOrder {
  import opened AppUnits
  import opened Geometry
  import opened Styles
  import opened Wrappers
  import opened BoxTrees
  import opened BoxModels
  import opened LayoutContext
  import opened Fragments
  import opened BlockFlow

  predicate ChildrenFirst(fragments: seq<Fragment>) {
    forall i, k :: 0 <= i < |fragments| && 0 <= k < |fragments[i].children| ==> fragments[i].children[k] < i
  }

  /** The first id at or below a fragment. */
  function Low(fragments: seq<Fragment>, id: FragmentId): (r: FragmentId)
    requires ChildrenFirst(fragments) && id < |fragments|
    ensures r <= id
    decreases id
  {
    if fragments[id].children == [] then id else Low(fragments, fragments[id].children[0])
  }

  /** Every subtree ends at its root, and the subtrees of siblings follow one another without overlap. */
  predicate PostOrdered(fragments: seq<Fragment>) {
    && ChildrenFirst(fragments)
    && forall i, k :: 0 <= i < |fragments| && 0 < k < |fragments[i].children| ==>
         fragments[i].children[k - 1] < Low(fragments, fragments[i].children[k])
  }

  /** The subtrees of `ids` fill `[lo, hi)`: each starts where the one before it ended. */
  predicate Chain(fragments: seq<Fragment>, ids: seq<FragmentId>, lo: nat, hi: nat)
    requires ChildrenFirst(fragments)
  {
    && (forall k :: 0 <= k < |ids| ==> lo <= ids[k] < |fragments|)
    && (forall k :: 0 < k < |ids| ==> Low(fragments, ids[k]) == ids[k - 1] + 1)
    && (if ids == [] then lo == hi else Low(fragments, ids[0]) == lo && ids[|ids| - 1] + 1 == hi)
  }

  /** Every subtree is a stretch, and nothing lies in it but the subtree. */
  predicate Packed(fragments: seq<Fragment>) {
    && ChildrenFirst(fragments)
    && forall i :: 0 <= i < |fragments| ==> Chain(fragments, fragments[i].children, Low(fragments, i), i)
  }

  lemma PackedIsPostOrdered(fragments: seq<Fragment>)
    requires Packed(fragments)
    ensures PostOrdered(fragments)
  {
    hide Low;
    forall i, k | 0 <= i < |fragments| && 0 < k < |fragments[i].children|
      ensures fragments[i].children[k - 1] < Low(fragments, fragments[i].children[k])
    {
      assert Chain(fragments, fragments[i].children, Low(fragments, i), i);
    }
  }

  /** Fragment `i` is `root` or hangs somewhere below it. */
  ghost predicate Reaches(fragments: seq<Fragment>, root: FragmentId, i: FragmentId)
    requires ChildrenFirst(fragments) && root < |fragments|
    decreases root
  {
    i == root || exists k :: 0 <= k < |fragments[root].children| && Reaches(fragments, fragments[root].children[k], i)
  }

  /** In a packed arena a subtree is exactly the stretch from its lowest id to its root. */
  lemma {:induction false} SubtreeIsStretch(fragments: seq<Fragment>, root: FragmentId, i: FragmentId)
    requires Packed(fragments) && root < |fragments|
    ensures Reaches(fragments, root, i) <==> Low(fragments, root) <= i <= root
    decreases root
  {
    hide Packed, Low;
    PackedAt(fragments, root);
    var children := fragments[root].children;
    forall k | 0 <= k < |children|
      ensures Reaches(fragments, children[k], i) <==> Low(fragments, children[k]) <= i <= children[k]
      ensures Low(fragments, root) <= Low(fragments, children[k])
    {
      SubtreeIsStretch(fragments, children[k], i);
      if k > 0 {
        assert Low(fragments, root) <= children[k - 1];
      } else {
        LowFirst(fragments, root);
      }
    }
    if Low(fragments, root) <= i < root {
      var k := StretchOf(fragments, children, Low(fragments, root), root, i, |children|);
      assert Reaches(fragments, children[k], i);
    }
  }

  /** The fragments at and below `root` are exactly those of `[lo, root]`. */
  ghost predicate IsStretch(fragments: seq<Fragment>, root: FragmentId, lo: nat)
    requires ChildrenFirst(fragments) && root < |fragments|
  {
    forall i: nat :: Reaches(fragments, root, i) <==> lo <= i <= root
  }

  lemma SubtreesAreStretches(fragments: seq<Fragment>, root: FragmentId)
    requires Packed(fragments) && root < |fragments|
    ensures IsStretch(fragments, root, Low(fragments, root))
  {
    hide Packed, Low, Reaches, ChildrenFirst;
    PackedAt(fragments, root);
    forall i: nat ensures Reaches(fragments, root, i) <==> Low(fragments, root) <= i <= root {
      SubtreeIsStretch(fragments, root, i);
    }
  }

  lemma LowFirst(fragments: seq<Fragment>, id: FragmentId)
    requires ChildrenFirst(fragments) && id < |fragments| && fragments[id].children != []
    ensures Low(fragments, id) == Low(fragments, fragments[id].children[0])
  {
  }

  lemma PackedAt(fragments: seq<Fragment>, i: FragmentId)
    requires Packed(fragments) && i < |fragments|
    ensures ChildrenFirst(fragments) && Chain(fragments, fragments[i].children, Low(fragments, i), i)
  {
  }

  /** Every id of a chain's stretch lies in the subtree of one of its members. */
  lemma {:induction false} StretchOf(fragments: seq<Fragment>, ids: seq<FragmentId>, lo: nat, hi: nat, i: nat, n: nat)
    returns (k: nat)
    requires ChildrenFirst(fragments) && Chain(fragments, ids, lo, hi) && 0 < n <= |ids| && lo <= i <= ids[n - 1]
    ensures k < |ids| && Low(fragments, ids[k]) <= i <= ids[k]
  {
    hide Low;
    if n == 1 || ids[n - 2] < i {
      k := n - 1;
    } else {
      k := StretchOf(fragments, ids, lo, hi, i, n - 1);
    }
  }

  // ----- growing an arena -----

  /** `b` continues `a`: the old child lists are kept, and new fragments only list new ones. */
  predicate Grows(a: seq<Fragment>, b: seq<Fragment>) {
    && |a| <= |b| && ChildrenFirst(a) && Packed(b)
    && (forall i :: 0 <= i < |a| ==> b[i].children == a[i].children)
    && (forall i, k :: |a| <= i < |b| && 0 <= k < |b[i].children| ==> |a| <= b[i].children[k])
  }

  /** The subtrees of `ids` are everything from `base` on. */
  predicate Listed(fragments: seq<Fragment>, ids: seq<FragmentId>, base: nat)
    requires ChildrenFirst(fragments)
  {
    Chain(fragments, ids, base, |fragments|)
  }

  lemma {:induction false} LowKept(a: seq<Fragment>, b: seq<Fragment>, id: FragmentId)
    requires ChildrenFirst(a) && ChildrenFirst(b) && id < |a| <= |b|
    requires forall i :: 0 <= i < |a| ==> b[i].children == a[i].children
    ensures Low(b, id) == Low(a, id)
    decreases id
  {
    if a[id].children != [] {
      LowKept(a, b, a[id].children[0]);
    }
  }

  lemma ChainKept(a: seq<Fragment>, b: seq<Fragment>, ids: seq<FragmentId>, lo: nat, hi: nat)
    requires ChildrenFirst(a) && ChildrenFirst(b) && |a| <= |b|
    requires forall i :: 0 <= i < |a| ==> b[i].children == a[i].children
    requires Chain(a, ids, lo, hi)
    ensures Chain(b, ids, lo, hi)
  {
    hide Low;
    forall k | 0 <= k < |ids| ensures Low(b, ids[k]) == Low(a, ids[k]) {
      LowKept(a, b, ids[k]);
    }
  }

  lemma GrowsRefl(a: seq<Fragment>)
    requires Packed(a)
    ensures Grows(a, a)
  {
  }

  lemma GrowsTrans(a: seq<Fragment>, b: seq<Fragment>, c: seq<Fragment>)
    requires Grows(a, b) && Grows(b, c)
    ensures Grows(a, c)
  {
    hide Packed;
  }

  lemma GrowsFacts(a: seq<Fragment>, b: seq<Fragment>)
    requires Grows(a, b)
    ensures Packed(b) && ChildrenFirst(b) && ChildrenFirst(a) && |a| <= |b|
    ensures forall i :: 0 <= i < |a| ==> b[i].children == a[i].children
  {
  }

  /** One more subtree that is all that was added. */
  lemma ListedAdd(a: seq<Fragment>, b: seq<Fragment>, ids: seq<FragmentId>, base: nat)
    requires Grows(a, b) && |a| < |b| && base <= |a| && Listed(a, ids, base) && Low(b, |b| - 1) == |a|
    ensures ChildrenFirst(b) && Listed(b, ids + [|b| - 1], base)
  {
    hide Grows, Low, Packed;
    GrowsFacts(a, b);
    ChainKept(a, b, ids, base, |a|);
  }

  /** Pushing a fragment over a list that is everything from `base` on. */
  lemma GrowsPush(a0: seq<Fragment>, a: seq<Fragment>, f: Fragment, base: nat)
    requires Grows(a0, a) && |a0| <= base && Listed(a, f.children, base)
    ensures Grows(a0, a + [f]) && Low(a + [f], |a|) == base
  {
    hide Low, Chain;
    var b := a + [f];
    ListBounds(a, f.children, base);
    assert ChildrenFirst(b);
    PushLow(a, f, base);
    ChainKept(a, b, f.children, base, |a|);
    forall i | 0 <= i < |b| ensures Chain(b, b[i].children, Low(b, i), i) {
      if i < |a| {
        LowKept(a, b, i);
        ChainKept(a, b, a[i].children, Low(a, i), i);
      }
    }
  }

  lemma ListBounds(a: seq<Fragment>, ids: seq<FragmentId>, base: nat)
    requires ChildrenFirst(a) && Listed(a, ids, base)
    ensures forall k :: 0 <= k < |ids| ==> base <= ids[k] < |a|
  {
  }

  lemma PushLow(a: seq<Fragment>, f: Fragment, base: nat)
    requires ChildrenFirst(a) && ChildrenFirst(a + [f]) && Listed(a, f.children, base)
    ensures Low(a + [f], |a|) == base
  {
    if f.children != [] {
      LowKept(a, a + [f], f.children[0]);
    }
  }

  /** A rewrite that leaves every child list alone. */
  lemma GrowsMoved(a0: seq<Fragment>, a: seq<Fragment>, b: seq<Fragment>)
    requires Grows(a0, a) && |b| == |a| && forall i :: 0 <= i < |a| ==> b[i].children == a[i].children
    ensures Grows(a0, b) && forall i :: 0 <= i < |a| ==> Low(b, i) == Low(a, i)
  {
    hide Low, Chain;
    assert ChildrenFirst(b);
    forall i | 0 <= i < |b| ensures Chain(b, b[i].children, Low(b, i), i) && Low(b, i) == Low(a, i) {
      LowKept(a, b, i);
      ChainKept(a, b, a[i].children, Low(a, i), i);
    }
  }

  lemma {:induction false} PiecesGrow(a0: seq<Fragment>, a: Arena, line: LineBox, origin: Point, lineTop: Au,
                                      style: LayoutStyle, n: nat)
    requires Grows(a0, a.fragments) && n <= |line.pieces|
    ensures var r := WithPieces(a, line, origin, lineTop, style, n).fragments;
            && Grows(a0, r) && |r| == |a.fragments| + n
            && forall i :: |a.fragments| <= i < |r| ==> r[i].children == []
  {
    hide Grows, TranslateAll, RunsWidth, Low;
    GrowsFacts(a0, a.fragments);
    if n > 0 {
      PiecesGrow(a0, a, line, origin, lineTop, style, n - 1);
      var before := WithPieces(a, line, origin, lineTop, style, n - 1).fragments;
      GrowsFacts(a0, before);
      var after := WithPieces(a, line, origin, lineTop, style, n).fragments;
      assert after == before + [after[|before|]] && after[|before|].children == [];
      GrowsPush(a0, before, after[|before|], |before|);
    }
  }

  lemma PiecesListed(fragments: seq<Fragment>, base: nat, n: nat)
    requires ChildrenFirst(fragments) && base + n == |fragments|
    requires forall i :: base <= i < |fragments| ==> fragments[i].children == []
    ensures Listed(fragments, Range(base, n), base)
  {
    forall k | 0 <= k < n ensures Low(fragments, Range(base, n)[k]) == base + k {
      assert fragments[base + k].children == [];
    }
  }

  lemma LineGrows(a: Arena, line: LineBox, origin: Point, width: Au, style: LayoutStyle, cursor: Au)
    requires Packed(a.fragments)
    ensures var r := WithLine(a, line, origin, width, style, cursor).fragments;
            Grows(a.fragments, r) && |r| > |a.fragments| && Low(r, |r| - 1) == |a.fragments|
  {
    hide Grows, WithPieces, Packed, Listed, Low;
    var lineTop := SatAdd(origin.y, cursor);
    GrowsRefl(a.fragments);
    PiecesGrow(a.fragments, a, line, origin, lineTop, style, |line.pieces|);
    var pieces := WithPieces(a, line, origin, lineTop, style, |line.pieces|).fragments;
    GrowsFacts(a.fragments, pieces);
    PiecesListed(pieces, |a.fragments|, |line.pieces|);
    var after := WithLine(a, line, origin, width, style, cursor).fragments;
    assert after == pieces + [after[|pieces|]];
    GrowsPush(a.fragments, pieces, after[|pieces|], |a.fragments|);
    GrowsFacts(a.fragments, after);
  }

  lemma {:induction false} LinesGrow(a: Arena, lines: seq<LineBox>, origin: Point, width: Au, style: LayoutStyle,
                                     n: nat)
    requires Packed(a.fragments) && n <= |lines|
    ensures var r := WithLines(a, lines, origin, width, style, n);
            && Grows(a.fragments, r.arena.fragments) && ChildrenFirst(r.arena.fragments)
            && Listed(r.arena.fragments, r.ids, |a.fragments|)
  {
    hide Grows, WithLine, Packed, Listed, ChildrenFirst, Low;
    if n == 0 {
      GrowsRefl(a.fragments);
      NothingListed(a.fragments);
    } else {
      LinesGrow(a, lines, origin, width, style, n - 1);
      var before := WithLines(a, lines, origin, width, style, n - 1);
      GrowsFacts(a.fragments, before.arena.fragments);
      LineGrows(before.arena, lines[n - 1], origin, width, style, before.height);
      var after := WithLine(before.arena, lines[n - 1], origin, width, style, before.height).fragments;
      GrowsFacts(before.arena.fragments, after);
      ListedAdd(before.arena.fragments, after, before.ids, |a.fragments|);
      GrowsTrans(a.fragments, before.arena.fragments, after);
    }
  }

  lemma NothingListed(fragments: seq<Fragment>)
    requires Packed(fragments)
    ensures ChildrenFirst(fragments) && Listed(fragments, [], |fragments|)
  {
  }

  /** Closing a box over everything from `|a0|` on: its subtree is that stretch and its own fragment. */
  lemma CloseGrows(env: Env, node: Option<NodeId>, anonymous: bool, style: LayoutStyle, p: ChildPlacement,
                   contentHeight: Au, start: nat, childIds: seq<FragmentId>, a0: seq<Fragment>, a: Arena)
    requires Grows(a0, a.fragments) && ChildrenFirst(a.fragments) && Listed(a.fragments, childIds, |a0|)
    ensures var r := CloseBox(env, node, anonymous, style, p, contentHeight, start, childIds, a);
            Grows(a0, r.arena.fragments) && Low(r.arena.fragments, r.id) == |a0|
  {
    hide Grows, Listed, Inset, BorderBoxSize, ResolveOffset, Low;
    var pushed := PushBox(node, anonymous, style, p, contentHeight, childIds, a).fragments;
    assert pushed == a.fragments + [pushed[|a.fragments|]] && pushed[|a.fragments|].children == childIds;
    GrowsPush(a0, a.fragments, pushed[|a.fragments|], |a0|);
    var r := CloseBox(env, node, anonymous, style, p, contentHeight, start, childIds, a).arena.fragments;
    GrowsMoved(a0, pushed, r);
    GrowsFacts(a0, r);
  }

  lemma LeafGrows(env: Env, box: LayoutBox, p: ChildPlacement, a: Arena)
    requires Packed(a.fragments)
    ensures var r := LayLeaf(env, box, p, a);
            Grows(a.fragments, r.arena.fragments) && Low(r.arena.fragments, r.id) == |a.fragments|
  {
    hide Grows, Listed, Packed, CloseBox, WithLines, ChildrenFirst, Low;
    var content := LeafContent(env, box, p, a);
    GrowsRefl(a.fragments);
    NothingListed(a.fragments);
    if box.children != [] && env.shape(box.children, InheritedTextStyle(box.style), p.model.contentWidth).Ok? {
      var lines := env.shape(box.children, InheritedTextStyle(box.style), p.model.contentWidth).value;
      LinesGrow(a, lines, ContentOrigin(p.origin, p.model), p.model.contentWidth, box.style, |lines|);
    }
    CloseGrows(env, box.node, box.kind.AnonymousBlock?, box.style, p, LeafHeight(p, content.height), |a.fragments|,
               content.ids, a.fragments, content.arena);
  }

  /** What laying one box adds is a packed stretch, all of it below the box's own fragment. */
  lemma {:induction false} BoxGrows(env: Env, id: BoxId, p: ChildPlacement, a: Arena)
    requires WellFormed(env.tree) && id < |env.tree.boxes| && Packed(a.fragments)
    ensures var r := LayBox(env, id, p, a);
            && Grows(a.fragments, r.arena.fragments) && |a.fragments| <= r.id == |r.arena.fragments| - 1
            && Low(r.arena.fragments, r.id) == |a.fragments|
    decreases id, 1, 0
  {
    hide UniqueParents, Homogeneous, LayLeaf, CloseBox, Grows, Listed, Packed, PlaceChild, Low;
    var box := env.tree.boxes[id];
    if IsBlockContainer(env.tree.boxes, id) {
      var f := OpenFrame(box, p, |a.fragments|);
      GrowsRefl(a.fragments);
      NothingListed(a.fragments);
      ChildrenGrow(env, id, f, a.fragments, a);
      var done := LayChildren(env, id, f, a);
      GrowsFacts(a.fragments, done.arena.fragments);
      var g := done.frame;
      CloseGrows(env, g.node, g.anonymous, g.style, g.place, ContainerHeight(g), g.fragStart, g.childIds,
                 a.fragments, done.arena);
    } else {
      LeafGrows(env, box, p, a);
    }
  }

  lemma {:induction false} ChildrenGrow(env: Env, id: BoxId, f: Frame, a0: seq<Fragment>, a: Arena)
    requires WellFormed(env.tree) && id < |env.tree.boxes| && f.blockChildren == env.tree.boxes[id].children
    requires Grows(a0, a.fragments) && ChildrenFirst(a.fragments) && Listed(a.fragments, f.childIds, |a0|)
    ensures var r := LayChildren(env, id, f, a);
            && Grows(a0, r.arena.fragments) && ChildrenFirst(r.arena.fragments)
            && Listed(r.arena.fragments, r.frame.childIds, |a0|)
            && Grows(a.fragments, r.arena.fragments)
    decreases id, 0, |f.blockChildren| - f.nextChild
  {
    hide UniqueParents, Homogeneous, LayBox, Grows, Listed, Packed, PlaceChild, ChildrenFirst, Low;
    GrowsFacts(a0, a.fragments);
    if f.nextChild < |f.blockChildren| {
      var c := f.blockChildren[f.nextChild];
      var p := PlaceChild(env, f, c);
      var laid := LayBox(env, c, p, a);
      BoxGrows(env, c, p, a);
      GrowsFacts(a.fragments, laid.arena.fragments);
      ListedAdd(a.fragments, laid.arena.fragments, f.childIds, |a0|);
      GrowsTrans(a0, a.fragments, laid.arena.fragments);
      ChildrenGrow(env, id, Receive(f.(nextChild := f.nextChild + 1), p, laid), a0, laid.arena);
      GrowsTrans(a.fragments, laid.arena.fragments, LayChildren(env, id, f, a).arena.fragments);
    } else {
      GrowsRefl(a.fragments);
    }
  }

  lemma NothingPacked()
    ensures Packed([])
  {
  }

  /** Every laid-out arena is packed, and its last fragment, the root's, reaches all of it. */
  lemma LayoutPacked(env: Env)
    requires WellFormed(env.tree)
    ensures var r := LayRoot(env);
            && Packed(r.arena.fragments) && ChildrenFirst(r.arena.fragments) && r.id == |r.arena.fragments| - 1
            && Low(r.arena.fragments, r.id) == 0 && IsStretch(r.arena.fragments, r.id, 0)
  {
    hide UniqueParents, Homogeneous, LayLeaf, CloseBox, Grows, Listed, PlaceChild, RootPlacement, Low, Packed,
         IsStretch;
    var root := env.tree.root;
    NothingPacked();
    GrowsRefl([]);
    NothingListed([]);
    if IsBlockContainer(env.tree.boxes, root) {
      ChildrenGrow(env, root, RootFrame(env), [], EMPTY_ARENA);
      var done := LayChildren(env, root, RootFrame(env), EMPTY_ARENA);
      var g := done.frame;
      CloseGrows(env, g.node, g.anonymous, g.style, g.place, ContainerHeight(g), g.fragStart, g.childIds, [],
                 done.arena);
    } else {
      LeafGrows(env, env.tree.boxes[root], RootPlacement(env), EMPTY_ARENA);
    }
    var r := LayRoot(env);
    GrowsFacts([], r.arena.fragments);
    SubtreesAreStretches(r.arena.fragments, r.id);
  }
}
