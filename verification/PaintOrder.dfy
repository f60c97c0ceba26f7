/**
 * Painting a tree in document order: the bounded stack walk against plain
 * recursion, on the arenas layout produces.
 */
module PaintOrder {
  import opened Styles
  import opened Wrappers
  import opened Sequences
  import opened LayoutContext
  import opened Fragments
  import opened FragmentOrder
  import opened DisplayLists
  import opened PaintBuild

  // ----- plain recursion -----

  /** A fragment's own items, its clip, its children in order, and the end of its clip. */
  function PaintTree(tree: FragmentTree, suppressed: Option<FragmentId>, lens: Lens, id: FragmentId): seq<DisplayItem>
    requires ChildrenFirst(tree.fragments) && id < |tree.fragments|
    decreases id, 1, 0
  {
    EnterItems(tree, suppressed, lens, id) + PaintChildren(tree, suppressed, lens, id, 0) +
    if Clips(tree.StyleOf(tree.fragments[id])) then [PopClip] else []
  }

  function PaintChildren(tree: FragmentTree, suppressed: Option<FragmentId>, lens: Lens, id: FragmentId,
                         k: nat): seq<DisplayItem>
    requires ChildrenFirst(tree.fragments) && id < |tree.fragments|
    decreases id, 0, |tree.fragments[id].children| - k
  {
    if k >= |tree.fragments[id].children| then []
    else PaintTree(tree, suppressed, lens, tree.fragments[id].children[k]) +
         PaintChildren(tree, suppressed, lens, id, k + 1)
  }

  /** How many fragments the recursion visits. */
  function Count(fragments: seq<Fragment>, id: FragmentId): (r: nat)
    requires ChildrenFirst(fragments) && id < |fragments|
    ensures r >= 1
    decreases id, 1, 0
  {
    1 + CountChildren(fragments, id, 0)
  }

  function CountChildren(fragments: seq<Fragment>, id: FragmentId, k: nat): nat
    requires ChildrenFirst(fragments) && id < |fragments|
    decreases id, 0, |fragments[id].children| - k
  {
    if k >= |fragments[id].children| then 0
    else Count(fragments, fragments[id].children[k]) + CountChildren(fragments, id, k + 1)
  }

  lemma {:induction false} CountFits(fragments: seq<Fragment>, id: FragmentId)
    requires PostOrdered(fragments) && id < |fragments|
    ensures Count(fragments, id) <= id - Low(fragments, id) + 1
    decreases id, 1, 0
  {
    if fragments[id].children != [] {
      CountChildrenFit(fragments, id, 0);
    }
  }

  lemma {:induction false} CountChildrenFit(fragments: seq<Fragment>, id: FragmentId, k: nat)
    requires PostOrdered(fragments) && id < |fragments| && k < |fragments[id].children|
    ensures CountChildren(fragments, id, k) <= id - Low(fragments, fragments[id].children[k])
    decreases id, 0, |fragments[id].children| - k
  {
    hide Count;
    var children := fragments[id].children;
    CountFits(fragments, children[k]);
    if k + 1 < |children| {
      CountChildrenFit(fragments, id, k + 1);
      assert children[k + 1 - 1] < Low(fragments, children[k + 1]);
    } else {
      assert CountChildren(fragments, id, k + 1) == 0;
    }
  }

  // ----- the stack as a list of promises -----

  predicate InArena(fragments: seq<Fragment>, stack: seq<Step>) {
    forall i :: 0 <= i < |stack| && stack[i].Visit? ==> stack[i].id < |fragments|
  }

  /** What is still to be painted, from the top of the stack down. */
  function Promised(tree: FragmentTree, suppressed: Option<FragmentId>, lens: Lens, stack: seq<Step>): seq<DisplayItem>
    requires ChildrenFirst(tree.fragments) && InArena(tree.fragments, stack)
  {
    if stack == [] then []
    else
      (match stack[|stack| - 1]
       case Close => [PopClip]
       case Visit(id) => PaintTree(tree, suppressed, lens, id)) +
      Promised(tree, suppressed, lens, stack[..|stack| - 1])
  }

  function Visited(fragments: seq<Fragment>, stack: seq<Step>): nat
    requires ChildrenFirst(fragments) && InArena(fragments, stack)
  {
    if stack == [] then 0
    else
      (match stack[|stack| - 1]
       case Close => 0
       case Visit(id) => Count(fragments, id)) +
      Visited(fragments, stack[..|stack| - 1])
  }

  /** One more child on top of a stack. */
  lemma PushVisit(tree: FragmentTree, suppressed: Option<FragmentId>, lens: Lens, below: seq<Step>, id: FragmentId)
    requires ChildrenFirst(tree.fragments) && id < |tree.fragments| && InArena(tree.fragments, below)
    ensures var stack := below + [Visit(id)];
            && InArena(tree.fragments, stack)
            && Promised(tree, suppressed, lens, stack) == PaintTree(tree, suppressed, lens, id)
               + Promised(tree, suppressed, lens, below)
            && Visited(tree.fragments, stack) == Count(tree.fragments, id) + Visited(tree.fragments, below)
  {
    hide PaintTree, Count, ChildrenFirst;
    assert (below + [Visit(id)])[..|below|] == below;
  }

  lemma {:induction false} VisitsPromise(tree: FragmentTree, suppressed: Option<FragmentId>, lens: Lens,
                                         rest: seq<Step>, id: FragmentId, k: nat)
    requires ChildrenFirst(tree.fragments) && id < |tree.fragments| && InArena(tree.fragments, rest)
    requires k <= |tree.fragments[id].children|
    ensures var stack := rest + Visits(tree.fragments[id].children[k..]);
            && InArena(tree.fragments, stack)
            && Promised(tree, suppressed, lens, stack) ==
               PaintChildren(tree, suppressed, lens, id, k) + Promised(tree, suppressed, lens, rest)
            && Visited(tree.fragments, stack) == CountChildren(tree.fragments, id, k) + Visited(tree.fragments, rest)
    decreases |tree.fragments[id].children| - k
  {
    hide PaintTree, Count, InArena, Promised, Visited;
    var children := tree.fragments[id].children;
    if k == |children| {
      assert rest + Visits(children[k..]) == rest;
    } else {
      VisitsPromise(tree, suppressed, lens, rest, id, k + 1);
      var below := rest + Visits(children[k + 1..]);
      assert rest + Visits(children[k..]) == below + [Visit(children[k])];
      PushVisit(tree, suppressed, lens, below, children[k]);
    }
  }

  lemma EnterPromises(tree: FragmentTree, suppressed: Option<FragmentId>, lens: Lens, rest: seq<Step>, id: FragmentId)
    requires ChildrenFirst(tree.fragments) && id < |tree.fragments| && InArena(tree.fragments, rest)
    ensures var stack := rest + EnterSteps(tree, id);
            && InArena(tree.fragments, stack)
            && EnterItems(tree, suppressed, lens, id) + Promised(tree, suppressed, lens, stack) ==
               PaintTree(tree, suppressed, lens, id) + Promised(tree, suppressed, lens, rest)
            && Visited(tree.fragments, stack) == Count(tree.fragments, id) - 1 + Visited(tree.fragments, rest)
  {
    hide EnterItems, EnterSteps, PaintChildren, CountChildren, ChildrenFirst, Visits;
    var f := tree.fragments[id];
    var closing := Closing(tree, rest, id);
    EnterStepsAre(tree, rest, id);
    assert f.children[0..] == f.children;
    VisitsPromise(tree, suppressed, lens, closing, id, 0);
    var own, below := EnterItems(tree, suppressed, lens, id), PaintChildren(tree, suppressed, lens, id, 0);
    var after := Promised(tree, suppressed, lens, rest);
    if Clips(tree.StyleOf(f)) {
      assert closing[..|rest|] == rest;
      Regroup(own, below, [PopClip], after);
    } else {
      Regroup(own, below, [], after);
      assert [] + after == after;
    }
  }

  /** The stack a fragment's children are put on: its own close step is below them. */
  function Closing(tree: FragmentTree, rest: seq<Step>, id: FragmentId): seq<Step>
    requires id < |tree.fragments|
  {
    if Clips(tree.StyleOf(tree.fragments[id])) then rest + [Close] else rest
  }

  lemma EnterStepsAre(tree: FragmentTree, rest: seq<Step>, id: FragmentId)
    requires id < |tree.fragments|
    ensures rest + EnterSteps(tree, id) == Closing(tree, rest, id) + Visits(tree.fragments[id].children)
    ensures InArena(tree.fragments, rest) ==> InArena(tree.fragments, Closing(tree, rest, id))
  {
    hide Visits;
  }

  lemma Regroup(a: seq<DisplayItem>, b: seq<DisplayItem>, c: seq<DisplayItem>, d: seq<DisplayItem>)
    ensures a + (b + (c + d)) == (a + b + c) + d
  {
  }

  /** With enough visits left, the walk emits exactly what its stack promises. */
  lemma {:induction false} WalkKeepsPromises(tree: FragmentTree, suppressed: Option<FragmentId>, lens: Lens,
                                             stack: seq<Step>, remaining: nat)
    requires ChildrenFirst(tree.fragments) && InArena(tree.fragments, stack)
    requires Visited(tree.fragments, stack) <= remaining
    ensures WalkFrom(tree, suppressed, lens, stack, remaining) == Promised(tree, suppressed, lens, stack)
    decreases remaining, |stack|
  {
    hide EnterItems, EnterSteps, Drain, PaintTree, Count, ChildrenFirst;
    if stack != [] {
      var rest := stack[..|stack| - 1];
      match stack[|stack| - 1] {
        case Close => WalkKeepsPromises(tree, suppressed, lens, rest, remaining);
        case Visit(id) =>
          EnterPromises(tree, suppressed, lens, rest, id);
          WalkKeepsPromises(tree, suppressed, lens, rest + EnterSteps(tree, id), remaining - 1);
      }
    }
  }

  /** On a post-ordered arena the visit cap never cuts the walk short: it paints exactly the recursive order. */
  lemma WalkIsPaintOrder(tree: FragmentTree, suppressed: Option<FragmentId>, lens: Lens)
    requires PostOrdered(tree.fragments) && tree.root < |tree.fragments|
    ensures WalkFrom(tree, suppressed, lens, [Visit(tree.root)], |tree.fragments|) ==
            PaintTree(tree, suppressed, lens, tree.root)
  {
    hide EnterItems, PaintTree, Count, WalkFrom, Low;
    var stack := [Visit(tree.root)];
    assert stack[..0] == [];
    CountFits(tree.fragments, tree.root);
    WalkKeepsPromises(tree, suppressed, lens, stack, |tree.fragments|);
  }

  // ----- the first fragment of an element -----

  /** The fragments at and below one, in document order. */
  function Order(fragments: seq<Fragment>, id: FragmentId): seq<FragmentId>
    requires ChildrenFirst(fragments) && id < |fragments|
    decreases id, 1, 0
  {
    [id] + OrderChildren(fragments, id, 0)
  }

  function OrderChildren(fragments: seq<Fragment>, id: FragmentId, k: nat): seq<FragmentId>
    requires ChildrenFirst(fragments) && id < |fragments|
    decreases id, 0, |fragments[id].children| - k
  {
    if k >= |fragments[id].children| then []
    else Order(fragments, fragments[id].children[k]) + OrderChildren(fragments, id, k + 1)
  }

  lemma {:induction false} OrderIsCounted(fragments: seq<Fragment>, id: FragmentId)
    requires ChildrenFirst(fragments) && id < |fragments|
    ensures |Order(fragments, id)| == Count(fragments, id)
    decreases id, 1, 0
  {
    hide ChildrenFirst;
    ChildOrderIsCounted(fragments, id, 0);
  }

  lemma {:induction false} ChildOrderIsCounted(fragments: seq<Fragment>, id: FragmentId, k: nat)
    requires ChildrenFirst(fragments) && id < |fragments|
    ensures |OrderChildren(fragments, id, k)| == CountChildren(fragments, id, k)
    decreases id, 0, |fragments[id].children| - k
  {
    hide Order, Count;
    if k < |fragments[id].children| {
      OrderIsCounted(fragments, fragments[id].children[k]);
      ChildOrderIsCounted(fragments, id, k + 1);
    }
  }

  function FirstNamed(tree: FragmentTree, names: Names, local: string, ids: seq<FragmentId>): Option<FragmentId>
    requires forall i :: 0 <= i < |ids| ==> ids[i] < |tree.fragments|
  {
    if ids == [] then None
    else if Named(tree.fragments[ids[0]], names, local) then Some(ids[0])
    else FirstNamed(tree, names, local, ids[1..])
  }

  /** The orders of the subtrees on a stack, from its top down. */
  function Ahead(fragments: seq<Fragment>, stack: seq<FragmentId>): seq<FragmentId>
    requires ChildrenFirst(fragments) && forall i :: 0 <= i < |stack| ==> stack[i] < |fragments|
  {
    if stack == [] then [] else Order(fragments, stack[|stack| - 1]) + Ahead(fragments, stack[..|stack| - 1])
  }

  lemma {:induction false} OrderInArena(fragments: seq<Fragment>, id: FragmentId)
    requires ChildrenFirst(fragments) && id < |fragments|
    ensures forall i :: 0 <= i < |Order(fragments, id)| ==> Order(fragments, id)[i] < |fragments|
    decreases id, 1, 0
  {
    hide ChildrenFirst;
    ChildOrderInArena(fragments, id, 0);
  }

  lemma {:induction false} ChildOrderInArena(fragments: seq<Fragment>, id: FragmentId, k: nat)
    requires ChildrenFirst(fragments) && id < |fragments|
    ensures forall i :: 0 <= i < |OrderChildren(fragments, id, k)| ==> OrderChildren(fragments, id, k)[i] < |fragments|
    decreases id, 0, |fragments[id].children| - k
  {
    hide Order;
    if k < |fragments[id].children| {
      OrderInArena(fragments, fragments[id].children[k]);
      ChildOrderInArena(fragments, id, k + 1);
    }
  }

  lemma {:induction false} AheadInArena(fragments: seq<Fragment>, stack: seq<FragmentId>)
    requires ChildrenFirst(fragments) && forall i :: 0 <= i < |stack| ==> stack[i] < |fragments|
    ensures forall i :: 0 <= i < |Ahead(fragments, stack)| ==> Ahead(fragments, stack)[i] < |fragments|
  {
    hide Order, ChildrenFirst;
    if stack != [] {
      OrderInArena(fragments, stack[|stack| - 1]);
      AheadInArena(fragments, stack[..|stack| - 1]);
    }
  }

  lemma {:induction false} ChildrenAhead(fragments: seq<Fragment>, rest: seq<FragmentId>, id: FragmentId, k: nat)
    requires ChildrenFirst(fragments) && id < |fragments| && k <= |fragments[id].children|
    requires forall i :: 0 <= i < |rest| ==> rest[i] < |fragments|
    ensures var stack := rest + Reversed(fragments[id].children[k..]);
            && (forall i :: 0 <= i < |stack| ==> stack[i] < |fragments|)
            && Ahead(fragments, stack) == OrderChildren(fragments, id, k) + Ahead(fragments, rest)
    decreases |fragments[id].children| - k
  {
    hide Order;
    var children := fragments[id].children;
    if k == |children| {
      assert rest + Reversed(children[k..]) == rest;
    } else {
      ChildrenAhead(fragments, rest, id, k + 1);
      var below := rest + Reversed(children[k + 1..]);
      assert rest + Reversed(children[k..]) == below + [children[k]];
      assert (below + [children[k]])[..|below|] == below;
    }
  }

  lemma {:induction false} FindFollowsOrder(tree: FragmentTree, names: Names, local: string, stack: seq<FragmentId>,
                                            remaining: nat)
    requires ChildrenFirst(tree.fragments) && forall i :: 0 <= i < |stack| ==> stack[i] < |tree.fragments|
    requires forall i :: 0 <= i < |Ahead(tree.fragments, stack)| ==> Ahead(tree.fragments, stack)[i] < |tree.fragments|
    requires |Ahead(tree.fragments, stack)| <= remaining
    ensures FindFrom(tree, names, local, stack, remaining) == FirstNamed(tree, names, local,
            Ahead(tree.fragments, stack))
    decreases remaining
  {
    hide Named, ChildrenFirst, OrderChildren, Reversed;
    if stack != [] {
      var id, rest := stack[|stack| - 1], stack[..|stack| - 1];
      var children := tree.fragments[id].children;
      var next := rest + Reversed(children);
      assert children[0..] == children;
      ChildrenAhead(tree.fragments, rest, id, 0);
      var below := OrderChildren(tree.fragments, id, 0);
      assert Ahead(tree.fragments, stack) == [id] + (below + Ahead(tree.fragments, rest));
      assert ([id] + (below + Ahead(tree.fragments, rest)))[1..] == below + Ahead(tree.fragments, rest);
      AheadInArena(tree.fragments, next);
      FindFollowsOrder(tree, names, local, next, remaining - 1);
    }
  }

  /** On a post-ordered arena the canvas colour comes from the first `html` (or `body`) fragment in document order. */
  lemma FindIsFirstInOrder(tree: FragmentTree, names: Names, local: string)
    requires PostOrdered(tree.fragments) && tree.root < |tree.fragments|
    ensures forall i :: 0 <= i < |Order(tree.fragments, tree.root)| ==>
            Order(tree.fragments, tree.root)[i] < |tree.fragments|
    ensures FindFrom(tree, names, local, [tree.root], |tree.fragments|) ==
            FirstNamed(tree, names, local, Order(tree.fragments, tree.root))
  {
    hide Named, Order, Count, FindFrom, FirstNamed, Low;
    var stack := [tree.root];
    assert stack[..0] == [];
    OrderInArena(tree.fragments, tree.root);
    OrderIsCounted(tree.fragments, tree.root);
    CountFits(tree.fragments, tree.root);
    assert Ahead(tree.fragments, stack) == Order(tree.fragments, tree.root);
    FindFollowsOrder(tree, names, local, stack, |tree.fragments|);
  }

  /**
   * The canvas takes its colour from `html`, or from `body` only when `html`
   * has none to give; the fragment it came from then fills no box of its own.
   */
  lemma CanvasTakesOverBackground(tree: FragmentTree, names: Names, lens: Lens)
    ensures var canvas := CanvasBackground(tree, names);
            && (canvas.color.Some? <==> canvas.suppressed.Some?)
            && (canvas.suppressed.Some? ==>
                  && canvas.suppressed.value < |tree.fragments|
                  && canvas.color == Some(BackgroundOf(tree, canvas.suppressed.value)) && canvas.color.value.a > 0
                  && var f := tree.fragments[canvas.suppressed.value];
                     && (Named(f, names, "html") || Named(f, names, "body"))
                     && forall k :: 0 <= k < |EnterItems(tree, canvas.suppressed, lens, canvas.suppressed.value)| ==>
                          !EnterItems(tree, canvas.suppressed, lens, canvas.suppressed.value)[k].Fill?)
            && (Opaque(tree, FindFrom(tree, names, "html", [tree.root], |tree.fragments|)) ==>
                  canvas.suppressed == FindFrom(tree, names, "html", [tree.root], |tree.fragments|))
  {
    hide FindFrom, BorderItems, Lens.Trim, Lens.Shows;
    var canvas := CanvasBackground(tree, names);
    if canvas.suppressed.Some? {
      var f := tree.fragments[canvas.suppressed.value];
      BordersOnly(f, tree.StyleOf(f));
      if f.kind.Text? {
        RunsOnly(f.kind.runs, lens);
      }
    }
  }

  lemma BordersOnly(f: Fragment, style: LayoutStyle)
    ensures forall k :: 0 <= k < |BorderItems(f, style)| ==> BorderItems(f, style)[k].Border?
  {
  }

  lemma {:induction false} RunsOnly(runs: seq<GlyphRun>, lens: Lens)
    ensures forall k :: 0 <= k < |RunItems(runs, lens)| ==> RunItems(runs, lens)[k].Glyphs?
  {
    hide Lens.ShowsPoint;
    if runs != [] {
      RunsOnly(runs[..|runs| - 1], lens);
    }
  }
}
