/**
 * Block layout as an explicit-stack walk, so that nesting depth never reaches the
 * call stack. `Frames` is the whole mutable state of one pass; `Run` proves it
 * yields exactly the recursive layout of BlockFlow, with every margin read from
 * the memo equal to the collapse of its full chain.
 */
module BlockLayout {
  import opened AppUnits
  import opened Geometry
  import opened Styles
  import opened Wrappers
  import opened BoxTrees
  import opened BoxModels
  import opened LayoutContext
  import opened Fragments
  import opened Margins
  import opened BlockFlow

  /** Pops the finished top frame and moves its parent's cursor past it. */
  function HandDown(stack: seq<Frame>, laid: Laid): (r: seq<Frame>)
    requires |stack| >= 2
    ensures |r| == |stack| - 1
    ensures forall i :: 0 <= i < |r| ==> r[i].blockChildren == stack[i].blockChildren
    ensures forall i :: 0 <= i < |r| ==> r[i].place == stack[i].place && r[i].nextChild == stack[i].nextChild
    ensures forall i :: 0 <= i < |r| - 1 ==> r[i] == stack[i]
    ensures r[|r| - 1] == Receive(stack[|r| - 1], stack[|r|].place, laid)
  {
    var n := |stack| - 1;
    stack[..n - 1] + [Receive(stack[n - 1], stack[n].place, laid)]
  }

  /** The result the walk is heading for: close the top frame by recursion, hand it down, and so on. */
  ghost function Unwind(env: Env, stack: seq<Frame>, path: seq<BoxId>, a: Arena): Laid
    requires WellFormed(env.tree) && |stack| == |path| && stack != []
    requires FramesMatch(env, stack, path)
    decreases |stack|, 1
  {
    var n := |stack| - 1;
    var done := LayChildren(env, path[n], stack[n], a);
    Unwound(env, stack, path, CloseFrame(env, done.frame, done.arena))
  }

  /** The result once the top frame has closed as `laid`. */
  ghost function Unwound(env: Env, stack: seq<Frame>, path: seq<BoxId>, laid: Laid): Laid
    requires WellFormed(env.tree) && |stack| == |path| && stack != []
    requires FramesMatch(env, stack, path)
    decreases |stack|, 0
  {
    if |stack| == 1 then laid
    else
      Unwind(env, HandDown(stack, laid), path[..|path| - 1], laid.arena)
  }

  ghost predicate FramesMatch(env: Env, stack: seq<Frame>, path: seq<BoxId>)
    requires |stack| == |path|
  {
    forall i :: 0 <= i < |stack| ==>
      path[i] < |env.tree.boxes| && stack[i].blockChildren == env.tree.boxes[path[i]].children
  }

  /** Each frame was opened against its box's real containing block, deeper frames for lower boxes. */
  ghost predicate FramesResolved(env: Env, stack: seq<Frame>, path: seq<BoxId>)
    requires WellFormed(env.tree) && |stack| == |path| && FramesMatch(env, stack, path)
  {
    && (forall i :: 0 <= i < |stack| ==> stack[i].place.model == ModelOf(env, path[i]))
    && (forall i, j :: 0 <= i < j < |path| ==> path[j] < path[i])
  }

  /** The children still to come have not been placed; the boxes with open frames have. */
  ghost predicate RemainingUnplaced(stack: seq<Frame>, path: seq<BoxId>, placed: set<BoxId>)
    requires |stack| == |path|
  {
    && (forall i :: 0 <= i < |path| ==> path[i] in placed)
    && (forall i, j :: 0 <= i < |stack| && stack[i].nextChild <= j < |stack[i].blockChildren| ==>
          stack[i].blockChildren[j] !in placed)
  }

  /** One step onto a container child: its new frame stands for its whole recursive layout. */
  lemma PushKeepsResult(env: Env, stack: seq<Frame>, path: seq<BoxId>, a: Arena, pushed: seq<Frame>)
    requires WellFormed(env.tree) && |stack| == |path| && stack != [] && FramesMatch(env, stack, path)
    requires var f := stack[|stack| - 1];
             && f.nextChild < |f.blockChildren|
             && IsBlockContainer(env.tree.boxes, f.blockChildren[f.nextChild])
             && var c := f.blockChildren[f.nextChild];
             pushed == stack[..|stack| - 1] + [f.(nextChild := f.nextChild + 1),
                                               OpenFrame(env.tree.boxes[c], PlaceChild(env, f, c), |a.fragments|)]
    ensures var f := stack[|stack| - 1];
            var c := f.blockChildren[f.nextChild];
            && FramesMatch(env, pushed, path + [c])
            && Unwind(env, pushed, path + [c], a) == Unwind(env, stack, path, a)
  {
    hide PlaceChild, CloseFrame, OpenFrame, UniqueParents, Homogeneous, Receive;
    var n := |stack| - 1;
    var f := stack[n];
    var c := f.blockChildren[f.nextChild];
    var p := PlaceChild(env, f, c);
    var g := OpenFrame(env.tree.boxes[c], p, |a.fragments|);
    OpenFrameFields(env.tree.boxes[c], p, |a.fragments|);
    assert FramesMatch(env, pushed, path + [c]);
    var inner := LayChildren(env, c, g, a);
    var laid := CloseFrame(env, inner.frame, inner.arena);
    assert LayBox(env, c, p, a) == laid;
    var f' := Receive(f.(nextChild := f.nextChild + 1), p, laid);
    ReceiveFields(f.(nextChild := f.nextChild + 1), p, laid);
    assert LayChildren(env, path[n], f, a) == LayChildren(env, path[n], f', laid.arena);
    var after := stack[..n] + [f'];
    var done := LayChildren(env, path[n], f, a);
    var closed := CloseFrame(env, done.frame, done.arena);
    assert Unwind(env, pushed, path + [c], a) == Unwind(env, after, path, laid.arena) by {
      assert pushed[n + 1] == g && (path + [c])[n + 1] == c;
      assert Unwind(env, pushed, path + [c], a) == Unwound(env, pushed, path + [c], laid);
      assert HandDown(pushed, laid) == after;
      assert (path + [c])[..n + 1] == path;
    }
    assert Unwind(env, after, path, laid.arena) == Unwound(env, after, path, closed);
    SameBelow(env, stack, path, after, closed);
  }

  lemma OpenFrameFields(box: LayoutBox, p: ChildPlacement, start: nat)
    ensures var g := OpenFrame(box, p, start); g.blockChildren == box.children && g.place == p && g.nextChild == 0
  {
  }

  lemma ReceiveFields(f: Frame, p: ChildPlacement, laid: Laid)
    ensures var g := Receive(f, p, laid);
            g.blockChildren == f.blockChildren && g.place == f.place && g.nextChild == f.nextChild
  {
  }

  /** What happens below the top frame depends on the top frame only through its placement. */
  lemma SameBelow(env: Env, stack: seq<Frame>, path: seq<BoxId>, other: seq<Frame>, laid: Laid)
    requires WellFormed(env.tree) && |stack| == |path| == |other| && stack != []
    requires FramesMatch(env, stack, path) && FramesMatch(env, other, path)
    requires stack[..|stack| - 1] == other[..|stack| - 1]
    requires stack[|stack| - 1].place == other[|stack| - 1].place
    ensures Unwound(env, stack, path, laid) == Unwound(env, other, path, laid)
  {
    if |stack| > 1 {
      assert stack[|stack| - 2] == other[|stack| - 2] by {
        assert stack[..|stack| - 1][|stack| - 2] == other[..|stack| - 1][|stack| - 2];
      }
      assert stack[..|stack| - 2] == other[..|stack| - 2] by {
        assert stack[..|stack| - 1][..|stack| - 2] == other[..|stack| - 1][..|stack| - 2];
      }
      assert HandDown(stack, laid) == HandDown(other, laid);
    }
  }

  /** One step onto a leaf child: its layout is finished on the spot. */
  lemma LeafKeepsResult(env: Env, stack: seq<Frame>, path: seq<BoxId>, a: Arena, after: seq<Frame>, laid: Laid)
    requires WellFormed(env.tree) && |stack| == |path| && stack != [] && FramesMatch(env, stack, path)
    requires var f := stack[|stack| - 1];
             && f.nextChild < |f.blockChildren|
             && !IsBlockContainer(env.tree.boxes, f.blockChildren[f.nextChild])
             && var c := f.blockChildren[f.nextChild];
             && laid == LayLeaf(env, env.tree.boxes[c], PlaceChild(env, f, c), a)
             && after == stack[..|stack| - 1] + [Receive(f.(nextChild := f.nextChild + 1), PlaceChild(env, f, c), laid)]
    ensures FramesMatch(env, after, path)
    ensures Unwind(env, after, path, laid.arena) == Unwind(env, stack, path, a)
  {
    hide PlaceChild, CloseFrame, LayLeaf, UniqueParents, Homogeneous, Receive;
    var n := |stack| - 1;
    var f := stack[n];
    var c := f.blockChildren[f.nextChild];
    var p := PlaceChild(env, f, c);
    assert LayBox(env, c, p, a) == laid;
    ReceiveFields(f.(nextChild := f.nextChild + 1), p, laid);
    assert FramesMatch(env, after, path);
    var done := LayChildren(env, path[n], f, a);
    assert done == LayChildren(env, path[n], after[n], laid.arena);
    SameBelow(env, stack, path, after, CloseFrame(env, done.frame, done.arena));
  }

  /** Moves every fragment from `start` on by `d`, one after another. */
  method ShiftTail(fragments: seq<Fragment>, start: nat, d: Point) returns (r: seq<Fragment>)
    requires start <= |fragments|
    ensures r == ShiftFrom(fragments, start, d)
  {
    r := fragments;
    for k := start to |fragments|
      invariant |r| == |fragments|
      invariant forall i :: start <= i < k ==> r[i] == ShiftFragment(fragments[i], d)
      invariant forall i :: (0 <= i < start || k <= i < |r|) ==> r[i] == fragments[i]
    {
      r := r[k := ShiftFragment(r[k], d)];
    }
  }

  /** Pushes the fragment of one finished box and moves its subtree if the box is relatively positioned. */
  method FinishBox(env: Env, node: Option<NodeId>, anonymous: bool, style: LayoutStyle, p: ChildPlacement,
                   contentHeight: Au, start: nat, childIds: seq<FragmentId>, a: Arena) returns (laid: Laid)
    ensures laid == CloseBox(env, node, anonymous, style, p, contentHeight, start, childIds, a)
  {
    var size := BorderBoxSize(p.model.contentWidth, contentHeight, p.model.padding, p.model.border);
    var border := Rect(p.origin, size);
    var padding := Inset(border, p.model.border);
    var content := Inset(padding, p.model.padding);
    var kind := if anonymous then FragmentKind.AnonymousBlock else FragmentKind.Block;
    var arena := Push(a, style, node, kind, border, padding, content, childIds);
    if style.position.Relative? && start <= |arena.fragments| {
      var shifted := ShiftTail(arena.fragments, start, ResolveOffset(env.pct, style, p.cbWidth, p.cbHeight));
      arena := arena.(fragments := shifted);
    }
    laid := Laid(arena, |a.fragments|, size.h);
  }

  /** A box with inline content or none, finished in one call. */
  method LayoutLeaf(env: Env, box: LayoutBox, p: ChildPlacement, a: Arena) returns (laid: Laid)
    ensures laid == LayLeaf(env, box, p, a)
  {
    var arena, ids: seq<FragmentId>, inlineHeight: Au := a, [], 0;
    if box.children != [] {
      match env.shape(box.children, InheritedTextStyle(box.style), p.model.contentWidth)
      case Ok(lines) =>
        var built := BuildFragments(a, lines, ContentOrigin(p.origin, p.model), p.model.contentWidth, box.style);
        arena, ids, inlineHeight := built.arena, built.ids, built.height;
      case Err(e) =>
        arena := a.(error := if a.error.Some? then a.error else Some(e));
    }
    var height := LeafHeight(p, inlineHeight);
    laid := FinishBox(env, box.node, box.kind.AnonymousBlock?, box.style, p, height, |a.fragments|, ids, arena);
  }

  ghost predicate StackShape(env: Env, stack: seq<Frame>, path: seq<BoxId>, placed: set<BoxId>)
    requires WellFormed(env.tree) && |stack| == |path|
  {
    && FramesMatch(env, stack, path)
    && FramesResolved(env, stack, path)
    && RemainingUnplaced(stack, path, placed)
    && PlacedTopDown(env, placed)
    && (forall b :: b in placed ==> b < |env.tree.boxes|)
  }

  /**
   * The next child of the top frame is unplaced, its parent is the frame's box, and its containing
   * block the frame's.
   */
  lemma NextChildFacts(env: Env, stack: seq<Frame>, path: seq<BoxId>, placed: set<BoxId>)
    requires WellFormed(env.tree) && |stack| == |path| && stack != [] && StackShape(env, stack, path, placed)
    requires stack[|stack| - 1].nextChild < |stack[|stack| - 1].blockChildren|
    ensures FramesMatch(env, stack, path)
    ensures var f := stack[|stack| - 1];
            var c := f.blockChildren[f.nextChild];
            && c < path[|path| - 1] < |env.tree.boxes| && c !in placed && PlacedTopDown(env, placed)
            && Parent(env.tree.boxes, c) == Some(path[|path| - 1])
            && ResolveBoxModel(env.pct, env.tree.boxes[c].style, f.place.model.contentWidth, f.place.model.knownHeight)
               == ModelOf(env, c)
  {
    hide ResolveBoxModel;
    var f := stack[|stack| - 1];
    ParentOfChild(env.tree.boxes, path[|path| - 1], f.nextChild);
  }

  /** Placing the next child leaves every other remaining child unplaced. */
  lemma PlacedNext(env: Env, stack: seq<Frame>, path: seq<BoxId>, placed: set<BoxId>, after: seq<Frame>)
    requires WellFormed(env.tree) && |stack| == |path| == |after| && stack != [] && StackShape(env, stack, path, placed)
    requires var f := stack[|stack| - 1];
             var g := after[|stack| - 1];
             && f.nextChild < |f.blockChildren| && after[..|stack| - 1] == stack[..|stack| - 1]
             && g.nextChild == f.nextChild + 1 && g.blockChildren == f.blockChildren && g.place == f.place
    ensures var c := stack[|stack| - 1].blockChildren[stack[|stack| - 1].nextChild];
            StackShape(env, after, path, placed + {c})
  {
    hide ModelOf, ResolveBoxModel, Homogeneous;
    NextChildFacts(env, stack, path, placed);
    var n := |stack| - 1;
    var c := stack[n].blockChildren[stack[n].nextChild];
    forall i | 0 <= i < n ensures after[i] == stack[i] {
      assert after[..n][i] == stack[..n][i];
    }
    forall i, j | 0 <= i <= n && after[i].nextChild <= j < |after[i].blockChildren|
      ensures after[i].blockChildren[j] !in placed + {c}
    {
    }
  }

  lemma UnplacedChildren(env: Env, placed: set<BoxId>, c: BoxId)
    requires WellFormed(env.tree) && c < |env.tree.boxes| && PlacedTopDown(env, placed) && c !in placed
    ensures forall j :: 0 <= j < |env.tree.boxes[c].children| ==> env.tree.boxes[c].children[j] !in placed + {c}
  {
    forall j | 0 <= j < |env.tree.boxes[c].children| ensures env.tree.boxes[c].children[j] !in placed + {c} {
      ParentOfChild(env.tree.boxes, c, j);
    }
  }

  /** A frame opened for the child just placed starts with all its children unplaced. */
  lemma OpenedNext(env: Env, stack: seq<Frame>, path: seq<BoxId>, placed: set<BoxId>, c: BoxId, g: Frame)
    requires WellFormed(env.tree) && |stack| == |path| && stack != []
    requires StackShape(env, stack, path, placed) && c in placed && c < path[|path| - 1] < |env.tree.boxes|
    requires forall j :: 0 <= j < |env.tree.boxes[c].children| ==> env.tree.boxes[c].children[j] !in placed
    requires g.nextChild == 0 && g.blockChildren == env.tree.boxes[c].children && g.place.model == ModelOf(env, c)
    ensures StackShape(env, stack + [g], path + [c], placed)
  {
    hide ModelOf, Homogeneous, UniqueParents, PlacedTopDown;
    forall i, j | 0 <= i < j < |path + [c]| ensures (path + [c])[j] < (path + [c])[i] {
      if j == |path| && i < |path| - 1 {
        assert path[|path| - 1] < path[i];
      }
    }
  }

  lemma PoppedFrame(env: Env, stack: seq<Frame>, path: seq<BoxId>, placed: set<BoxId>, laid: Laid)
    requires WellFormed(env.tree) && |stack| == |path| >= 2 && StackShape(env, stack, path, placed)
    ensures StackShape(env, HandDown(stack, laid), path[..|path| - 1], placed)
  {
    hide ModelOf, Homogeneous, UniqueParents, Receive, PlacedTopDown;
  }

  function AllBoxes(env: Env): set<BoxId> {
    set b: BoxId | b < |env.tree.boxes| && b in Indices(|env.tree.boxes|)
  }

  function Indices(n: nat): set<nat> {
    if n == 0 then {} else Indices(n - 1) + {n - 1}
  }

  lemma InIndices(n: nat, k: nat)
    ensures k in Indices(n) <==> k < n
  {
  }

  lemma PlacedWithin(env: Env, stack: seq<Frame>, path: seq<BoxId>, placed: set<BoxId>)
    requires WellFormed(env.tree) && |stack| == |path| && StackShape(env, stack, path, placed)
    ensures placed <= AllBoxes(env)
  {
    forall b | b in placed ensures b in AllBoxes(env) {
      InIndices(|env.tree.boxes|, b);
    }
  }

  /** Chain entries are counted by the slots they filled, and there is one slot per box. */
  lemma WorkIsLinear(env: Env, edge: Edge, memo: Memo)
    requires WellFormed(env.tree) && MemoCorrect(env, edge, memo)
    ensures |Filled(memo)| <= |env.tree.boxes|
  {
    FilledAtMostBoxes(memo);
  }

  lemma OpenedRoot(env: Env)
    requires WellFormed(env.tree)
    ensures FramesMatch(env, [RootFrame(env)], [env.tree.root])
    ensures IsBlockContainer(env.tree.boxes, env.tree.root) ==>
              Unwind(env, [RootFrame(env)], [env.tree.root], EMPTY_ARENA) == LayRoot(env)
    ensures StackShape(env, [RootFrame(env)], [env.tree.root], {env.tree.root})
  {
    hide ResolveBoxModel, LayChildren, CloseFrame;
    assert Parent(env.tree.boxes, env.tree.root).None?;
    assert ModelOf(env, env.tree.root) == RootPlacement(env).model;
    UnplacedChildren(env, {}, env.tree.root);
  }

  lemma HandedDown(stack: seq<Frame>, laid: Laid)
    requires |stack| >= 2
    ensures HandDown(stack, laid) ==
            stack[..|stack| - 2] + [Receive(stack[|stack| - 2], stack[|stack| - 1].place, laid)]
  {
  }

  /** A frame with no child left closes, and the frame below it is handed the result. */
  lemma TopCloses(env: Env, stack: seq<Frame>, path: seq<BoxId>, a: Arena, laid: Laid)
    requires WellFormed(env.tree) && |stack| == |path| && stack != [] && FramesMatch(env, stack, path)
    requires var top := stack[|stack| - 1]; top.nextChild >= |top.blockChildren| && laid == CloseFrame(env, top, a)
    ensures |stack| == 1 ==> Unwind(env, stack, path, a) == laid
    ensures |stack| > 1 ==>
              && FramesMatch(env, HandDown(stack, laid), path[..|path| - 1])
              && Unwind(env, stack, path, a) == Unwind(env, HandDown(stack, laid), path[..|path| - 1], laid.arena)
  {
    hide WellFormed, CloseFrame;
  }

  class Frames {
    const env: Env
    var stack: seq<Frame>
    var arena: Arena
    var topMemo: Memo
    var bottomMemo: Memo
    /** Chain entries collected so far, on each edge. */
    var topPushed: nat
    var bottomPushed: nat
    /** The boxes the frames belong to. */
    ghost var path: seq<BoxId>
    /** The boxes laid out or being laid out. */
    ghost var placed: set<BoxId>

    ghost predicate Shape()
      reads this
    {
      WellFormed(env.tree) && |stack| == |path| && FramesMatch(env, stack, path) && StackShape(env, stack, path, placed)
    }

    /** Every filled slot holds the collapse of its box's whole chain, and each chain entry filled its own slot. */
    ghost predicate Memoized()
      reads this`topMemo, this`bottomMemo, this`topPushed, this`bottomPushed, this`placed
      requires WellFormed(env.tree)
    {
      && MemoCorrect(env, Top, topMemo) && MemoTopDown(env, topMemo, placed)
      && MemoCorrect(env, Bottom, bottomMemo) && MemoTopDown(env, bottomMemo, placed)
      && topPushed == |Filled(topMemo)| && bottomPushed == |Filled(bottomMemo)|
    }

    ghost predicate Valid()
      reads this
    {
      Shape() && Memoized()
    }

    constructor (env: Env)
      requires WellFormed(env.tree)
      ensures this.env == env && Valid() && stack == [] && arena == EMPTY_ARENA && placed == {env.tree.root}
    {
      this.env := env;
      stack, path, arena := [], [], EMPTY_ARENA;
      topMemo := seq(|env.tree.boxes|, i => None);
      bottomMemo := seq(|env.tree.boxes|, i => None);
      topPushed, bottomPushed := 0, 0;
      placed := {env.tree.root};
      new;
      assert Filled(topMemo) == {} && Filled(bottomMemo) == {};
      assert Parent(env.tree.boxes, env.tree.root).None?;
    }

    /** Places the next child of the top frame, reading and filling both memos. */
    method PlaceNext(f: Frame, c: BoxId) returns (p: ChildPlacement)
      requires WellFormed(env.tree) && Memoized() && PlacedTopDown(env, placed)
      requires c < |env.tree.boxes| && c !in placed
      requires ResolveBoxModel(env.pct, env.tree.boxes[c].style, f.place.model.contentWidth, f.place.model.knownHeight)
               == ModelOf(env, c)
      modifies this`topMemo, this`bottomMemo, this`topPushed, this`bottomPushed, this`placed
      ensures p == PlaceChild(env, f, c) && p.model == ModelOf(env, c)
      ensures placed == old(placed) + {c} && Memoized()
    {
      hide ModelOf, ResolveBoxModel, MemoCorrect, PlacedTopDown, WellFormed;
      var model := ResolveBoxModel(env.pct, env.tree.boxes[c].style, f.place.model.contentWidth,
                                   f.place.model.knownHeight);
      var top, bottom, pushed;
      top, topMemo, pushed := EffectiveMarginAt(env, Top, c, model, topMemo, placed);
      topPushed := topPushed + pushed;
      bottom, bottomMemo, pushed := EffectiveMarginAt(env, Bottom, c, model, bottomMemo, placed);
      bottomPushed := bottomPushed + pushed;
      placed := placed + {c};
      var gap;
      match f.prevMarginBottom {
        case Some(prev) => gap := CollapseMarginSet([prev, top]);
        case None => gap := if f.firstChildCollapses then 0 else top;
      }
      p := ChildPlacement(
        model,
        Point(SatAdd(f.contentOrigin.x, model.marginLeft), SatAdd(SatAdd(f.contentOrigin.y, f.contentBottom), gap)),
        bottom, f.place.model.contentWidth, f.place.model.knownHeight);
    }

    /** Moves the top frame past its next child: a new frame for a container, a finished fragment for a leaf. */
    method AdvanceChild()
      requires Valid() && stack != [] && stack[|stack| - 1].nextChild < |stack[|stack| - 1].blockChildren|
      modifies this
      ensures Valid() && stack != [] && old(placed) < placed
      ensures Unwind(env, stack, path, arena) == old(Unwind(env, stack, path, arena))
    {
      hide ModelOf, ResolveBoxModel, Memoized, PlaceChild, OpenFrame, LayLeaf, Receive, StackShape, UniqueParents,
           Homogeneous, Unwind;
      ghost var stack0, path0, placed0, arena0 := stack, path, placed, arena;
      NextChildFacts(env, stack, path, placed);
      var n := |stack| - 1;
      var top := stack[n].(nextChild := stack[n].nextChild + 1);
      var c := stack[n].blockChildren[stack[n].nextChild];
      var box := env.tree.boxes[c];
      var p := PlaceNext(stack[n], c);
      if IsBlockContainer(env.tree.boxes, c) {
        var child := OpenFrame(box, p, |arena.fragments|);
        stack := stack[..n] + [top, child];
        path := path + [c];
        OpenFrameFields(box, p, |arena.fragments|);
        PlacedNext(env, stack0, path0, placed0, stack0[..n] + [top]);
        UnplacedChildren(env, placed0, c);
        OpenedNext(env, stack0[..n] + [top], path0, placed, c, child);
        assert stack == stack0[..n] + [top] + [child];
        PushKeepsResult(env, stack0, path0, arena0, stack);
      } else {
        var laid := LayoutLeaf(env, box, p, arena);
        arena := laid.arena;
        stack := stack[..n] + [Receive(top, p, laid)];
        ReceiveFields(top, p, laid);
        PlacedNext(env, stack0, path0, placed0, stack);
        LeafKeepsResult(env, stack0, path0, arena0, stack, laid);
      }
    }

    /** Closes the top frame: hands its fragment to its parent, or is the whole result if it has none. */
    method FinalizeTop() returns (done: Option<Laid>)
      requires Valid() && stack != [] && stack[|stack| - 1].nextChild >= |stack[|stack| - 1].blockChildren|
      modifies this`stack, this`arena, this`path
      ensures Valid() && |stack| == old(|stack|) - 1
      ensures done.Some? <==> stack == []
      ensures done.Some? ==> done.value == old(Unwind(env, stack, path, arena))
      ensures stack != [] ==> Unwind(env, stack, path, arena) == old(Unwind(env, stack, path, arena))
    {
      hide ModelOf, ResolveBoxModel, Receive, UniqueParents, Homogeneous, CloseBox, LayChildren, Unwind, Unwound,
           Memoized, HandDown;
      ghost var stack0, path0, arena0 := stack, path, arena;
      var n := |stack| - 1;
      var popped := stack[n];
      var height := ContainerHeight(popped);
      var laid := FinishBox(env, popped.node, popped.anonymous, popped.style, popped.place, height,
                            popped.fragStart, popped.childIds, arena);
      TopCloses(env, stack0, path0, arena0, laid);
      arena := laid.arena;
      path := path[..n];
      if n == 0 {
        stack := [];
        done := Some(laid);
      } else {
        stack := stack[..n - 1] + [Receive(stack[n - 1], popped.place, laid)];
        done := None;
        PoppedFrame(env, stack0, path0, placed, laid);
        HandedDown(stack0, laid);
      }
    }

    /** The whole walk. It ends, and yields the recursive layout; each edge collects at most one chain entry per box. */
    method Run() returns (laid: Laid)
      requires Valid() && stack == [] && arena == EMPTY_ARENA && placed == {env.tree.root}
      modifies this
      ensures laid == LayRoot(env)
      ensures Memoized() && topPushed <= |env.tree.boxes| && bottomPushed <= |env.tree.boxes|
    {
      hide ModelOf, MemoCorrect, MemoTopDown, UniqueParents, Homogeneous, StackShape, LayChildren, LayLeaf, Unwind,
           RootFrame;
      var root := env.tree.root;
      if IsBlockContainer(env.tree.boxes, root) {
        OpenedRoot(env);
        stack, path := [RootFrame(env)], [root];
        laid := Walk();
      } else {
        laid := LayoutLeaf(env, env.tree.boxes[root], RootPlacement(env), arena);
      }
      WorkIsLinear(env, Top, topMemo);
      WorkIsLinear(env, Bottom, bottomMemo);
    }

    method Walk() returns (laid: Laid)
      requires Valid() && stack != []
      modifies this
      ensures laid == old(Unwind(env, stack, path, arena))
      ensures Memoized()
    {
      hide ModelOf, Memoized, UniqueParents, Homogeneous, StackShape, Unwind, WellFormed;
      ghost var result := Unwind(env, stack, path, arena);
      var done: Option<Laid> := None;
      PlacedWithin(env, stack, path, placed);
      while done.None?
        invariant Valid() && placed <= AllBoxes(env)
        invariant done.None? ==> stack != [] && Unwind(env, stack, path, arena) == result
        invariant done.Some? ==> done.value == result
        decreases done.None?, AllBoxes(env) - placed, |stack|
      {
        var top := stack[|stack| - 1];
        if top.nextChild < |top.blockChildren| {
          AdvanceChild();
          PlacedWithin(env, stack, path, placed);
        } else {
          done := FinalizeTop();
        }
      }
      laid := done.value;
    }
  }

  /** One layout pass: the recursive layout of the box tree, unless the shaper failed on some leaf. */
  method Layout(env: Env) returns (r: Result<FragmentTree, LayoutError>)
    requires WellFormed(env.tree)
    ensures var laid := LayRoot(env);
            r == if laid.arena.error.Some? then Err(laid.arena.error.value)
                 else Ok(FragmentTree(laid.arena.fragments, laid.arena.styles, laid.id, env.viewport))
  {
    var frames := new Frames(env);
    var laid := frames.Run();
    match laid.arena.error
    case Some(e) => r := Err(e);
    case None => r := Ok(FragmentTree(laid.arena.fragments, laid.arena.styles, laid.id, env.viewport));
  }
}
