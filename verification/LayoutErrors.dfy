/**
 * When layout fails: exactly when the shaper fails on the inline content of some box, and
 * then with the error of the first such box in document order.
 */
module LayoutErrors {
  import opened AppUnits
  import opened Styles
  import opened Wrappers
  import opened BoxTrees
  import opened BoxModels
  import opened LayoutContext
  import opened Fragments
  import opened BlockFlow
  import opened FlowGeometry

  /** What the shaper says of a box's inline content, its text set in the box's used content width. */
  ghost function ShapingErrors(env: Env, id: BoxId): seq<LayoutError>
    requires WellFormed(env.tree) && id < |env.tree.boxes|
  {
    var box := env.tree.boxes[id];
    if box.children == [] then []
    else
      var r := env.shape(box.children, InheritedTextStyle(box.style), ModelOf(env, id).contentWidth);
      if r.Err? then [r.error] else []
  }

  /** The errors at and below a box, in document order; inline content is shaped where its container is. */
  ghost function Errors(env: Env, id: BoxId): seq<LayoutError>
    requires WellFormed(env.tree) && id < |env.tree.boxes|
    decreases id, 1, 0
  {
    if IsBlockContainer(env.tree.boxes, id) then ErrorsFrom(env, id, 0) else ShapingErrors(env, id)
  }

  ghost function ErrorsFrom(env: Env, id: BoxId, k: nat): seq<LayoutError>
    requires WellFormed(env.tree) && id < |env.tree.boxes|
    decreases id, 0, |env.tree.boxes[id].children| - k
  {
    if k >= |env.tree.boxes[id].children| then []
    else Errors(env, env.tree.boxes[id].children[k]) + ErrorsFrom(env, id, k + 1)
  }

  /** The error kept so far, or the first of those to come. */
  function Earliest(kept: Option<LayoutError>, coming: seq<LayoutError>): Option<LayoutError> {
    if kept.Some? then kept else if coming == [] then None else Some(coming[0])
  }

  lemma EarliestJoins(kept: Option<LayoutError>, a: seq<LayoutError>, b: seq<LayoutError>)
    ensures Earliest(Earliest(kept, a), b) == Earliest(kept, a + b)
  {
  }

  lemma CloseKeepsError(env: Env, node: Option<NodeId>, anonymous: bool, style: LayoutStyle, p: ChildPlacement,
                        contentHeight: Au, start: nat, childIds: seq<FragmentId>, a: Arena)
    ensures CloseBox(env, node, anonymous, style, p, contentHeight, start, childIds, a).arena.error == a.error
  {
    hide ResolveOffset, Inset, BorderBoxSize;
  }

  lemma LeafError(env: Env, id: BoxId, p: ChildPlacement, a: Arena)
    requires WellFormed(env.tree) && id < |env.tree.boxes| && p.model == ModelOf(env, id)
    ensures LayLeaf(env, env.tree.boxes[id], p, a).arena.error == Earliest(a.error, ShapingErrors(env, id))
  {
    hide WellFormed, ModelOf, WithLines, CloseBox, ContentOrigin;
    var box := env.tree.boxes[id];
    var content := LeafContent(env, box, p, a);
    CloseKeepsError(env, box.node, box.kind.AnonymousBlock?, box.style, p, LeafHeight(p, content.height),
                    |a.fragments|, content.ids, content.arena);
  }

  lemma {:induction false} BoxError(env: Env, id: BoxId, p: ChildPlacement, a: Arena)
    requires WellFormed(env.tree) && id < |env.tree.boxes| && p.model == ModelOf(env, id)
    ensures LayBox(env, id, p, a).arena.error == Earliest(a.error, Errors(env, id))
    decreases id, 1, 0
  {
    hide UniqueParents, Homogeneous, ModelOf, LayLeaf, CloseBox, ErrorsFrom, Earliest;
    if IsBlockContainer(env.tree.boxes, id) {
      var f := OpenFrame(env.tree.boxes[id], p, |a.fragments|);
      ChildrenError(env, id, f, a);
      var done := LayChildren(env, id, f, a);
      var g := done.frame;
      CloseKeepsError(env, g.node, g.anonymous, g.style, g.place, ContainerHeight(g), g.fragStart, g.childIds,
                      done.arena);
    } else {
      LeafError(env, id, p, a);
    }
  }

  lemma {:induction false} ChildrenError(env: Env, id: BoxId, f: Frame, a: Arena)
    requires WellFormed(env.tree) && FrameOf(env, id, f)
    ensures LayChildren(env, id, f, a).arena.error == Earliest(a.error, ErrorsFrom(env, id, f.nextChild))
    decreases id, 0, |f.blockChildren| - f.nextChild
  {
    hide UniqueParents, Homogeneous, ModelOf, LayBox, PlaceChild, Receive, Errors;
    if f.nextChild < |f.blockChildren| {
      var c := f.blockChildren[f.nextChild];
      var p := PlaceChild(env, f, c);
      var laid := LayBox(env, c, p, a);
      PlacedModel(env, id, f);
      BoxError(env, c, p, a);
      Advanced(env, f, c, p, laid);
      ChildrenError(env, id, Receive(f.(nextChild := f.nextChild + 1), p, laid), laid.arena);
      EarliestJoins(a.error, Errors(env, c), ErrorsFrom(env, id, f.nextChild + 1));
    }
  }

  /** Layout fails exactly when some box's content cannot be shaped, and with the first error in document order. */
  lemma FailsExactly(env: Env)
    requires WellFormed(env.tree)
    ensures LayRoot(env).arena.error == Earliest(None, Errors(env, env.tree.root))
  {
    hide UniqueParents, Homogeneous, ModelOf, LayLeaf, CloseBox, ErrorsFrom, RootPlacement, Earliest;
    var root := env.tree.root;
    RootModel(env);
    OpenedFrames(env, root, RootPlacement(env), 0);
    if IsBlockContainer(env.tree.boxes, root) {
      ChildrenError(env, root, RootFrame(env), EMPTY_ARENA);
      var done := LayChildren(env, root, RootFrame(env), EMPTY_ARENA);
      var g := done.frame;
      CloseKeepsError(env, g.node, g.anonymous, g.style, g.place, ContainerHeight(g), g.fragStart, g.childIds,
                      done.arena);
    } else {
      LeafError(env, root, RootPlacement(env), EMPTY_ARENA);
    }
  }

  lemma RootModel(env: Env)
    requires WellFormed(env.tree)
    ensures RootPlacement(env).model == ModelOf(env, env.tree.root)
  {
    hide ResolveBoxModel, Homogeneous, UniqueParents;
    assert Parent(env.tree.boxes, env.tree.root).None?;
  }
}
