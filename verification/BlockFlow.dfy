/**
 * Block layout by recursion over the box tree: what the explicit-stack walk is
 * measured against. A box is laid out by laying its block children out in order
 * and closing itself over them; a box with inline content or none is closed at once.
 */
module BlockFlow {
  import opened AppUnits
  import opened Geometry
  import opened Styles
  import opened Wrappers
  import opened BoxTrees
  import opened BoxModels
  import opened LayoutContext
  import opened Fragments
  import opened Margins

  /** A child's box model, absolute border-box origin, and what its parent needs once it is finished. */
  datatype ChildPlacement = ChildPlacement(
    model: BoxModel,
    origin: Point,
    effectiveBottom: Au,
    cbWidth: Au,
    cbHeight: Option<Au>)

  /** A block box whose block-level children are still being visited. */
  datatype Frame = Frame(
    fragStart: nat,
    node: Option<NodeId>,
    style: LayoutStyle,
    anonymous: bool,
    place: ChildPlacement,
    contentOrigin: Point,
    firstChildCollapses: bool,
    bottomCollapses: bool,
    blockChildren: seq<BoxId>,
    nextChild: nat,
    contentBottom: Au,
    prevMarginBottom: Option<Au>,
    childIds: seq<FragmentId>)

  /** A finished box: the arena after it, its fragment, its used border-box height. */
  datatype Laid = Laid(arena: Arena, id: FragmentId, height: Au)

  datatype Progress = Progress(frame: Frame, arena: Arena)

  const EMPTY_ARENA := Arena([], [], None)

  predicate IsBlockContainer(boxes: seq<LayoutBox>, id: BoxId)
    requires ChildrenBelow(boxes) && id < |boxes|
  {
    boxes[id].children != [] && IsBlockLevel(boxes[boxes[id].children[0]].kind)
  }

  // ----- opening -----

  function OpenFrame(box: LayoutBox, p: ChildPlacement, start: nat): Frame {
    Frame(start, box.node, box.style, box.kind.AnonymousBlock?, p, ContentOrigin(p.origin, p.model),
          PassesThrough(Top, box.style, p.model), PassesThrough(Bottom, box.style, p.model),
          box.children, 0, 0, None, [])
  }

  /** The root's margins are used as specified and never collapse with its children's. */
  function RootPlacement(env: Env): ChildPlacement
    requires env.tree.root < |env.tree.boxes|
  {
    var m := ResolveBoxModel(env.pct, env.tree.boxes[env.tree.root].style, env.viewport.w, Some(env.viewport.h));
    ChildPlacement(m, Point(m.marginLeft, m.marginTop), 0, env.viewport.w, Some(env.viewport.h))
  }

  function RootFrame(env: Env): Frame
    requires env.tree.root < |env.tree.boxes|
  {
    OpenFrame(env.tree.boxes[env.tree.root], RootPlacement(env), 0)
    .(firstChildCollapses := false, bottomCollapses := false)
  }

  // ----- placing -----

  /** The space above a child: sibling margins collapse, a first child's may be the parent's already. */
  function GapBefore(f: Frame, effectiveTop: Au): Au {
    match f.prevMarginBottom
    case Some(prev) => Collapsed([prev, effectiveTop])
    case None => if f.firstChildCollapses then 0 else effectiveTop
  }

  function PlaceWith(f: Frame, m: BoxModel, effectiveTop: Au, effectiveBottom: Au): ChildPlacement {
    ChildPlacement(
      m,
      Point(SatAdd(f.contentOrigin.x, m.marginLeft),
            SatAdd(SatAdd(f.contentOrigin.y, f.contentBottom), GapBefore(f, effectiveTop))),
      effectiveBottom,
      f.place.model.contentWidth,
      f.place.model.knownHeight)
  }

  ghost function PlaceChild(env: Env, f: Frame, c: BoxId): ChildPlacement
    requires WellFormed(env.tree) && c < |env.tree.boxes|
  {
    PlaceWith(f,
              ResolveBoxModel(env.pct, env.tree.boxes[c].style, f.place.model.contentWidth, f.place.model.knownHeight),
              EffectiveMargin(env, Top, c),
              EffectiveMargin(env, Bottom, c))
  }

  /** The parent's cursor after one finished child. */
  function Receive(f: Frame, p: ChildPlacement, laid: Laid): Frame {
    f.(contentBottom := SatAdd(SatSub(p.origin.y, f.contentOrigin.y), laid.height),
       prevMarginBottom := Some(p.effectiveBottom),
       childIds := f.childIds + [laid.id])
  }

  // ----- closing -----

  /** Appends a box's own fragment: its border box, and the padding and content boxes inset into it. */
  function PushBox(node: Option<NodeId>, anonymous: bool, style: LayoutStyle, p: ChildPlacement,
                   contentHeight: Au, childIds: seq<FragmentId>, a: Arena): (r: Arena)
    ensures |r.fragments| == |a.fragments| + 1
  {
    var border := Rect(p.origin, BorderBoxSize(p.model.contentWidth, contentHeight, p.model.padding, p.model.border));
    var padding := Inset(border, p.model.border);
    var content := Inset(padding, p.model.padding);
    var kind := if anonymous then FragmentKind.AnonymousBlock else FragmentKind.Block;
    Push(a, style, node, kind, border, padding, content, childIds)
  }

  /** Appends a box's own fragment and applies its relative offset to the whole subtree from `start` on. */
  function CloseBox(env: Env, node: Option<NodeId>, anonymous: bool, style: LayoutStyle, p: ChildPlacement,
                    contentHeight: Au, start: nat, childIds: seq<FragmentId>, a: Arena): (r: Laid)
    ensures |r.arena.fragments| == |a.fragments| + 1 && r.id == |a.fragments|
  {
    Laid(Positioned(PushBox(node, anonymous, style, p, contentHeight, childIds, a), start, style,
                    ResolveOffset(env.pct, style, p.cbWidth, p.cbHeight)),
         |a.fragments|,
         BorderBoxSize(p.model.contentWidth, contentHeight, p.model.padding, p.model.border).h)
  }

  /** The used content height of a container: definite, or the children's extent with a trailing margin kept inside. */
  function ContainerHeight(f: Frame): Au {
    if f.place.model.knownHeight.Some? then f.place.model.knownHeight.value
    else
      var trailing := if f.bottomCollapses || f.prevMarginBottom.None? then 0 else f.prevMarginBottom.value;
      ClampAu(SatAdd(f.contentBottom, trailing), f.place.model.minHeight, f.place.model.maxHeight)
  }

  function CloseFrame(env: Env, f: Frame, a: Arena): (r: Laid)
    ensures |r.arena.fragments| == |a.fragments| + 1 && r.id == |a.fragments|
  {
    CloseBox(env, f.node, f.anonymous, f.style, f.place, ContainerHeight(f), f.fragStart, f.childIds, a)
  }

  /** A leaf's inline content; a shaping error is kept (the first one) and leaves no content. */
  function LeafContent(env: Env, box: LayoutBox, p: ChildPlacement, a: Arena): (r: Lines)
    ensures |r.arena.fragments| >= |a.fragments|
  {
    if box.children == [] then Lines(a, [], 0)
    else
      match env.shape(box.children, InheritedTextStyle(box.style), p.model.contentWidth)
      case Ok(lines) =>
        WithLines(a, lines, ContentOrigin(p.origin, p.model), p.model.contentWidth, box.style, |lines|)
      case Err(e) => Lines(a.(error := if a.error.Some? then a.error else Some(e)), [], 0)
  }

  function LeafHeight(p: ChildPlacement, inlineHeight: Au): Au {
    if p.model.knownHeight.Some? then p.model.knownHeight.value
    else ClampAu(inlineHeight, p.model.minHeight, p.model.maxHeight)
  }

  function LayLeaf(env: Env, box: LayoutBox, p: ChildPlacement, a: Arena): (r: Laid)
    ensures |r.arena.fragments| > |a.fragments| && r.id == |r.arena.fragments| - 1
  {
    var content := LeafContent(env, box, p, a);
    CloseBox(env, box.node, box.kind.AnonymousBlock?, box.style, p, LeafHeight(p, content.height), |a.fragments|,
             content.ids, content.arena)
  }

  // ----- the recursion -----

  /** Lays one block-level box and everything below it. */
  ghost function LayBox(env: Env, id: BoxId, p: ChildPlacement, a: Arena): (r: Laid)
    requires WellFormed(env.tree) && id < |env.tree.boxes|
    decreases id, 1, 0
  {
    var box := env.tree.boxes[id];
    if IsBlockContainer(env.tree.boxes, id) then
      var done := LayChildren(env, id, OpenFrame(box, p, |a.fragments|), a);
      CloseFrame(env, done.frame, done.arena)
    else
      LayLeaf(env, box, p, a)
  }

  /** Lays the remaining children of an open frame, in order. */
  ghost function LayChildren(env: Env, id: BoxId, f: Frame, a: Arena): Progress
    requires WellFormed(env.tree) && id < |env.tree.boxes|
    requires f.blockChildren == env.tree.boxes[id].children
    decreases id, 0, |f.blockChildren| - f.nextChild
  {
    if f.nextChild >= |f.blockChildren| then Progress(f, a)
    else
      var c := f.blockChildren[f.nextChild];
      var p := PlaceChild(env, f, c);
      var laid := LayBox(env, c, p, a);
      LayChildren(env, id, Receive(f.(nextChild := f.nextChild + 1), p, laid), laid.arena)
  }

  ghost function LayRoot(env: Env): Laid
    requires WellFormed(env.tree)
  {
    if IsBlockContainer(env.tree.boxes, env.tree.root) then
      var done := LayChildren(env, env.tree.root, RootFrame(env), EMPTY_ARENA);
      CloseFrame(env, done.frame, done.arena)
    else
      LayLeaf(env, env.tree.boxes[env.tree.root], RootPlacement(env), EMPTY_ARENA)
  }
}
