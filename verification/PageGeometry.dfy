/**
 * The finished page, judged by its rectangles alone: every box around its own content,
 * every child against its parent's content edge and its siblings, and everything below
 * a relatively positioned box moved with it. Lengths are used values of the document's
 * styles; no step of the layout pass is mentioned.
 */
module PageGeometry {
  import opened AppUnits
  import opened Geometry
  import opened Styles
  import opened Wrappers
  import opened BoxTrees
  import opened BoxModels
  import opened LayoutContext
  import opened Fragments
  import opened Margins
  import opened BlockFlow
  import opened FragmentShape
  import opened RelativePosition
  import opened FlowGeometry
  import opened LineGeometry

  // ----- used values -----

  ghost function StyleOf(env: Env, id: BoxId): LayoutStyle
    requires id < |env.tree.boxes|
  {
    env.tree.boxes[id].style
  }

  /** The used padding, every side its own property against the containing width. */
  ghost function UsedPadding(env: Env, id: BoxId): Sides<Au>
    requires WellFormed(env.tree) && id < |env.tree.boxes|
  {
    var cb := ContainingBlock(env, id).0;
    var padding := StyleOf(env, id).padding;
    Sides(left := ResolveOrZero(env.pct, padding.left, cb), right := ResolveOrZero(env.pct, padding.right, cb),
          top := ResolveOrZero(env.pct, padding.top, cb), bottom := ResolveOrZero(env.pct, padding.bottom, cb))
  }

  /** The used width and horizontal margins. */
  ghost function UsedWidths(env: Env, id: BoxId): Widths
    requires WellFormed(env.tree) && id < |env.tree.boxes|
  {
    ResolveWidths(env.pct, StyleOf(env, id), ContainingBlock(env, id).0, UsedPadding(env, id),
                  StyleOf(env, id).borderWidth)
  }

  /** How far a box's own position moves it. */
  ghost function OwnShift(env: Env, id: BoxId): Shift
    requires WellFormed(env.tree) && id < |env.tree.boxes|
  {
    var cb := ContainingBlock(env, id);
    var d := ResolveOffset(env.pct, StyleOf(env, id), cb.0, cb.1);
    if StyleOf(env, id).position.Relative? then Shift(d.x, d.y) else Shift(0, 0)
  }

  /** A value held between its bounds, the minimum last. */
  function Held(v: int, min: int, max: Option<Au>): int {
    Max(if max.Some? then Min(v, max.value) else v, min)
  }

  function UsedHeight(m: BoxModel, auto: int): int {
    if m.knownHeight.Some? then m.knownHeight.value else Held(auto, m.minHeight, m.maxHeight)
  }

  /** Whether the parent's margin takes its first or last child's over; the root's never does. */
  ghost predicate Absorbs(env: Env, edge: Edge, id: BoxId)
    requires WellFormed(env.tree) && id < |env.tree.boxes|
  {
    id != env.tree.root && PassesThrough(edge, StyleOf(env, id), ModelOf(env, id))
  }

  // ----- what is said about a finished page -----

  /** `inner` lies inside `outer` by exactly `edges`. */
  predicate Inside(inner: Rect, outer: Rect, edges: Sides<Au>) {
    && inner.origin.x == outer.origin.x + edges.left
    && inner.origin.y == outer.origin.y + edges.top
    && inner.origin.x + inner.size.w + edges.right == outer.origin.x + outer.size.w
    && inner.origin.y + inner.size.h + edges.bottom == outer.origin.y + outer.size.h
  }

  /** A box's three rectangles: its content of the used width and height, padding and border around it. */
  ghost predicate Nested(env: Env, id: BoxId, f: Fragment, auto: int)
    requires WellFormed(env.tree) && id < |env.tree.boxes|
  {
    && Inside(f.paddingBox, f.borderBox, StyleOf(env, id).borderWidth)
    && Inside(f.contentBox, f.paddingBox, UsedPadding(env, id))
    && f.contentBox.size.w == UsedWidths(env, id).content
    && f.contentBox.size.h == UsedHeight(ModelOf(env, id), auto)
  }

  /** Where a box's border box ends, its own shift taken back. */
  ghost function StaticBottom(env: Env, c: BoxId, f: Fragment): int
    requires WellFormed(env.tree) && c < |env.tree.boxes|
  {
    f.borderBox.origin.y + f.borderBox.size.h - OwnShift(env, c).dy
  }

  /** The gap above the `k`th child: below the child before it, or below the parent's content edge. */
  ghost function GapOver(env: Env, id: BoxId, k: nat): Au
    requires WellFormed(env.tree) && id < |env.tree.boxes| && k < |env.tree.boxes[id].children|
  {
    var children := env.tree.boxes[id].children;
    if k > 0 then
      Collapsed([EffectiveMargin(env, Edge.Bottom, children[k - 1]), EffectiveMargin(env, Edge.Top, children[k])])
    else if Absorbs(env, Edge.Top, id) then 0
    else EffectiveMargin(env, Edge.Top, children[0])
  }

  /**
   * The `k`th child in its static place: its used left margin from the content's left
   * edge, one gap below the child before it.
   */
  ghost predicate Follows(env: Env, id: BoxId, a: Arena, ids: seq<FragmentId>, x: int, y: int, k: nat)
    requires WellFormed(env.tree) && id < |env.tree.boxes| && k < |ids| <= |env.tree.boxes[id].children|
    requires forall i :: 0 <= i < |ids| ==> ids[i] < |a.fragments|
  {
    var children := env.tree.boxes[id].children;
    var origin := a.fragments[ids[k]].borderBox.origin;
    var above := if k == 0 then y else StaticBottom(env, children[k - 1], a.fragments[ids[k - 1]]);
    && origin.x - OwnShift(env, children[k]).dx == x + UsedWidths(env, children[k]).left
    && origin.y - OwnShift(env, children[k]).dy == above + GapOver(env, id, k)
  }

  /** How far down a container's children reach, a trailing margin it keeps included. */
  ghost function ContentReach(env: Env, id: BoxId, a: Arena, ids: seq<FragmentId>, y: int): int
    requires WellFormed(env.tree) && id < |env.tree.boxes| && 0 < |env.tree.boxes[id].children| == |ids|
    requires forall i :: 0 <= i < |ids| ==> ids[i] < |a.fragments|
  {
    var last := |ids| - 1;
    var c := env.tree.boxes[id].children[last];
    StaticBottom(env, c, a.fragments[ids[last]]) - y
    + (if Absorbs(env, Edge.Bottom, id) then 0 else EffectiveMargin(env, Edge.Bottom, c))
  }

  /** The lines of a box without block children; a failed shaping leaves none. */
  ghost function LinesOf(env: Env, id: BoxId): seq<LineBox>
    requires WellFormed(env.tree) && id < |env.tree.boxes|
  {
    var box := env.tree.boxes[id];
    if box.children == [] then []
    else
      var r := env.shape(box.children, InheritedTextStyle(box.style), UsedWidths(env, id).content);
      if r.Ok? then r.value else []
  }

  /** A container around its children, each of them in its place. */
  ghost predicate Encloses(env: Env, id: BoxId, a: Arena, fid: FragmentId)
    requires WellFormed(env.tree) && id < |env.tree.boxes| && IsBlockContainer(env.tree.boxes, id)
  {
    && fid < |a.fragments|
    && var f := a.fragments[fid];
    && |f.children| == |env.tree.boxes[id].children|
    && (forall k :: 0 <= k < |f.children| ==> f.children[k] < fid)
    && (forall k :: 0 <= k < |f.children| ==>
          Follows(env, id, a, f.children, f.contentBox.origin.x, f.contentBox.origin.y, k))
    && Nested(env, id, f, ContentReach(env, id, a, f.children, f.contentBox.origin.y))
  }

  /** A box without block children around its lines. */
  ghost predicate EnclosesLines(env: Env, id: BoxId, a: Arena, fid: FragmentId, s: Shift)
    requires WellFormed(env.tree) && id < |env.tree.boxes|
  {
    && fid < |a.fragments|
    && var f := a.fragments[fid];
    var lines := LinesOf(env, id);
    && (forall k :: 0 <= k < |f.children| ==> f.children[k] < fid)
    && LinesAt(a, f.children, lines, f.contentBox.origin.x, f.contentBox.origin.y, UsedWidths(env, id).content,
               StyleOf(env, id), s)
    && Nested(env, id, f, HeightOf(lines, |lines|))
  }

  /** The shift of a child in a parent moved by `s`. */
  ghost function Further(env: Env, c: BoxId, s: Shift): Shift
    requires WellFormed(env.tree) && c < |env.tree.boxes|
  {
    Shift(s.dx + OwnShift(env, c).dx, s.dy + OwnShift(env, c).dy)
  }

  /** Box `id`'s fragment and everything below it in place, the whole moved by `s` from where it would be static. */
  ghost predicate Flows(env: Env, id: BoxId, a: Arena, fid: FragmentId, s: Shift)
    requires WellFormed(env.tree) && id < |env.tree.boxes|
    decreases id
  {
    var children := env.tree.boxes[id].children;
    if IsBlockContainer(env.tree.boxes, id) then
      && Encloses(env, id, a, fid)
      && forall k :: 0 <= k < |children| ==>
           Flows(env, children[k], a, a.fragments[fid].children[k], Further(env, children[k], s))
    else
      EnclosesLines(env, id, a, fid, s)
  }

  // ----- when nothing saturates -----

  /** A box's edges are not negative and its sums are representable. */
  predicate EdgesFit(o: Point, m: BoxModel, h: Au) {
    && 0 <= m.contentWidth && 0 <= h
    && 0 <= m.padding.left && 0 <= m.padding.right && 0 <= m.padding.top && 0 <= m.padding.bottom
    && 0 <= m.border.left && 0 <= m.border.right && 0 <= m.border.top && 0 <= m.border.bottom
    && Fits(m.contentWidth + m.padding.left + m.padding.right + m.border.left + m.border.right)
    && Fits(h + m.padding.top + m.padding.bottom + m.border.top + m.border.bottom)
    && Fits(o.x + m.padding.left + m.border.left) && Fits(o.y + m.padding.top + m.border.top)
  }

  ghost predicate LeafUnsaturated(env: Env, id: BoxId, p: ChildPlacement, a: Arena)
    requires WellFormed(env.tree) && id < |env.tree.boxes|
  {
    && LinesFit(LinesOf(env, id), ContentOrigin(p.origin, p.model))
    && EdgesFit(p.origin, p.model, LeafHeight(p, LeafContent(env, env.tree.boxes[id], p, a).height))
  }

  ghost predicate FrameUnsaturated(f: Frame) {
    && EdgesFit(f.place.origin, f.place.model, ContainerHeight(f))
    && (f.prevMarginBottom.Some? ==> Fits(f.contentBottom + f.prevMarginBottom.value))
  }

  /** The sums of placing one child and of moving the cursor below it. */
  predicate ChildUnsaturated(f: Frame, p: ChildPlacement, gap: Au, height: Au) {
    && Fits(f.contentOrigin.x + p.model.marginLeft)
    && Fits(f.contentOrigin.y + f.contentBottom) && Fits(f.contentOrigin.y + f.contentBottom + gap)
    && Fits(p.origin.y - f.contentOrigin.y) && Fits(p.origin.y - f.contentOrigin.y + height)
  }

  /** No sum in the subtree saturates on the way down. */
  ghost predicate BoxUnsaturated(env: Env, id: BoxId, p: ChildPlacement, a: Arena)
    requires WellFormed(env.tree) && id < |env.tree.boxes|
    decreases id, 1, 0
  {
    if IsBlockContainer(env.tree.boxes, id) then
      var f := OpenFrame(env.tree.boxes[id], p, |a.fragments|);
      ChildrenUnsaturated(env, id, f, a) && FrameUnsaturated(LayChildren(env, id, f, a).frame)
    else
      LeafUnsaturated(env, id, p, a)
  }

  ghost predicate ChildrenUnsaturated(env: Env, id: BoxId, f: Frame, a: Arena)
    requires WellFormed(env.tree) && id < |env.tree.boxes| && f.blockChildren == env.tree.boxes[id].children
    decreases id, 0, |f.blockChildren| - f.nextChild
  {
    f.nextChild < |f.blockChildren| ==>
      var c := f.blockChildren[f.nextChild];
      var p := PlaceChild(env, f, c);
      var laid := LayBox(env, c, p, a);
      && ChildUnsaturated(f, p, GapBefore(f, EffectiveMargin(env, Edge.Top, c)), laid.height)
      && BoxUnsaturated(env, c, p, a)
      && ChildrenUnsaturated(env, id, Receive(f.(nextChild := f.nextChild + 1), p, laid), laid.arena)
  }

  // ----- later fragments change nothing -----

  lemma EnclosesKept(env: Env, id: BoxId, a: Arena, b: Arena, fid: FragmentId)
    requires WellFormed(env.tree) && id < |env.tree.boxes| && IsBlockContainer(env.tree.boxes, id)
    requires Keeps(a, b) && Encloses(env, id, a, fid)
    ensures Encloses(env, id, b, fid) && b.fragments[fid] == a.fragments[fid]
  {
    hide WellFormed, OwnShift, Nested, UsedWidths, GapOver, EffectiveMargin, Absorbs;
    var f := a.fragments[fid];
    forall k | 0 <= k < |f.children|
      ensures Follows(env, id, b, f.children, f.contentBox.origin.x, f.contentBox.origin.y, k)
    {
      assert Follows(env, id, a, f.children, f.contentBox.origin.x, f.contentBox.origin.y, k);
    }
  }

  lemma LinesKept(env: Env, id: BoxId, a: Arena, b: Arena, fid: FragmentId, s: Shift)
    requires WellFormed(env.tree) && id < |env.tree.boxes| && Keeps(a, b) && EnclosesLines(env, id, a, fid, s)
    ensures EnclosesLines(env, id, b, fid, s)
  {
    hide WellFormed, Nested, LinesOf, UsedWidths, LinesAt;
    AllLinesKept(a, b, a.fragments[fid].children, LinesOf(env, id), a.fragments[fid].contentBox.origin.x,
                 a.fragments[fid].contentBox.origin.y, UsedWidths(env, id).content, StyleOf(env, id), s);
  }

  lemma {:induction false} FlowsKept(env: Env, id: BoxId, a: Arena, b: Arena, fid: FragmentId, s: Shift)
    requires WellFormed(env.tree) && id < |env.tree.boxes| && Keeps(a, b) && Flows(env, id, a, fid, s)
    ensures Flows(env, id, b, fid, s)
    decreases id
  {
    hide UniqueParents, Homogeneous, Further, Encloses, EnclosesLines, Keeps;
    var children := env.tree.boxes[id].children;
    if IsBlockContainer(env.tree.boxes, id) {
      EnclosesFacts(env, id, a, fid);
      EnclosesKept(env, id, a, b, fid);
      forall k | 0 <= k < |children|
        ensures Flows(env, children[k], b, a.fragments[fid].children[k], Further(env, children[k], s))
      {
        FlowsKept(env, children[k], a, b, a.fragments[fid].children[k], Further(env, children[k], s));
      }
    } else {
      LinesKept(env, id, a, b, fid, s);
    }
  }

  lemma EnclosesFacts(env: Env, id: BoxId, a: Arena, fid: FragmentId)
    requires WellFormed(env.tree) && id < |env.tree.boxes| && IsBlockContainer(env.tree.boxes, id)
    requires Encloses(env, id, a, fid)
    ensures fid < |a.fragments| && |a.fragments[fid].children| == |env.tree.boxes[id].children|
    ensures forall k :: 0 <= k < |a.fragments[fid].children| ==> a.fragments[fid].children[k] < fid
  {
  }

  // ----- an exact shift moves everything -----

  lemma LinesMoved(env: Env, id: BoxId, a: Arena, b: Arena, start: nat, d: Point, fid: FragmentId, s: Shift)
    requires WellFormed(env.tree) && id < |env.tree.boxes| && EnclosesLines(env, id, a, fid, s)
    requires MovedFrom(a, b, start, d) && ClosedFrom(a, start) && start <= fid
    ensures EnclosesLines(env, id, b, fid, Plus(s, d))
  {
    hide WellFormed, LinesOf, UsedWidths, UsedPadding, UsedHeight, ModelOf, LinesAt, HeightOf, ClosedFrom;
    var f := a.fragments[fid];
    ListedFrom(a, start, fid);
    AllLinesMoved(a, b, start, d, f.children, LinesOf(env, id), f.contentBox.origin.x, f.contentBox.origin.y,
                  UsedWidths(env, id).content, StyleOf(env, id), s);
  }

  lemma EnclosesMoved(env: Env, id: BoxId, a: Arena, b: Arena, start: nat, d: Point, fid: FragmentId)
    requires WellFormed(env.tree) && id < |env.tree.boxes| && IsBlockContainer(env.tree.boxes, id)
    requires Encloses(env, id, a, fid)
    requires MovedFrom(a, b, start, d) && ClosedFrom(a, start) && start <= fid
    ensures Encloses(env, id, b, fid) && b.fragments[fid].children == a.fragments[fid].children
  {
    hide WellFormed, OwnShift, UsedWidths, UsedPadding, UsedHeight, ModelOf, GapOver, EffectiveMargin, Absorbs;
    var f, g := a.fragments[fid], b.fragments[fid];
    forall k | 0 <= k < |f.children|
      ensures Follows(env, id, b, f.children, g.contentBox.origin.x, g.contentBox.origin.y, k)
    {
      assert Follows(env, id, a, f.children, f.contentBox.origin.x, f.contentBox.origin.y, k);
    }
  }

  /** Moving a whole subtree keeps everything in it in place. */
  lemma {:induction false} FlowsMoved(env: Env, id: BoxId, a: Arena, b: Arena, start: nat, d: Point, fid: FragmentId,
                                      s: Shift)
    requires WellFormed(env.tree) && id < |env.tree.boxes| && Flows(env, id, a, fid, s)
    requires MovedFrom(a, b, start, d) && ClosedFrom(a, start) && start <= fid
    ensures Flows(env, id, b, fid, Plus(s, d))
    decreases id
  {
    hide UniqueParents, Homogeneous, OwnShift, Encloses, EnclosesLines, MovedFrom;
    var children := env.tree.boxes[id].children;
    if IsBlockContainer(env.tree.boxes, id) {
      EnclosesFacts(env, id, a, fid);
      EnclosesMoved(env, id, a, b, start, d, fid);
      forall k | 0 <= k < |children|
        ensures Flows(env, children[k], b, a.fragments[fid].children[k], Further(env, children[k], Plus(s, d)))
      {
        FlowsMoved(env, children[k], a, b, start, d, a.fragments[fid].children[k], Further(env, children[k], s));
        assert Plus(Further(env, children[k], s), d) == Further(env, children[k], Plus(s, d));
      }
    } else {
      LinesMoved(env, id, a, b, start, d, fid, s);
    }
  }

  lemma ExactMoves(a: Arena, start: nat, style: LayoutStyle, d: Point)
    requires style.position.Relative? ==> ExactShift(a.fragments, start, d)
    ensures MovedFrom(a, Positioned(a, start, style, d), start, if style.position.Relative? then d else ORIGIN)
  {
  }

  // ----- one box -----

  lemma ModelFields(env: Env, id: BoxId)
    requires WellFormed(env.tree) && id < |env.tree.boxes|
    ensures var m := ModelOf(env, id);
            && m.contentWidth == UsedWidths(env, id).content && m.marginLeft == UsedWidths(env, id).left
            && m.padding == UsedPadding(env, id) && m.border == StyleOf(env, id).borderWidth
  {
    hide ContainingBlock, ResolveWidths, ResolveHeight, UsedContentSize, UniqueParents, Homogeneous;
  }

  /** A box's own rectangles, as they are appended. */
  lemma OwnPlaced(env: Env, id: BoxId, p: ChildPlacement, h: Au, auto: int, childIds: seq<FragmentId>, a: Arena)
    requires WellFormed(env.tree) && id < |env.tree.boxes| && p.model == ModelOf(env, id)
    requires EdgesFit(p.origin, p.model, h) && h == UsedHeight(p.model, auto)
    ensures var box := env.tree.boxes[id];
            var r := PushBox(box.node, box.kind.AnonymousBlock?, box.style, p, h, childIds, a);
            && |r.fragments| == |a.fragments| + 1
            && var f := r.fragments[|a.fragments|];
            && Nested(env, id, f, auto) && f.children == childIds
            && f.borderBox.origin == p.origin && f.contentBox.origin == ContentOrigin(p.origin, p.model)
            && f.borderBox.size.h == BorderBoxSize(p.model.contentWidth, h, p.model.padding, p.model.border).h
  {
    hide ModelOf, UsedWidths, UsedPadding, WellFormed, UsedHeight;
    ModelFields(env, id);
  }

  /** What closing leaves: the box where its placement says, moved by its own shift. */
  ghost predicate PlacedAt(env: Env, id: BoxId, a: Arena, fid: FragmentId, origin: Point, height: Au)
    requires WellFormed(env.tree) && id < |env.tree.boxes|
  {
    && Flows(env, id, a, fid, OwnShift(env, id)) && fid < |a.fragments|
    && a.fragments[fid].borderBox.origin.x == origin.x + OwnShift(env, id).dx
    && a.fragments[fid].borderBox.origin.y == origin.y + OwnShift(env, id).dy
    && a.fragments[fid].borderBox.size.h == height
  }

  /** From the box as appended to the box as positioned. */
  lemma ClosePlaces(env: Env, id: BoxId, p: ChildPlacement, h: Au, auto: int, childIds: seq<FragmentId>, a0: Arena,
                    a: Arena)
    requires WellFormed(env.tree) && id < |env.tree.boxes| && p.model == ModelOf(env, id)
    requires (p.cbWidth, p.cbHeight) == ContainingBlock(env, id)
    requires EdgesFit(p.origin, p.model, h) && h == UsedHeight(p.model, auto) && Extends(a0, a)
    requires forall k :: 0 <= k < |childIds| ==> |a0.fragments| <= childIds[k] < |a.fragments|
    requires var box := env.tree.boxes[id];
             var pushed := PushBox(box.node, box.kind.AnonymousBlock?, box.style, p, h, childIds, a);
             && Flows(env, id, pushed, |a.fragments|, Shift(0, 0))
             && (box.style.position.Relative? ==>
                   ExactShift(pushed.fragments, |a0.fragments|,
                              ResolveOffset(env.pct, box.style, p.cbWidth, p.cbHeight)))
    ensures var box := env.tree.boxes[id];
            var r := CloseBox(env, box.node, box.kind.AnonymousBlock?, box.style, p, h, |a0.fragments|, childIds, a);
            PlacedAt(env, id, r.arena, r.id, p.origin, r.height)
  {
    hide WellFormed, ModelOf, Extends, Flows, ResolveOffset, MovedFrom, ClosedFrom, ContainingBlock, PushBox,
         EdgesFit, UsedHeight, ExactShift, Positioned, BorderBoxSize;
    var box := env.tree.boxes[id];
    var start := |a0.fragments|;
    var pushed := PushBox(box.node, box.kind.AnonymousBlock?, box.style, p, h, childIds, a);
    var d := ResolveOffset(env.pct, box.style, p.cbWidth, p.cbHeight);
    var moved := if box.style.position.Relative? then d else ORIGIN;
    var after := Positioned(pushed, start, box.style, d);
    OwnPlaced(env, id, p, h, auto, childIds, a);
    PushedCloses(env, id, p, h, childIds, a0, a);
    ArenaGrows(a0, a);
    ExactMoves(pushed, start, box.style, d);
    FlowsMoved(env, id, pushed, after, start, moved, |a.fragments|, Shift(0, 0));
    assert Plus(Shift(0, 0), moved) == OwnShift(env, id);
    MovedAt(pushed, after, start, moved, |a.fragments|);
  }

  lemma MovedAt(a: Arena, b: Arena, start: nat, d: Point, i: nat)
    requires MovedFrom(a, b, start, d) && start <= i < |a.fragments|
    ensures |b.fragments| == |a.fragments| && FragmentMoved(a.fragments[i], b.fragments[i], d.x, d.y)
  {
  }

  lemma PushedCloses(env: Env, id: BoxId, p: ChildPlacement, h: Au, childIds: seq<FragmentId>, a0: Arena, a: Arena)
    requires id < |env.tree.boxes| && Extends(a0, a)
    requires forall k :: 0 <= k < |childIds| ==> |a0.fragments| <= childIds[k] < |a.fragments|
    ensures var box := env.tree.boxes[id];
            var pushed := PushBox(box.node, box.kind.AnonymousBlock?, box.style, p, h, childIds, a);
            ClosedFrom(pushed, |a0.fragments|) && Keeps(a, pushed)
  {
    hide Inset, BorderBoxSize;
  }

  // ----- a box with lines -----

  lemma LeafPlaced(env: Env, id: BoxId, p: ChildPlacement, a: Arena)
    requires WellFormed(env.tree) && id < |env.tree.boxes| && !IsBlockContainer(env.tree.boxes, id) && Indexed(a)
    requires p.model == ModelOf(env, id) && (p.cbWidth, p.cbHeight) == ContainingBlock(env, id)
    requires LeafUnsaturated(env, id, p, a) && LeafExact(env, env.tree.boxes[id], p, a)
    ensures var r := LayLeaf(env, env.tree.boxes[id], p, a);
            PlacedAt(env, id, r.arena, r.id, p.origin, r.height)
  {
    hide WellFormed, ModelOf, ContainingBlock, Extends, LinesFit, EdgesFit, ExactShift, PushBox, ResolveOffset,
         CloseBox, WithLines, LinesAt, PlacedAt, Nested, UsedHeight, LeafHeight;
    var box := env.tree.boxes[id];
    var content := LeafContent(env, box, p, a);
    var lines := LinesOf(env, id);
    var auto := HeightOf(lines, |lines|);
    var h := LeafHeight(p, content.height);
    LeafContentShape(env, box, p, a);
    ContentPlaced(env, id, p, a);
    LeafHeld(p, content.height);
    var pushed := PushBox(box.node, box.kind.AnonymousBlock?, box.style, p, h, content.ids, content.arena);
    OwnPlaced(env, id, p, h, auto, content.ids, content.arena);
    PushedCloses(env, id, p, h, content.ids, a, content.arena);
    AllLinesKept(content.arena, pushed, content.ids, lines, ContentOrigin(p.origin, p.model).x,
                 ContentOrigin(p.origin, p.model).y, UsedWidths(env, id).content, box.style, Shift(0, 0));
    assert EnclosesLines(env, id, pushed, |content.arena.fragments|, Shift(0, 0));
    ClosePlaces(env, id, p, h, auto, content.ids, a, content.arena);
  }

  lemma LeafHeld(p: ChildPlacement, auto: Au)
    ensures LeafHeight(p, auto) == UsedHeight(p.model, auto)
  {
  }

  lemma ContentPlaced(env: Env, id: BoxId, p: ChildPlacement, a: Arena)
    requires WellFormed(env.tree) && id < |env.tree.boxes| && Indexed(a) && p.model == ModelOf(env, id)
    requires LinesFit(LinesOf(env, id), ContentOrigin(p.origin, p.model))
    ensures var r := LeafContent(env, env.tree.boxes[id], p, a);
            var lines := LinesOf(env, id);
            var o := ContentOrigin(p.origin, p.model);
            && r.height == HeightOf(lines, |lines|)
            && LinesAt(r.arena, r.ids, lines, o.x, o.y, UsedWidths(env, id).content, StyleOf(env, id), Shift(0, 0))
  {
    hide WellFormed, ModelOf, LineAt, WithLines, LinesFit, ContentOrigin, UsedWidths;
    ModelFields(env, id);
    var box := env.tree.boxes[id];
    if box.children != [] && env.shape(box.children, InheritedTextStyle(box.style), p.model.contentWidth).Ok? {
      AllLinesPlaced(a, LinesOf(env, id), ContentOrigin(p.origin, p.model), p.model.contentWidth, StyleOf(env, id));
    }
  }

  // ----- a box with block children -----

  /** The children laid out so far are in place, and the cursor stands below the last of them. */
  ghost predicate Stacked(env: Env, id: BoxId, f: Frame, a: Arena)
    requires WellFormed(env.tree) && id < |env.tree.boxes|
  {
    var n := f.nextChild;
    && f.blockChildren == env.tree.boxes[id].children && |f.childIds| == n <= |f.blockChildren|
    && (forall k :: 0 <= k < n ==> f.childIds[k] < |a.fragments|)
    && (forall k :: 0 <= k < n ==>
          Flows(env, f.blockChildren[k], a, f.childIds[k], OwnShift(env, f.blockChildren[k])))
    && (forall k :: 0 <= k < n ==> Follows(env, id, a, f.childIds, f.contentOrigin.x, f.contentOrigin.y, k))
    && (if n == 0 then f.contentBottom == 0 && f.prevMarginBottom == None
        else
          && f.contentOrigin.y + f.contentBottom
             == StaticBottom(env, f.blockChildren[n - 1], a.fragments[f.childIds[n - 1]])
          && f.prevMarginBottom == Some(EffectiveMargin(env, Edge.Bottom, f.blockChildren[n - 1])))
  }

  /** The frame's own side of the gap rule. */
  lemma GapIsGapOver(env: Env, id: BoxId, f: Frame, a: Arena)
    requires WellFormed(env.tree) && id < |env.tree.boxes| && Stacked(env, id, f, a)
    requires f.nextChild < |f.blockChildren| && f.firstChildCollapses == Absorbs(env, Edge.Top, id)
    ensures GapBefore(f, EffectiveMargin(env, Edge.Top, f.blockChildren[f.nextChild])) == GapOver(env, id, f.nextChild)
  {
    hide WellFormed, EffectiveMargin, Absorbs, Flows, Follows, StaticBottom;
  }

  lemma PlacedFields(env: Env, f: Frame, c: BoxId)
    requires WellFormed(env.tree) && c < |env.tree.boxes| && PlaceChild(env, f, c).model == ModelOf(env, c)
    requires ChildUnsaturated(f, PlaceChild(env, f, c), GapBefore(f, EffectiveMargin(env, Edge.Top, c)), 0)
    ensures var p := PlaceChild(env, f, c);
            && p.origin.x == f.contentOrigin.x + UsedWidths(env, c).left
            && p.origin.y == f.contentOrigin.y + f.contentBottom + GapBefore(f, EffectiveMargin(env, Edge.Top, c))
            && p.effectiveBottom == EffectiveMargin(env, Edge.Bottom, c)
            && p.cbWidth == f.place.model.contentWidth && p.cbHeight == f.place.model.knownHeight
  {
    hide WellFormed, EffectiveMargin, ModelOf, ResolveBoxModel, UsedWidths, GapBefore;
    ModelFields(env, c);
  }

  /** The children already placed stay in place when the next one is laid out. */
  lemma StackedKept(env: Env, id: BoxId, f: Frame, a: Arena, b: Arena)
    requires WellFormed(env.tree) && id < |env.tree.boxes| && Stacked(env, id, f, a) && Keeps(a, b)
    ensures Stacked(env, id, f, b)
  {
    hide UniqueParents, Homogeneous, Flows, OwnShift, UsedWidths, GapOver, EffectiveMargin;
    var n := f.nextChild;
    forall k | 0 <= k < n ensures Flows(env, f.blockChildren[k], b, f.childIds[k], OwnShift(env, f.blockChildren[k])) {
      FlowsKept(env, f.blockChildren[k], a, b, f.childIds[k], OwnShift(env, f.blockChildren[k]));
    }
    forall k | 0 <= k < n ensures Follows(env, id, b, f.childIds, f.contentOrigin.x, f.contentOrigin.y, k) {
      assert Follows(env, id, a, f.childIds, f.contentOrigin.x, f.contentOrigin.y, k);
    }
  }

  /** One more child in place. */
  lemma StackedNext(env: Env, id: BoxId, f: Frame, b: Arena, p: ChildPlacement, laid: Laid)
    requires WellFormed(env.tree) && id < |env.tree.boxes| && Stacked(env, id, f, b) && laid.arena == b
    requires f.nextChild < |f.blockChildren| && f.firstChildCollapses == Absorbs(env, Edge.Top, id)
    requires var c := f.blockChildren[f.nextChild];
             && p == PlaceChild(env, f, c) && p.model == ModelOf(env, c)
             && ChildUnsaturated(f, p, GapBefore(f, EffectiveMargin(env, Edge.Top, c)), laid.height)
             && ChildUnsaturated(f, p, GapBefore(f, EffectiveMargin(env, Edge.Top, c)), 0)
             && PlacedAt(env, c, b, laid.id, p.origin, laid.height)
    ensures Stacked(env, id, Receive(f.(nextChild := f.nextChild + 1), p, laid), b)
  {
    hide UniqueParents, Homogeneous, Flows, OwnShift, UsedWidths, GapOver, EffectiveMargin, PlaceChild, ModelOf,
         Absorbs, GapBefore;
    var n := f.nextChild;
    var c := f.blockChildren[n];
    var g := Receive(f.(nextChild := n + 1), p, laid);
    PlacedFields(env, f, c);
    GapIsGapOver(env, id, f, b);
    forall k | 0 <= k < n + 1 ensures Follows(env, id, b, g.childIds, g.contentOrigin.x, g.contentOrigin.y, k) {
      if k < n {
        assert Follows(env, id, b, f.childIds, f.contentOrigin.x, f.contentOrigin.y, k);
      }
    }
  }

  lemma NextChildModel(env: Env, id: BoxId, f: Frame)
    requires WellFormed(env.tree) && FrameOf(env, id, f) && f.nextChild < |f.blockChildren|
    ensures var c := f.blockChildren[f.nextChild];
            && PlaceChild(env, f, c).model == ModelOf(env, c)
            && ContainingBlock(env, c) == (f.place.model.contentWidth, f.place.model.knownHeight)
  {
    hide ResolveBoxModel, EffectiveMargin, Homogeneous;
    PlacedModel(env, id, f);
    ParentOfChild(env.tree.boxes, id, f.nextChild);
  }

  lemma NothingStacked(env: Env, id: BoxId, f: Frame, a: Arena)
    requires WellFormed(env.tree) && id < |env.tree.boxes| && f.blockChildren == env.tree.boxes[id].children
    requires f.nextChild == 0 && f.childIds == [] && f.contentBottom == 0 && f.prevMarginBottom == None
    ensures Stacked(env, id, f, a)
  {
    hide WellFormed, Flows, Follows, StaticBottom;
  }

  lemma {:induction false} ChildrenPlaced(env: Env, id: BoxId, f: Frame, a: Arena)
    requires WellFormed(env.tree) && FrameOf(env, id, f) && Stacked(env, id, f, a) && Indexed(a)
    requires f.firstChildCollapses == Absorbs(env, Edge.Top, id)
    requires ChildrenUnsaturated(env, id, f, a) && ChildrenExact(env, id, f, a)
    ensures var r := LayChildren(env, id, f, a);
            Stacked(env, id, r.frame, r.arena)
    decreases id, 0, |f.blockChildren| - f.nextChild
  {
    hide UniqueParents, Homogeneous, Stacked, LayBox, PlaceChild, Receive, Absorbs, ModelOf, PlacedAt, Extends, Indexed,
         BoxUnsaturated, BoxExact, EffectiveMargin, GapBefore, Keeps, ContainingBlock, ChildUnsaturated;
    if f.nextChild < |f.blockChildren| {
      var c := f.blockChildren[f.nextChild];
      var p := PlaceChild(env, f, c);
      var laid := LayBox(env, c, p, a);
      NextChildModel(env, id, f);
      PlaceFrame(env, f, c);
      BoxPlaced(env, c, p, a);
      BoxShape(env, c, p, a);
      ExtendsKeeps(a, laid.arena);
      ExtendsIndexed(a, laid.arena);
      StackedKept(env, id, f, a, laid.arena);
      NoHeight(f, p, GapBefore(f, EffectiveMargin(env, Edge.Top, c)), laid.height);
      StackedNext(env, id, f, laid.arena, p, laid);
      var g := Receive(f.(nextChild := f.nextChild + 1), p, laid);
      FrameGoesOn(f, p, laid);
      ChildrenPlaced(env, id, g, laid.arena);
    }
  }

  lemma NoHeight(f: Frame, p: ChildPlacement, gap: Au, height: Au)
    requires ChildUnsaturated(f, p, gap, height)
    ensures ChildUnsaturated(f, p, gap, 0)
  {
  }

  lemma PlaceFrame(env: Env, f: Frame, c: BoxId)
    requires WellFormed(env.tree) && c < |env.tree.boxes|
    ensures var p := PlaceChild(env, f, c);
            p.cbWidth == f.place.model.contentWidth && p.cbHeight == f.place.model.knownHeight
  {
    hide WellFormed, EffectiveMargin, ResolveBoxModel, GapBefore;
  }

  lemma FrameGoesOn(f: Frame, p: ChildPlacement, laid: Laid)
    ensures var g := Receive(f.(nextChild := f.nextChild + 1), p, laid);
            && SameIdentity(g, f) && g.nextChild == f.nextChild + 1
  {
  }

  // ----- closing a container -----

  lemma ContainerPlaced(env: Env, id: BoxId, f: Frame, a0: Arena, a: Arena)
    requires WellFormed(env.tree) && id < |env.tree.boxes| && IsBlockContainer(env.tree.boxes, id)
    requires Stacked(env, id, f, a) && f.nextChild == |f.blockChildren| && Extends(a0, a)
    requires f.node == env.tree.boxes[id].node && f.style == env.tree.boxes[id].style
    requires f.anonymous == env.tree.boxes[id].kind.AnonymousBlock? && f.fragStart == |a0.fragments|
    requires forall k :: 0 <= k < |f.childIds| ==> |a0.fragments| <= f.childIds[k]
    requires f.place.model == ModelOf(env, id) && (f.place.cbWidth, f.place.cbHeight) == ContainingBlock(env, id)
    requires f.contentOrigin == ContentOrigin(f.place.origin, f.place.model)
    requires f.bottomCollapses == Absorbs(env, Edge.Bottom, id)
    requires FrameUnsaturated(f) && FrameExact(env, f, a)
    ensures var r := CloseFrame(env, f, a);
            PlacedAt(env, id, r.arena, r.id, f.place.origin, r.height)
  {
    hide UniqueParents, Homogeneous, ModelOf, ContainingBlock, Extends, ExactShift, PushBox, ResolveOffset, CloseBox,
         PlacedAt, Nested, UsedHeight, ContainerHeight, EdgesFit, Flows, Follows, Absorbs, ContentOrigin,
         EffectiveMargin, ContentReach, StaticBottom, OwnShift;
    var box := env.tree.boxes[id];
    var h := ContainerHeight(f);
    var auto := ContentReach(env, id, a, f.childIds, f.contentOrigin.y);
    ReachOfFrame(env, id, f, a);
    var pushed := PushBox(box.node, box.kind.AnonymousBlock?, box.style, f.place, h, f.childIds, a);
    OwnPlaced(env, id, f.place, h, auto, f.childIds, a);
    PushedCloses(env, id, f.place, h, f.childIds, a0, a);
    StackedKept(env, id, f, a, pushed);
    PushedFlows(env, id, f, a, pushed);
    ClosePlaces(env, id, f.place, h, auto, f.childIds, a0, a);
  }

  lemma ReachOfFrame(env: Env, id: BoxId, f: Frame, a: Arena)
    requires WellFormed(env.tree) && id < |env.tree.boxes| && IsBlockContainer(env.tree.boxes, id)
    requires Stacked(env, id, f, a) && f.nextChild == |f.blockChildren|
    requires f.bottomCollapses == Absorbs(env, Edge.Bottom, id) && FrameUnsaturated(f)
    ensures ContainerHeight(f) == UsedHeight(f.place.model, ContentReach(env, id, a, f.childIds, f.contentOrigin.y))
  {
    hide UniqueParents, Homogeneous, Flows, Follows, Absorbs, EffectiveMargin, StaticBottom, EdgesFit;
  }

  /** The appended container is in place over its children. */
  lemma PushedFlows(env: Env, id: BoxId, f: Frame, a: Arena, pushed: Arena)
    requires WellFormed(env.tree) && id < |env.tree.boxes| && IsBlockContainer(env.tree.boxes, id)
    requires Stacked(env, id, f, a) && Stacked(env, id, f, pushed) && Keeps(a, pushed)
    requires f.nextChild == |f.blockChildren|
    requires |pushed.fragments| == |a.fragments| + 1
    requires var own := pushed.fragments[|a.fragments|];
             && own.children == f.childIds && own.contentBox.origin == f.contentOrigin
             && Nested(env, id, own, ContentReach(env, id, a, f.childIds, f.contentOrigin.y))
    ensures Flows(env, id, pushed, |a.fragments|, Shift(0, 0))
  {
    hide UniqueParents, Homogeneous, OwnShift, Nested, Follows, Absorbs, EffectiveMargin;
    var children := env.tree.boxes[id].children;
    assert ContentReach(env, id, pushed, f.childIds, f.contentOrigin.y)
        == ContentReach(env, id, a, f.childIds, f.contentOrigin.y);
    forall k | 0 <= k < |children|
      ensures Flows(env, children[k], pushed, f.childIds[k], Further(env, children[k], Shift(0, 0)))
    {
      assert Further(env, children[k], Shift(0, 0)) == OwnShift(env, children[k]);
    }
  }

  /** Every box laid out is in place. */
  lemma {:induction false} BoxPlaced(env: Env, id: BoxId, p: ChildPlacement, a: Arena)
    requires WellFormed(env.tree) && id < |env.tree.boxes| && id != env.tree.root && Indexed(a)
    requires p.model == ModelOf(env, id) && (p.cbWidth, p.cbHeight) == ContainingBlock(env, id)
    requires BoxUnsaturated(env, id, p, a) && BoxExact(env, id, p, a)
    ensures var r := LayBox(env, id, p, a);
            PlacedAt(env, id, r.arena, r.id, p.origin, r.height)
    decreases id, 1, 0
  {
    hide UniqueParents, Homogeneous, Stacked, Extends, Indexed, ModelOf, ContainingBlock, LeafUnsaturated, LeafExact,
         FrameUnsaturated, FrameExact, PlacedAt, Absorbs, LayLeaf, CloseFrame, OpenFrame, ChildrenMirrored;
    if IsBlockContainer(env.tree.boxes, id) {
      var f := OpenFrame(env.tree.boxes[id], p, |a.fragments|);
      OpenedFrame(env, id, p, a);
      NothingStacked(env, id, f, a);
      ChildrenPlaced(env, id, f, a);
      WholeFrame(env, id, f, a);
      var done := LayChildren(env, id, f, a);
      ContainerPlaced(env, id, done.frame, a, done.arena);
    } else {
      LeafPlaced(env, id, p, a);
    }
  }

  lemma OpenedFrame(env: Env, id: BoxId, p: ChildPlacement, a: Arena)
    requires WellFormed(env.tree) && id < |env.tree.boxes| && id != env.tree.root && p.model == ModelOf(env, id)
    requires Indexed(a)
    ensures var f := OpenFrame(env.tree.boxes[id], p, |a.fragments|);
            && FrameOf(env, id, f) && Fresh(env, id, f, a) && f.place == p
            && f.firstChildCollapses == Absorbs(env, Edge.Top, id)
            && f.bottomCollapses == Absorbs(env, Edge.Bottom, id)
  {
    hide WellFormed, ModelOf, PassesThrough;
  }

  /** A frame with nothing laid out in it yet. */
  ghost predicate Fresh(env: Env, id: BoxId, f: Frame, a: Arena)
    requires id < |env.tree.boxes|
  {
    var box := env.tree.boxes[id];
    && f.nextChild == 0 && f.childIds == [] && f.contentBottom == 0 && f.prevMarginBottom == None
    && f.blockChildren == box.children && f.node == box.node && f.style == box.style
    && f.anonymous == box.kind.AnonymousBlock? && f.fragStart == |a.fragments|
    && f.contentOrigin == ContentOrigin(f.place.origin, f.place.model)
  }

  /** What is fixed when a frame is opened still holds when its last child is done. */
  lemma WholeFrame(env: Env, id: BoxId, f: Frame, a: Arena)
    requires WellFormed(env.tree) && id < |env.tree.boxes| && Fresh(env, id, f, a) && Indexed(a)
    ensures var r := LayChildren(env, id, f, a);
            && SameIdentity(r.frame, f) && r.frame.nextChild == |f.blockChildren| && Extends(a, r.arena)
            && forall k :: 0 <= k < |r.frame.childIds| ==> |a.fragments| <= r.frame.childIds[k] < |r.arena.fragments|
  {
    hide UniqueParents, Homogeneous, Extends, LayChildren, Mirrors, Outline, LabelAt, PostOrderFrom;
    ExtendsRefl(a, a.error);
    ChildrenShape(env, id, f, a, a);
  }

  // ----- the page -----

  /** Nothing saturates on the whole page: no sum on the way down, no relative shift. */
  ghost predicate PageFits(env: Env)
    requires WellFormed(env.tree)
  {
    var root := env.tree.root;
    && ShiftsFit(env)
    && if IsBlockContainer(env.tree.boxes, root) then
         && ChildrenUnsaturated(env, root, RootFrame(env), EMPTY_ARENA)
         && FrameUnsaturated(LayChildren(env, root, RootFrame(env), EMPTY_ARENA).frame)
       else LeafUnsaturated(env, root, RootPlacement(env), EMPTY_ARENA)
  }

  /** The root's containing block is the viewport, and its border box starts at its used margins. */
  lemma RootOrigin(env: Env)
    requires WellFormed(env.tree)
    ensures var root := env.tree.root;
            && ContainingBlock(env, root) == (env.viewport.w, Some(env.viewport.h))
            && RootPlacement(env).model == ModelOf(env, root)
            && RootPlacement(env).cbWidth == env.viewport.w && RootPlacement(env).cbHeight == Some(env.viewport.h)
            && RootPlacement(env).origin.x == UsedWidths(env, root).left
            && RootPlacement(env).origin.y
               == ResolveOrZero(env.pct, StyleOf(env, root).margin.top, env.viewport.w)
  {
    hide UsedWidths, ResolveWidths, UniqueParents, Homogeneous;
    assert Parent(env.tree.boxes, env.tree.root).None?;
    ModelFields(env, env.tree.root);
  }

  /**
   * A laid-out page: the root at its own margins, every box around its content, every
   * child at its used left margin and its gap, every line and glyph in its place, and
   * each subtree moved by exactly the shifts of the relative boxes above it.
   */
  lemma PageInPlace(env: Env)
    requires WellFormed(env.tree) && PageFits(env)
    ensures var r := LayRoot(env);
            var root := env.tree.root;
            && Flows(env, root, r.arena, r.id, OwnShift(env, root)) && r.id < |r.arena.fragments|
            && var origin := r.arena.fragments[r.id].borderBox.origin;
            && origin.x - OwnShift(env, root).dx == UsedWidths(env, root).left
            && origin.y - OwnShift(env, root).dy
               == ResolveOrZero(env.pct, StyleOf(env, root).margin.top, env.viewport.w)
  {
    hide UniqueParents, Homogeneous, Stacked, Extends, ModelOf, ContainingBlock, LeafUnsaturated, LeafExact,
         FrameUnsaturated, FrameExact, Absorbs, LayLeaf, CloseFrame, ChildrenMirrored, RootPlacement, RootFrame, Flows,
         UsedWidths, OwnShift, ChildrenExact, ChildrenUnsaturated;
    var root := env.tree.root;
    var p := RootPlacement(env);
    RootOrigin(env);
    if IsBlockContainer(env.tree.boxes, root) {
      var f := RootFrame(env);
      OpenedRootFrame(env);
      NothingStacked(env, root, f, EMPTY_ARENA);
      ChildrenPlaced(env, root, f, EMPTY_ARENA);
      WholeFrame(env, root, f, EMPTY_ARENA);
      var done := LayChildren(env, root, f, EMPTY_ARENA);
      ContainerPlaced(env, root, done.frame, EMPTY_ARENA, done.arena);
    } else {
      LeafPlaced(env, root, p, EMPTY_ARENA);
    }
  }

  lemma OpenedRootFrame(env: Env)
    requires WellFormed(env.tree)
    ensures var f := RootFrame(env);
            && FrameOf(env, env.tree.root, f) && Fresh(env, env.tree.root, f, EMPTY_ARENA) && Indexed(EMPTY_ARENA)
            && f.place == RootPlacement(env)
            && f.firstChildCollapses == Absorbs(env, Edge.Top, env.tree.root)
            && f.bottomCollapses == Absorbs(env, Edge.Bottom, env.tree.root)
  {
    hide UniqueParents, Homogeneous, ModelOf, PassesThrough, RootPlacement, ContentOrigin, UsedWidths;
    RootOrigin(env);
  }

  // ----- the width equation, on the page -----

  /**
   * A child's margin box starts at its parent's content edge, wherever both were moved
   * to, and ends at the parent's right content edge exactly when the width equation
   * closes without adjusting a margin.
   */
  lemma MarginBoxFills(env: Env, id: BoxId, a: Arena, fid: FragmentId, s: Shift, k: nat)
    requires WellFormed(env.tree) && id < |env.tree.boxes| && IsBlockContainer(env.tree.boxes, id)
    requires Flows(env, id, a, fid, s) && k < |env.tree.boxes[id].children|
    requires var c := env.tree.boxes[id].children[k];
             WidthsFit(env.pct, StyleOf(env, c), UsedWidths(env, id).content, UsedPadding(env, c),
                       StyleOf(env, c).borderWidth)
    ensures var c := env.tree.boxes[id].children[k];
            var style, cb, padding := StyleOf(env, c), UsedWidths(env, id).content, UsedPadding(env, c);
            var content := a.fragments[fid].contentBox;
            var box := a.fragments[a.fragments[fid].children[k]].borderBox;
            var left := box.origin.x - OwnShift(env, c).dx - UsedWidths(env, c).left;
            var right := box.origin.x - OwnShift(env, c).dx + box.size.w + UsedWidths(env, c).right;
            var room := Room(env.pct, style, cb, padding, style.borderWidth);
            && left == content.origin.x
            && (right == content.origin.x + content.size.w
                <==> if OverConstrained(env.pct, style, cb, padding, style.borderWidth) then room == 0 else 0 <= room)
  {
    hide WidthsFit, ResolveWidths, Room, OverConstrained, OwnShift, ContentReach, GapOver, StaticBottom, UsedHeight,
         UsedPadding;
    var c := env.tree.boxes[id].children[k];
    ParentOfChild(env.tree.boxes, id, k);
    ModelFields(env, id);
    assert ContainingBlock(env, c).0 == UsedWidths(env, id).content;
    var ids := a.fragments[fid].children;
    assert Follows(env, id, a, ids, a.fragments[fid].contentBox.origin.x, a.fragments[fid].contentBox.origin.y, k);
    OwnWidth(env, c, a, ids[k], Further(env, c, s));
    WidthEquation(env.pct, StyleOf(env, c), UsedWidths(env, id).content, UsedPadding(env, c),
                  StyleOf(env, c).borderWidth);
  }

  /** A border box is as wide as its used content, padding and border. */
  lemma OwnWidth(env: Env, id: BoxId, a: Arena, fid: FragmentId, s: Shift)
    requires WellFormed(env.tree) && id < |env.tree.boxes| && Flows(env, id, a, fid, s)
    ensures fid < |a.fragments|
    ensures var style, padding := StyleOf(env, id), UsedPadding(env, id);
            a.fragments[fid].borderBox.size.w
            == UsedWidths(env, id).content + padding.left + padding.right
               + style.borderWidth.left + style.borderWidth.right
  {
    hide UniqueParents, Homogeneous, UsedWidths, UsedPadding, UsedHeight, ModelOf, Follows, ContentReach, LinesAt;
  }

  // ----- before any shift -----

  /**
   * Every child of a frame starts its used left margin, from its own style, right of the
   * frame's content edge.
   */
  lemma {:induction false} SlotsStartAtMargins(env: Env, id: BoxId, f: Frame, a: Arena, k: nat)
    requires WellFormed(env.tree) && FrameOf(env, id, f) && k < |Slots(env, id, f, a)|
    requires Slots(env, id, f, a)[k].box < |env.tree.boxes|
    requires Fits(f.contentOrigin.x + UsedWidths(env, Slots(env, id, f, a)[k].box).left)
    ensures var slot := Slots(env, id, f, a)[k];
            slot.place.origin.x == f.contentOrigin.x + UsedWidths(env, slot.box).left
    decreases k
  {
    hide UniqueParents, Homogeneous, LayBox, Receive, ModelOf, UsedWidths, EffectiveMargin, ResolveBoxModel;
    var c := f.blockChildren[f.nextChild];
    var p := PlaceChild(env, f, c);
    var laid := LayBox(env, c, p, a);
    if k == 0 {
      PlacedModel(env, id, f);
      ModelFields(env, c);
    } else {
      Advanced(env, f, c, p, laid);
      SlotsStartAtMargins(env, id, Receive(f.(nextChild := f.nextChild + 1), p, laid), laid.arena, k - 1);
    }
  }

  // ----- a page -----

  /** A block 1200 in from the left and 40 right of where it would be, in a root with 480 of padding on the left. */
  const INDENTED := BoxTree(
    [LayoutBox(Some(2), BoxKind.Block,
               INITIAL.(margin := INITIAL.margin.(left := Px(1200), top := Px(60)), height := Px(300),
                        position := Relative, offset := INITIAL.offset.(left := Px(40))), []),
     LayoutBox(Some(1), BoxKind.Block, INITIAL.(padding := INITIAL.padding.(left := Px(480))), [0])], 1)

  lemma IndentedIsWellFormed()
    ensures WellFormed(INDENTED) && IsBlockContainer(INDENTED.boxes, 1) && !IsBlockContainer(INDENTED.boxes, 0)
  {
    assert HomogeneousAt(INDENTED.boxes, 0) && HomogeneousAt(INDENTED.boxes, 1);
  }

  lemma IndentedModels(env: Env)
    requires env.tree == INDENTED && env.viewport == Size(48000, 36000) && WellFormed(env.tree)
    ensures ContainingBlock(env, 0) == (47520, None) && ContainingBlock(env, 1) == (48000, Some(36000))
    ensures ModelOf(env, 1) == BoxModel(0, 0, 0, Sides(0, 0, 0, 480), Sides(0, 0, 0, 0), 47520, 0, None, None)
    ensures ModelOf(env, 0) == BoxModel(1200, 60, 0, Sides(0, 0, 0, 0), Sides(0, 0, 0, 0), 46320, 0, None, Some(300))
  {
    hide UniqueParents, Homogeneous;
    assert Parent(env.tree.boxes, 1).None?;
    ParentOfChild(env.tree.boxes, 1, 0);
    assert Parent(env.tree.boxes, 0) == Some(1);
    assert ModelOf(env, 1).contentWidth == 47520;
  }

  lemma IndentedMargins(env: Env)
    requires env.tree == INDENTED && env.viewport == Size(48000, 36000) && WellFormed(env.tree)
    ensures EffectiveMargin(env, Edge.Top, 0) == 60 && EffectiveMargin(env, Edge.Bottom, 0) == 0
  {
    hide UniqueParents, Homogeneous, ModelOf;
    IndentedModels(env);
    assert EdgeChild(env.tree.boxes, Edge.Top, 0).None? && EdgeChild(env.tree.boxes, Edge.Bottom, 0).None?;
    assert ChainMargins(env, Edge.Top, 0) == [60] && ChainMargins(env, Edge.Bottom, 0) == [0];
    Single(60);
    Single(0);
  }

  lemma Single(m: Au)
    ensures Collapsed([m]) == m
  {
    var s, t: seq<Au> := [m], [];
    assert s[1..] == t;
    assert Peak(t) == 0 && Trough(t) == 0;
  }

  lemma IndentedValues(env: Env)
    requires env.tree == INDENTED && env.viewport == Size(48000, 36000) && WellFormed(env.tree)
    ensures OwnShift(env, 0) == Shift(40, 0) && OwnShift(env, 1) == Shift(0, 0)
    ensures UsedWidths(env, 0) == Widths(46320, 1200, 0) && UsedWidths(env, 1) == Widths(47520, 0, 0)
    ensures UsedPadding(env, 0) == Sides(0, 0, 0, 0) && UsedPadding(env, 1) == Sides(0, 0, 0, 480)
    ensures UsedHeight(ModelOf(env, 0), 0) == 300 && UsedHeight(ModelOf(env, 1), 360) == 360
    ensures GapOver(env, 1, 0) == 60 && LinesOf(env, 0) == [] && !Absorbs(env, Edge.Bottom, 1)
  {
    hide UniqueParents, Homogeneous, ModelOf, ContainingBlock, EffectiveMargin;
    IndentedModels(env);
    IndentedMargins(env);
  }

  lemma IndentedFits(env: Env)
    requires env.tree == INDENTED && env.viewport == Size(48000, 36000)
    ensures WellFormed(env.tree) && PageFits(env)
  {
    hide UniqueParents, Homogeneous, ModelOf, ContainingBlock, ResolveBoxModel;
    IndentedIsWellFormed();
    IndentedModels(env);
    IndentedMargins(env);
    RootOrigin(env);
    OpenedRootFrame(env);
    var f := RootFrame(env);
    var p := PlaceChild(env, f, 0);
    NextChildModel(env, 1, f);
    assert p.origin == Point(1680, 60);
    var laid := LayBox(env, 0, p, EMPTY_ARENA);
    assert laid == LayLeaf(env, env.tree.boxes[0], p, EMPTY_ARENA);
    assert LeafUnsaturated(env, 0, p, EMPTY_ARENA);
    assert LeafExact(env, env.tree.boxes[0], p, EMPTY_ARENA);
  }

  /** Its child lies 480 + 1200 + 40 in from the left and 60 down; the root ends where its child does. */
  lemma IndentedPage(env: Env)
    requires env.tree == INDENTED && env.viewport == Size(48000, 36000)
    ensures WellFormed(env.tree)
    ensures var r := LayRoot(env);
            && r.id < |r.arena.fragments| && |r.arena.fragments[r.id].children| == 1
            && r.arena.fragments[r.id].children[0] < r.id
            && r.arena.fragments[r.id].borderBox == Rect(Point(0, 0), Size(48000, 360))
            && r.arena.fragments[r.arena.fragments[r.id].children[0]].borderBox
               == Rect(Point(1720, 60), Size(46320, 300))
  {
    hide UniqueParents, Homogeneous, ModelOf, ContainingBlock, LayRoot, PageFits, EffectiveMargin, OwnShift, UsedWidths,
         UsedPadding, UsedHeight, GapOver, LinesOf, Absorbs, LinesAt;
    IndentedIsWellFormed();
    IndentedFits(env);
    IndentedMargins(env);
    IndentedValues(env);
    PageInPlace(env);
    var a := LayRoot(env).arena;
    var fid := LayRoot(env).id;
    assert Encloses(env, 1, a, fid);
    var child := a.fragments[fid].children[0];
    assert Follows(env, 1, a, a.fragments[fid].children, 480, 0, 0);
    assert EnclosesLines(env, 0, a, child, Further(env, 0, OwnShift(env, 1)));
  }
}
