/**
 * Laid-out pages and the check of their lists: a border never exceeds its box, so
 * only unrepresentable numbers, deep clips and sheer length can get a page refused,
 * and the first two do.
 */
module PageAcceptance {
  import opened AppUnits
  import opened Geometry
  import opened Styles
  import opened Wrappers
  import opened BoxTrees
  import opened BoxModels
  import opened LayoutContext
  import opened Fragments
  import opened Margins
  import opened BlockFlow
  import opened FragmentOrder
  import opened FragmentShape
  import opened DisplayLists
  import opened PaintBuild
  import opened PaintLayout
  import opened ListAcceptance
  import opened SmallPages

  // ----- lengths that cannot be negative -----

  predicate NonNegativeLength(l: Length) {
    (l.Px? ==> 0 <= l.au) && (l.Percent? ==> 0.0 <= l.points)
  }

  predicate NonNegativeSides(s: Sides<Au>) {
    0 <= s.top && 0 <= s.right && 0 <= s.bottom && 0 <= s.left
  }

  /** CSS 2.1 admits no negative minimum, padding or border width. */
  predicate StyleNonNegative(style: LayoutStyle) {
    && NonNegativeLength(style.minWidth) && NonNegativeLength(style.minHeight)
    && NonNegativeLength(style.padding.top) && NonNegativeLength(style.padding.right)
    && NonNegativeLength(style.padding.bottom) && NonNegativeLength(style.padding.left)
    && NonNegativeSides(style.borderWidth)
  }

  ghost predicate PercentNonNegative(pct: PercentOf) {
    forall w: Au, p: real :: 0 <= w && 0.0 <= p ==> 0 <= pct(w, p)
  }

  ghost predicate PageNonNegative(env: Env) {
    && PercentNonNegative(env.pct) && 0 <= env.viewport.w && 0 <= env.viewport.h
    && forall b :: 0 <= b < |env.tree.boxes| ==> StyleNonNegative(env.tree.boxes[b].style)
  }

  /** What closing a box reads of its model. */
  predicate SizesNonNegative(m: BoxModel, style: LayoutStyle) {
    && 0 <= m.contentWidth && 0 <= m.minHeight && NonNegativeSides(m.padding) && m.border == style.borderWidth
    && NonNegativeSides(m.border) && (m.knownHeight.Some? ==> 0 <= m.knownHeight.value)
  }

  lemma ResolvedNonNegative(pct: PercentOf, style: LayoutStyle, w: Au, h: Option<Au>)
    requires PercentNonNegative(pct) && StyleNonNegative(style) && 0 <= w && (h.Some? ==> 0 <= h.value)
    ensures SizesNonNegative(ResolveBoxModel(pct, style, w, h), style)
  {
    hide TentativeWidth, HorizontalNonContent, VerticalNonContent;
    PaddingNonNegative(pct, style, w);
    WidthNonNegative(pct, style, w);
  }

  lemma PaddingNonNegative(pct: PercentOf, style: LayoutStyle, w: Au)
    requires PercentNonNegative(pct) && StyleNonNegative(style) && 0 <= w
    ensures NonNegativeSides(ResolvePadding(pct, style, w))
  {
  }

  lemma WidthNonNegative(pct: PercentOf, style: LayoutStyle, w: Au)
    requires PercentNonNegative(pct) && StyleNonNegative(style) && 0 <= w
    ensures 0 <= ResolveWidths(pct, style, w, ResolvePadding(pct, style, w), style.borderWidth).content
  {
    hide TentativeWidth, HorizontalNonContent, UsedMaxWidth;
  }

  // ----- borders stay inside their boxes -----

  /** Every block fragment of the arena holds its border. */
  ghost predicate BordersInside(a: Arena) {
    && Indexed(a)
    && forall i :: 0 <= i < |a.fragments| && a.fragments[i].kind.Block? ==>
       BorderInside(a.fragments[i].borderBox, a.styles[i])
  }

  lemma BoxHoldsBorder(origin: Point, m: BoxModel, height: Au, style: LayoutStyle)
    requires SizesNonNegative(m, style) && 0 <= height
    ensures BorderInside(Rect(origin, BorderBoxSize(m.contentWidth, height, m.padding, m.border)), style)
  {
  }

  lemma PushInside(a: Arena, style: LayoutStyle, node: Option<NodeId>, kind: FragmentKind,
                   border: Rect, padding: Rect, content: Rect, children: seq<FragmentId>)
    requires BordersInside(a) && (kind.Block? ==> BorderInside(border, style))
    ensures BordersInside(Push(a, style, node, kind, border, padding, content, children))
  {
    hide BorderInside;
  }

  lemma ShiftInside(a: Arena, start: nat, style: LayoutStyle, d: Point)
    requires BordersInside(a)
    ensures BordersInside(Positioned(a, start, style, d))
  {
    hide SolidBorderWidths;
  }

  lemma {:induction false} PiecesInside(a: Arena, line: LineBox, origin: Point, lineTop: Au,
                                        style: LayoutStyle, n: nat)
    requires BordersInside(a) && n <= |line.pieces|
    ensures BordersInside(WithPieces(a, line, origin, lineTop, style, n))
  {
    hide BordersInside, Push, TranslateAll, RunsWidth;
    if n > 0 {
      PiecesInside(a, line, origin, lineTop, style, n - 1);
      var piece := line.pieces[n - 1];
      var runs := TranslateAll(piece.runs, origin.x, SatAdd(lineTop, line.baseline));
      var rect := Rect(Point(if runs == [] then origin.x else runs[0].origin.x, lineTop),
                       Size(RunsWidth(runs), line.height));
      PushInside(WithPieces(a, line, origin, lineTop, style, n - 1), piece.StyleIn(style), piece.Node(), Text(runs),
                 rect, rect, rect, []);
    }
  }

  lemma {:induction false} LinesInside(a: Arena, lines: seq<LineBox>, origin: Point, width: Au, style: LayoutStyle,
                                       n: nat)
    requires BordersInside(a) && n <= |lines|
    ensures BordersInside(WithLines(a, lines, origin, width, style, n).arena)
  {
    hide BordersInside, Push, WithPieces;
    if n > 0 {
      LinesInside(a, lines, origin, width, style, n - 1);
      var before := WithLines(a, lines, origin, width, style, n - 1);
      var line, top := lines[n - 1], SatAdd(origin.y, before.height);
      PiecesInside(before.arena, line, origin, top, style, |line.pieces|);
      var rect := Rect(Point(origin.x, top), Size(width, line.height));
      PushInside(WithPieces(before.arena, line, origin, top, style, |line.pieces|), style, None, Line, rect, rect, rect,
                 Range(|before.arena.fragments|, |line.pieces|));
    }
  }

  lemma CloseInside(env: Env, node: Option<NodeId>, anonymous: bool, style: LayoutStyle, p: ChildPlacement,
                    contentHeight: Au, start: nat, childIds: seq<FragmentId>, a: Arena)
    requires BordersInside(a) && SizesNonNegative(p.model, style) && 0 <= contentHeight
    ensures BordersInside(CloseBox(env, node, anonymous, style, p, contentHeight, start, childIds, a).arena)
  {
    hide BordersInside, BorderInside, Push, Positioned, ResolveOffset, Inset, SizesNonNegative;
    BoxHoldsBorder(p.origin, p.model, contentHeight, style);
    var border := Rect(p.origin, BorderBoxSize(p.model.contentWidth, contentHeight, p.model.padding, p.model.border));
    var padding := Inset(border, p.model.border);
    PushInside(a, style, node, if anonymous then FragmentKind.AnonymousBlock else FragmentKind.Block,
               border, padding, Inset(padding, p.model.padding), childIds);
    ShiftInside(PushBox(node, anonymous, style, p, contentHeight, childIds, a), start, style,
                ResolveOffset(env.pct, style, p.cbWidth, p.cbHeight));
  }

  lemma LeafInside(env: Env, box: LayoutBox, p: ChildPlacement, a: Arena)
    requires BordersInside(a) && SizesNonNegative(p.model, box.style)
    ensures BordersInside(LayLeaf(env, box, p, a).arena)
  {
    hide BordersInside, CloseBox, WithLines;
    var content := LeafContent(env, box, p, a);
    LeafContentInside(env, box, p, a);
    CloseInside(env, box.node, box.kind.AnonymousBlock?, box.style, p, LeafHeight(p, content.height), |a.fragments|,
                content.ids, content.arena);
  }

  lemma LeafContentInside(env: Env, box: LayoutBox, p: ChildPlacement, a: Arena)
    requires BordersInside(a)
    ensures BordersInside(LeafContent(env, box, p, a).arena)
  {
    hide BordersInside, WithLines;
    if box.children != [] {
      match env.shape(box.children, InheritedTextStyle(box.style), p.model.contentWidth)
      case Ok(lines) =>
        LinesInside(a, lines, ContentOrigin(p.origin, p.model), p.model.contentWidth, box.style, |lines|);
      case Err(e) =>
        ErrorInside(a, LeafContent(env, box, p, a).arena.error);
    }
  }

  lemma ErrorInside(a: Arena, error: Option<LayoutError>)
    requires BordersInside(a)
    ensures BordersInside(a.(error := error))
  {
  }

  lemma CloseFrameInside(env: Env, f: Frame, a: Arena)
    requires BordersInside(a) && SizesNonNegative(f.place.model, f.style)
    ensures BordersInside(CloseFrame(env, f, a).arena)
  {
    hide BordersInside, CloseBox;
    CloseInside(env, f.node, f.anonymous, f.style, f.place, ContainerHeight(f), f.fragStart, f.childIds, a);
  }

  lemma PlacedNonNegative(env: Env, f: Frame, c: BoxId)
    requires WellFormed(env.tree) && c < |env.tree.boxes| && PageNonNegative(env)
             && SizesNonNegative(f.place.model, f.style)
    ensures SizesNonNegative(PlaceChild(env, f, c).model, env.tree.boxes[c].style)
  {
    hide ResolveBoxModel, EffectiveMargin, PercentNonNegative, StyleNonNegative, WellFormed;
    ResolvedNonNegative(env.pct, env.tree.boxes[c].style, f.place.model.contentWidth, f.place.model.knownHeight);
  }

  lemma {:induction false} BoxInside(env: Env, id: BoxId, p: ChildPlacement, a: Arena)
    requires WellFormed(env.tree) && id < |env.tree.boxes| && PageNonNegative(env)
    requires BordersInside(a) && SizesNonNegative(p.model, env.tree.boxes[id].style)
    ensures BordersInside(LayBox(env, id, p, a).arena)
    decreases id, 1, 0
  {
    hide UniqueParents, Homogeneous, LayLeaf, CloseFrame, BordersInside, SizesNonNegative, PageNonNegative,
         PassesThrough;
    var box := env.tree.boxes[id];
    if IsBlockContainer(env.tree.boxes, id) {
      var f := OpenFrame(box, p, |a.fragments|);
      ChildrenInside(env, id, f, a);
      var done := LayChildren(env, id, f, a);
      CloseFrameInside(env, done.frame, done.arena);
    } else {
      LeafInside(env, box, p, a);
    }
  }

  lemma {:induction false} ChildrenInside(env: Env, id: BoxId, f: Frame, a: Arena)
    requires WellFormed(env.tree) && id < |env.tree.boxes| && f.blockChildren == env.tree.boxes[id].children
    requires PageNonNegative(env) && BordersInside(a) && SizesNonNegative(f.place.model, f.style)
    ensures var r := LayChildren(env, id, f, a);
            BordersInside(r.arena) && r.frame.place == f.place && r.frame.style == f.style
    decreases id, 0, |f.blockChildren| - f.nextChild
  {
    hide UniqueParents, Homogeneous, LayBox, BordersInside, SizesNonNegative, PageNonNegative, PlaceChild;
    if f.nextChild < |f.blockChildren| {
      var c := f.blockChildren[f.nextChild];
      var p := PlaceChild(env, f, c);
      var laid := LayBox(env, c, p, a);
      PlacedNonNegative(env, f, c);
      BoxInside(env, c, p, a);
      ChildrenInside(env, id, Receive(f.(nextChild := f.nextChild + 1), p, laid), laid.arena);
    }
  }

  lemma RootNonNegative(env: Env)
    requires WellFormed(env.tree) && PageNonNegative(env)
    ensures SizesNonNegative(RootPlacement(env).model, env.tree.boxes[env.tree.root].style)
    ensures RootFrame(env).place == RootPlacement(env) && RootFrame(env).style == env.tree.boxes[env.tree.root].style
    ensures RootFrame(env).blockChildren == env.tree.boxes[env.tree.root].children
  {
    hide ResolveBoxModel, PercentNonNegative, StyleNonNegative;
    ResolvedNonNegative(env.pct, env.tree.boxes[env.tree.root].style, env.viewport.w, Some(env.viewport.h));
  }

  /** No block of a laid-out page paints a border thicker than itself, whatever saturates. */
  lemma LaidOutBordersInside(env: Env)
    requires WellFormed(env.tree) && PageNonNegative(env)
    ensures BordersInside(LayRoot(env).arena)
  {
    hide UniqueParents, Homogeneous, LayLeaf, CloseFrame, SizesNonNegative, PageNonNegative, RootFrame, RootPlacement;
    var root := env.tree.root;
    RootNonNegative(env);
    if IsBlockContainer(env.tree.boxes, root) {
      ChildrenInside(env, root, RootFrame(env), EMPTY_ARENA);
      var done := LayChildren(env, root, RootFrame(env), EMPTY_ARENA);
      CloseFrameInside(env, done.frame, done.arena);
    } else {
      LeafInside(env, env.tree.boxes[root], RootPlacement(env), EMPTY_ARENA);
    }
  }

  /**
   * When a laid-out page's list is accepted: representable border boxes and glyph
   * positions, clips no deeper than the limit, not too many items. Its borders
   * cannot be at fault.
   */
  lemma PageAcceptedExactly(env: Env, names: Names)
    requires WellFormed(env.tree) && PageNonNegative(env)
    ensures var tree := Painted(env, LayRoot(env));
            var canvas := CanvasBackground(tree, names);
            var region := Inflate(tree.Bounds());
            && ChildrenFirst(tree.fragments) && tree.root < |tree.fragments|
            && (Accepted(BuiltItems(tree, names), tree.Bounds()) <==>
                  && BoundsValid(tree.Bounds())
                  && (if canvas.color.Some? then 1 else 0) + Emitted(tree, canvas.suppressed, region, tree.root)
                     <= MAX_ITEMS
                  && Nest(tree, tree.root) <= MAX_CLIP_DEPTH
                  && forall i :: 0 <= i < |tree.fragments| ==>
                       NumbersUsable(tree.fragments[i], tree.StyleOf(tree.fragments[i]),
                                     canvas.suppressed == Some(i), region))
  {
    hide BuiltItems, Accepted, Inflate, CanvasBackground, Nest, Emitted, LayRoot, BoundsValid, WellFormed;
    hide ChildrenFirst, BorderInside, NumbersUsable, PageNonNegative;
    LaidOutPageAccepted(env, names);
    LaidOutBordersInside(env);
    var tree := Painted(env, LayRoot(env));
    var canvas := CanvasBackground(tree, names);
    forall i | 0 <= i < |tree.fragments|
      ensures UsableAt(tree, canvas.suppressed, Inflate(tree.Bounds()), i) <==>
              NumbersUsable(tree.fragments[i], tree.StyleOf(tree.fragments[i]), canvas.suppressed == Some(i),
                            Inflate(tree.Bounds()))
    {
      assert tree.fragments[i].style == i;
    }
  }

  // ----- pages that are refused -----

  /** Taller than any number, one pixel down, under a border. */
  const ENDLESS := INITIAL.(
    display := Display.Block, height := Px(AU_MAX), margin := Sides(Px(60), Px(0), Px(0), Px(0)),
    borderSolid := Sides(true, false, false, false), borderWidth := Sides(60, 0, 0, 0))

  lemma EndlessBox(env: Env)
    requires env.tree == OneBox(ENDLESS) && env.viewport == Size(48000, 36000)
    ensures OwnBox(env) == Rect(Point(0, 60), Size(48000, AU_MAX))
  {
  }

  /** Surviving the cull is not being accepted: this page's border is seen, and its bottom edge is no number. */
  lemma EndlessPageIsRefused(env: Env, names: Names)
    requires env.tree == OneBox(ENDLESS) && env.viewport == Size(48000, 36000)
    ensures WellFormed(env.tree)
    ensures var tree := Painted(env, LayRoot(env));
            && |tree.fragments| == 1 && Inflate(tree.Bounds()).IntersectsRect(tree.fragments[0].borderBox)
            && !Accepted(BuiltItems(tree, names), tree.Bounds())
  {
    hide LayRoot, Accepted, CanvasBackground, Nest, Emitted, WellFormed, BuiltItems, OwnBox;
    EndlessBox(env);
    OneBoxLaid(env, ENDLESS);
    LaidOutPageAccepted(env, names);
    var tree := Painted(env, LayRoot(env));
    assert !UsableAt(tree, CanvasBackground(tree, names).suppressed, Inflate(tree.Bounds()), 0);
  }

  /** `n` clipping blocks, each the only child of the next. */
  function NestedBoxes(n: nat): (r: seq<LayoutBox>)
    ensures |r| == n
    ensures forall i :: 0 <= i < n ==>
              r[i] == LayoutBox(Some(n - i), BoxKind.Block, CLIPPING, if i == 0 then [] else [i - 1])
  {
    seq(n, i requires 0 <= i < n => LayoutBox(Some(n - i), BoxKind.Block, CLIPPING, if i == 0 then [] else [i - 1]))
  }

  lemma NestedIsWellFormed(n: nat)
    requires n > 0
    ensures WellFormed(BoxTree(NestedBoxes(n), n - 1))
  {
    var boxes := NestedBoxes(n);
    assert ChildrenBelow(boxes);
    forall p | 0 <= p < n ensures HomogeneousAt(boxes, p) {
      assert forall i :: 0 <= i < |boxes[p].children| ==> IsBlockLevel(boxes[boxes[p].children[i]].kind);
    }
  }

  /** A fragment that mirrors box `id` of the nest lies over `id` more clips. */
  lemma {:induction false} NestOfMirror(tree: FragmentTree, a: Arena, n: nat, id: BoxId, fid: FragmentId)
    requires id < n && ChildrenBelow(NestedBoxes(n)) && Indexed(a) && Mirrors(NestedBoxes(n), id, a, fid)
    requires tree.fragments == a.fragments && tree.styles == a.styles && ChildrenFirst(a.fragments)
    ensures fid < |tree.fragments| && Nest(tree, fid) >= id + 1
    decreases id
  {
    var boxes := NestedBoxes(n);
    assert a.styles[fid] == CLIPPING;
    assert ClipDepth(tree, fid) == 1;
    if id > 0 {
      assert boxes[id].children == [id - 1] && IsBlockContainer(boxes, id);
      assert Mirrors(boxes, boxes[id].children[0], a, a.fragments[fid].children[0]);
      NestOfMirror(tree, a, n, id - 1, a.fragments[fid].children[0]);
      assert NestChildren(tree, fid, 0) >= Nest(tree, tree.fragments[fid].children[0]);
    }
  }

  /** Nor is balancing: a page of more nested clips than the limit is refused, in every viewport. */
  lemma DeepNestingIsRefused(env: Env, names: Names, n: nat)
    requires n > MAX_CLIP_DEPTH && env.tree == BoxTree(NestedBoxes(n), n - 1)
    ensures WellFormed(env.tree)
    ensures var tree := Painted(env, LayRoot(env)); !Accepted(BuiltItems(tree, names), tree.Bounds())
  {
    hide LayRoot, Accepted, CanvasBackground, Nest, Emitted, WellFormed, BuiltItems, UsableAt, Mirrors, Inflate,
         BoundsValid;
    hide ChildrenFirst;
    NestedIsWellFormed(n);
    LaidOutPageAccepted(env, names);
    LayoutShape(env);
    NestedBelow(n);
    NestOfMirror(Painted(env, LayRoot(env)), LayRoot(env).arena, n, n - 1, LayRoot(env).id);
  }

  lemma NestedBelow(n: nat)
    ensures ChildrenBelow(NestedBoxes(n))
  {
  }

  // ----- a tree no layout makes -----

  const SQUARE := Rect(ORIGIN, Size(60, 60))

  /** One box, one pixel square, under a solid top border two pixels wide. */
  const THICK := INITIAL.(borderSolid := Sides(true, false, false, false), borderWidth := Sides(120, 0, 0, 0))

  const THICK_PAGE := FragmentTree([Fragment(None, FragmentKind.Block, SQUARE, SQUARE, SQUARE, 0, [])], [THICK], 0,
                                   Size(600, 600))

  /** On arenas that were not laid out a border can be at fault too: one wider than its box survives the cull. */
  lemma ThickBorderIsRefused(names: Names)
    ensures !BorderInside(THICK_PAGE.fragments[0].borderBox, THICK)
    ensures !Accepted(BuiltItems(THICK_PAGE, names), THICK_PAGE.Bounds())
  {
    hide Accepted, CanvasBackground, Nest, Emitted, BuiltItems;
    AcceptedExactly(THICK_PAGE, names);
    assert !UsableAt(THICK_PAGE, CanvasBackground(THICK_PAGE, names).suppressed, Inflate(THICK_PAGE.Bounds()), 0);
    assert Reaches(THICK_PAGE.fragments, 0, 0);
  }
}
