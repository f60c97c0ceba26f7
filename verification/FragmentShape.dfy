/**
 * The shape of a laid-out tree: which fragments there are, in which order, and
 * which ids they point to, whatever the geometry.
 */
module FragmentShape {
  import opened AppUnits
  import opened Geometry
  import opened Styles
  import opened Wrappers
  import opened BoxTrees
  import opened BoxModels
  import opened LayoutContext
  import opened Fragments
  import opened BlockFlow
  import opened FragmentOrder

  /** One style entry per fragment, in step. */
  ghost predicate Indexed(a: Arena) {
    && |a.fragments| == |a.styles|
    && forall i :: 0 <= i < |a.fragments| ==> a.fragments[i].style == i
  }

  /** `b` continues `a`: nothing before is touched, and new fragments only point to earlier new ones. */
  ghost predicate Continues(a: Arena, b: Arena) {
    && |a.fragments| <= |b.fragments|
    && (forall i :: 0 <= i < |a.fragments| ==> b.fragments[i] == a.fragments[i])
    && (forall i :: 0 <= i < |a.styles| <= |b.styles| ==> b.styles[i] == a.styles[i])
    && (forall i, k :: |a.fragments| <= i < |b.fragments| && 0 <= k < |b.fragments[i].children| ==>
          |a.fragments| <= b.fragments[i].children[k] < i)
  }

  ghost predicate Extends(a: Arena, b: Arena) {
    Indexed(a) && Indexed(b) && Continues(a, b)
  }

  /** What a box fragment says about the box it stands for. */
  datatype Label = Label(node: Option<NodeId>, anonymous: bool, style: LayoutStyle)

  ghost function LabelAt(a: Arena, i: nat): seq<Label>
    requires Indexed(a) && i < |a.fragments|
  {
    var f := a.fragments[i];
    if f.kind.Block? || f.kind.AnonymousBlock? then [Label(f.node, f.kind.AnonymousBlock?, a.styles[i])] else []
  }

  /** The box fragments among the first `n`, in arena order. */
  ghost function Outline(a: Arena, n: nat): seq<Label>
    requires Indexed(a) && n <= |a.fragments|
  {
    if n == 0 then [] else Outline(a, n - 1) + LabelAt(a, n - 1)
  }

  function BoxLabel(box: LayoutBox): Label {
    Label(box.node, box.kind.AnonymousBlock?, box.style)
  }

  /** The block-level boxes at and below `id`, children before their parent. */
  ghost function PostOrder(boxes: seq<LayoutBox>, id: BoxId): seq<Label>
    requires ChildrenBelow(boxes) && id < |boxes|
    decreases id, 1, 0
  {
    (if IsBlockContainer(boxes, id) then PostOrderFrom(boxes, id, 0) else []) + [BoxLabel(boxes[id])]
  }

  ghost function PostOrderFrom(boxes: seq<LayoutBox>, id: BoxId, k: nat): seq<Label>
    requires ChildrenBelow(boxes) && id < |boxes|
    decreases id, 0, |boxes[id].children| - k
  {
    if k >= |boxes[id].children| then []
    else PostOrder(boxes, boxes[id].children[k]) + PostOrderFrom(boxes, id, k + 1)
  }

  lemma {:induction false} SameOutline(a: Arena, b: Arena, n: nat)
    requires Indexed(a) && Indexed(b) && n <= |a.fragments| && n <= |b.fragments|
    requires forall i :: 0 <= i < n ==> LabelAt(a, i) == LabelAt(b, i)
    ensures Outline(a, n) == Outline(b, n)
  {
    if n > 0 {
      SameOutline(a, b, n - 1);
    }
  }

  lemma {:induction false} OutlineSkips(a: Arena, m: nat, n: nat)
    requires Indexed(a) && m <= n <= |a.fragments|
    requires forall i :: m <= i < n ==> LabelAt(a, i) == []
    ensures Outline(a, n) == Outline(a, m)
    decreases n
  {
    if m < n {
      OutlineSkips(a, m, n - 1);
    }
  }

  lemma ContinuesOutline(a: Arena, b: Arena)
    requires Indexed(a) && Indexed(b) && Continues(a, b)
    ensures Outline(b, |a.fragments|) == Outline(a, |a.fragments|)
  {
    SameOutline(a, b, |a.fragments|);
  }

  /** No box fragment from `m` on. */
  ghost predicate OnlyInline(a: Arena, m: nat)
    requires Indexed(a)
  {
    forall i :: m <= i < |a.fragments| ==> LabelAt(a, i) == []
  }

  lemma PushExtends(a0: Arena, a: Arena, style: LayoutStyle, node: Option<NodeId>, kind: FragmentKind,
                    border: Rect, padding: Rect, content: Rect, children: seq<FragmentId>)
    requires Extends(a0, a)
    requires forall k :: 0 <= k < |children| ==> |a0.fragments| <= children[k] < |a.fragments|
    ensures var b := Push(a, style, node, kind, border, padding, content, children);
            && Extends(a0, b) && Extends(a, a) && |b.fragments| == |a.fragments| + 1
            && (forall i :: 0 <= i < |a.fragments| ==> LabelAt(b, i) == LabelAt(a, i))
            && LabelAt(b, |a.fragments|) ==
               (if kind.Block? || kind.AnonymousBlock? then [Label(node, kind.AnonymousBlock?, style)] else [])
  {
  }

  lemma PushInline(a0: Arena, a: Arena, style: LayoutStyle, node: Option<NodeId>, kind: FragmentKind,
                   rect: Rect, children: seq<FragmentId>)
    requires Extends(a0, a) && OnlyInline(a, |a0.fragments|) && (kind.Line? || kind.Text?)
    requires forall k :: 0 <= k < |children| ==> |a0.fragments| <= children[k] < |a.fragments|
    ensures var b := Push(a, style, node, kind, rect, rect, rect, children);
            Extends(a0, b) && OnlyInline(b, |a0.fragments|)
  {
    hide Extends;
    PushExtends(a0, a, style, node, kind, rect, rect, rect, children);
  }

  lemma {:induction false} PiecesShape(a0: Arena, a: Arena, line: LineBox, origin: Point, lineTop: Au,
                                       style: LayoutStyle, n: nat)
    requires Extends(a0, a) && OnlyInline(a, |a0.fragments|) && n <= |line.pieces|
    ensures var r := WithPieces(a, line, origin, lineTop, style, n); Extends(a0, r) && OnlyInline(r, |a0.fragments|)
  {
    hide Continues, OnlyInline, TranslateAll, RunsWidth, Push;
    if n > 0 {
      PiecesShape(a0, a, line, origin, lineTop, style, n - 1);
      var piece := line.pieces[n - 1];
      var runs := TranslateAll(piece.runs, origin.x, SatAdd(lineTop, line.baseline));
      var rect := Rect(Point(if runs == [] then origin.x else runs[0].origin.x, lineTop),
                       Size(RunsWidth(runs), line.height));
      PushInline(a0, WithPieces(a, line, origin, lineTop, style, n - 1), piece.StyleIn(style), piece.Node(),
                 Text(runs), rect, []);
    }
  }

  lemma ArenaGrows(a: Arena, b: Arena)
    requires Extends(a, b)
    ensures |a.fragments| <= |b.fragments|
  {
  }

  lemma {:induction false} LinesShape(a: Arena, lines: seq<LineBox>, origin: Point, width: Au, style: LayoutStyle,
                                      n: nat)
    requires Indexed(a) && n <= |lines|
    ensures var r := WithLines(a, lines, origin, width, style, n);
            && Extends(a, r.arena) && OnlyInline(r.arena, |a.fragments|)
            && (forall k :: 0 <= k < |r.ids| ==> |a.fragments| <= r.ids[k] < |r.arena.fragments|)
  {
    hide WithPieces, Push;
    if n > 0 {
      LinesShape(a, lines, origin, width, style, n - 1);
      var before := WithLines(a, lines, origin, width, style, n - 1);
      LineShape(a, before.arena, lines[n - 1], origin, width, style, before.height);
    }
  }

  lemma LineShape(a0: Arena, a: Arena, line: LineBox, origin: Point, width: Au, style: LayoutStyle, cursor: Au)
    requires Extends(a0, a) && OnlyInline(a, |a0.fragments|)
    ensures var r := WithLine(a, line, origin, width, style, cursor); Extends(a0, r) && OnlyInline(r, |a0.fragments|)
  {
    hide Continues, OnlyInline, WithPieces, Push;
    var lineTop := SatAdd(origin.y, cursor);
    ArenaGrows(a0, a);
    PiecesShape(a0, a, line, origin, lineTop, style, |line.pieces|);
    PushInline(a0, WithPieces(a, line, origin, lineTop, style, |line.pieces|), style, None, Line,
               Rect(Point(origin.x, lineTop), Size(width, line.height)), Range(|a.fragments|, |line.pieces|));
  }

  lemma ShiftKeepsShape(a0: Arena, a: Arena, start: nat, style: LayoutStyle, d: Point)
    requires Extends(a0, a) && |a0.fragments| <= start
    ensures var b := Positioned(a, start, style, d);
            && Extends(a0, b) && |b.fragments| == |a.fragments|
            && forall i :: 0 <= i < |a.fragments| ==> LabelAt(b, i) == LabelAt(a, i)
  {
  }

  lemma ExtendsTrans(a: Arena, b: Arena, c: Arena)
    requires Extends(a, b) && Extends(b, c)
    ensures Extends(a, c)
  {
  }

  /** Closing a box adds exactly its own fragment, after everything below it. */
  lemma CloseShape(env: Env, box: LayoutBox, p: ChildPlacement, contentHeight: Au, a0: Arena,
                   childIds: seq<FragmentId>, a: Arena)
    requires Extends(a0, a)
    requires forall k :: 0 <= k < |childIds| ==> |a0.fragments| <= childIds[k] < |a.fragments|
    ensures var r := CloseBox(env, box.node, box.kind.AnonymousBlock?, box.style, p, contentHeight, |a0.fragments|,
                              childIds, a);
            && Extends(a0, r.arena) && r.id == |a.fragments| && |r.arena.fragments| == |a.fragments| + 1
            && Outline(r.arena, |r.arena.fragments|) == Outline(a, |a.fragments|) + [BoxLabel(box)]
  {
    hide Continues, Inset, BorderBoxSize, ResolveOffset, Push, Positioned;
    var border := Rect(p.origin, BorderBoxSize(p.model.contentWidth, contentHeight, p.model.padding, p.model.border));
    var padding := Inset(border, p.model.border);
    var content := Inset(padding, p.model.padding);
    var kind := if box.kind.AnonymousBlock? then FragmentKind.AnonymousBlock else FragmentKind.Block;
    var pushed := Push(a, box.style, box.node, kind, border, padding, content, childIds);
    PushExtends(a0, a, box.style, box.node, kind, border, padding, content, childIds);
    var d := ResolveOffset(env.pct, box.style, p.cbWidth, p.cbHeight);
    ShiftKeepsShape(a0, pushed, |a0.fragments|, box.style, d);
    SameOutline(a, Positioned(pushed, |a0.fragments|, box.style, d), |a.fragments|);
  }

  lemma LeafShape(env: Env, box: LayoutBox, p: ChildPlacement, a: Arena)
    requires Indexed(a)
    ensures var r := LayLeaf(env, box, p, a);
            && Extends(a, r.arena)
            && Outline(r.arena, |r.arena.fragments|) == Outline(a, |a.fragments|) + [BoxLabel(box)]
  {
    hide CloseBox, WithLines, Push, Continues;
    var content := LeafContent(env, box, p, a);
    LeafContentShape(env, box, p, a);
    CloseShape(env, box, p, LeafHeight(p, content.height), a, content.ids, content.arena);
  }

  lemma LeafContentShape(env: Env, box: LayoutBox, p: ChildPlacement, a: Arena)
    requires Indexed(a)
    ensures var r := LeafContent(env, box, p, a);
            && Extends(a, r.arena)
            && Outline(r.arena, |r.arena.fragments|) == Outline(a, |a.fragments|)
            && (forall k :: 0 <= k < |r.ids| ==> |a.fragments| <= r.ids[k] < |r.arena.fragments|)
  {
    hide WithLines, Continues, OnlyInline, Extends, LabelAt;
    var r := LeafContent(env, box, p, a);
    ExtendsRefl(a, a.error);
    if box.children != [] && env.shape(box.children, InheritedTextStyle(box.style), p.model.contentWidth).Ok? {
      var lines := env.shape(box.children, InheritedTextStyle(box.style), p.model.contentWidth).value;
      LinesShape(a, lines, ContentOrigin(p.origin, p.model), p.model.contentWidth, box.style, |lines|);
      InlineOutline(a, r.arena);
    } else if box.children != [] {
      ExtendsRefl(a, r.arena.error);
    }
  }

  lemma ExtendsRefl(a: Arena, error: Option<LayoutError>)
    requires Indexed(a)
    ensures var b := a.(error := error); Extends(a, b) && Outline(b, |b.fragments|) == Outline(a, |a.fragments|)
  {
    SameOutline(a, a.(error := error), |a.fragments|);
  }

  lemma InlineOutline(a: Arena, b: Arena)
    requires Extends(a, b) && OnlyInline(b, |a.fragments|)
    ensures Outline(b, |b.fragments|) == Outline(a, |a.fragments|)
  {
    OutlineSkips(b, |a.fragments|, |b.fragments|);
    ContinuesOutline(a, b);
  }

  // ----- the whole recursion -----

  /** Fragment `fid` stands for box `id`, and its children, in order, for the box's block-level children. */
  ghost predicate Mirrors(boxes: seq<LayoutBox>, id: BoxId, a: Arena, fid: FragmentId)
    requires ChildrenBelow(boxes) && id < |boxes| && Indexed(a)
    decreases id
  {
    && fid < |a.fragments|
    && LabelAt(a, fid) == [BoxLabel(boxes[id])]
    && (IsBlockContainer(boxes, id) ==>
          && |a.fragments[fid].children| == |boxes[id].children|
          && forall k :: 0 <= k < |boxes[id].children| ==>
               Mirrors(boxes, boxes[id].children[k], a, a.fragments[fid].children[k]))
  }

  /** `b` agrees with `a` on the labels, nodes and child lists of all of `a`'s fragments. */
  ghost predicate SameShape(a: Arena, b: Arena)
    requires Indexed(a) && Indexed(b)
  {
    && |a.fragments| <= |b.fragments|
    && forall i :: 0 <= i < |a.fragments| ==>
         && LabelAt(b, i) == LabelAt(a, i) && b.fragments[i].children == a.fragments[i].children
         && b.fragments[i].node == a.fragments[i].node
  }

  lemma {:induction false} MirrorsKept(boxes: seq<LayoutBox>, id: BoxId, a: Arena, b: Arena, fid: FragmentId)
    requires ChildrenBelow(boxes) && id < |boxes| && Indexed(a) && Indexed(b)
    requires SameShape(a, b) && Mirrors(boxes, id, a, fid)
    ensures Mirrors(boxes, id, b, fid)
    decreases id
  {
    if IsBlockContainer(boxes, id) {
      forall k | 0 <= k < |boxes[id].children|
        ensures Mirrors(boxes, boxes[id].children[k], b, b.fragments[fid].children[k])
      {
        MirrorsKept(boxes, boxes[id].children[k], a, b, a.fragments[fid].children[k]);
      }
    }
  }

  /** The children visited so far have their fragments among the new ones, each mirroring its box. */
  ghost predicate ChildrenMirrored(boxes: seq<LayoutBox>, f: Frame, a0: Arena, a: Arena)
    requires ChildrenBelow(boxes) && Indexed(a)
  {
    && |f.childIds| == f.nextChild <= |f.blockChildren|
    && forall k :: 0 <= k < f.nextChild ==>
         && |a0.fragments| <= f.childIds[k] < |a.fragments|
         && f.blockChildren[k] < |boxes|
         && Mirrors(boxes, f.blockChildren[k], a, f.childIds[k])
  }

  /** What closing a frame reads besides the cursor: fixed when the frame was opened. */
  predicate SameIdentity(f: Frame, g: Frame) {
    && f.node == g.node && f.style == g.style && f.anonymous == g.anonymous && f.place == g.place
    && f.fragStart == g.fragStart && f.blockChildren == g.blockChildren
    && f.contentOrigin == g.contentOrigin && f.bottomCollapses == g.bottomCollapses
    && f.firstChildCollapses == g.firstChildCollapses
  }

  lemma ExtendsSameShape(a: Arena, b: Arena)
    requires Extends(a, b)
    ensures SameShape(a, b)
  {
  }

  lemma MirroredAfter(boxes: seq<LayoutBox>, f: Frame, a0: Arena, a: Arena, g: Frame, b: Arena, id: FragmentId)
    requires ChildrenBelow(boxes) && Extends(a0, a) && Extends(a, b)
    requires ChildrenMirrored(boxes, f, a0, a) && f.nextChild < |f.blockChildren|
             && f.blockChildren[f.nextChild] < |boxes|
    requires |a.fragments| <= id < |b.fragments| && Mirrors(boxes, f.blockChildren[f.nextChild], b, id)
    requires g.childIds == f.childIds + [id] && g.blockChildren == f.blockChildren && g.nextChild == f.nextChild + 1
    ensures ChildrenMirrored(boxes, g, a0, b)
  {
    hide Mirrors, Extends, SameShape, ChildrenBelow, LabelAt;
    ExtendsIndexed(a0, a);
    ExtendsIndexed(a, b);
    ExtendsSameShape(a, b);
    ArenaGrows(a0, a);
    ArenaGrows(a, b);
    forall k | 0 <= k < g.nextChild
      ensures |a0.fragments| <= g.childIds[k] < |b.fragments|
      ensures g.blockChildren[k] < |boxes| && Mirrors(boxes, g.blockChildren[k], b, g.childIds[k])
    {
      if k < f.nextChild {
        MirrorsKept(boxes, f.blockChildren[k], a, b, f.childIds[k]);
      }
    }
  }

  lemma CloseMirrors(env: Env, id: BoxId, f: Frame, a0: Arena, a: Arena)
    requires WellFormed(env.tree) && id < |env.tree.boxes| && Extends(a0, a)
    requires IsBlockContainer(env.tree.boxes, id) && f.nextChild == |f.blockChildren|
    requires f.blockChildren == env.tree.boxes[id].children && f.node == env.tree.boxes[id].node
    requires f.style == env.tree.boxes[id].style && f.anonymous == env.tree.boxes[id].kind.AnonymousBlock?
    requires f.fragStart == |a0.fragments| && ChildrenMirrored(env.tree.boxes, f, a0, a)
    ensures var r := CloseFrame(env, f, a);
            && Extends(a0, r.arena) && r.id == |a.fragments| && |r.arena.fragments| == |a.fragments| + 1
            && Outline(r.arena, |r.arena.fragments|) == Outline(a, |a.fragments|) + [BoxLabel(env.tree.boxes[id])]
            && Mirrors(env.tree.boxes, id, r.arena, r.id)
  {
    hide Extends, UniqueParents, Homogeneous, Inset, BorderBoxSize, ResolveOffset, ContainerHeight;
    var boxes := env.tree.boxes;
    var r := CloseFrame(env, f, a);
    CloseShape(env, boxes[id], f.place, ContainerHeight(f), a0, f.childIds, a);
    ExtendsIndexed(a0, a);
    ClosedChildren(env, f, a);
    forall k | 0 <= k < |boxes[id].children| ensures Mirrors(boxes, boxes[id].children[k], r.arena, f.childIds[k]) {
      MirrorsKept(boxes, boxes[id].children[k], a, r.arena, f.childIds[k]);
    }
  }

  lemma ExtendsIndexed(a: Arena, b: Arena)
    requires Extends(a, b)
    ensures Indexed(a) && Indexed(b)
  {
  }

  lemma ClosedChildren(env: Env, f: Frame, a: Arena)
    requires Indexed(a)
    ensures var r := CloseFrame(env, f, a);
            && Indexed(r.arena) && SameShape(a, r.arena) && r.arena.fragments[r.id].children == f.childIds
            && LabelAt(r.arena, r.id) == [Label(f.node, f.anonymous, f.style)]
  {
    hide Inset, BorderBoxSize, ResolveOffset, ContainerHeight;
  }

  lemma OpenShape(boxes: seq<LayoutBox>, box: LayoutBox, p: ChildPlacement, a: Arena)
    requires ChildrenBelow(boxes) && Indexed(a)
    ensures var f := OpenFrame(box, p, |a.fragments|);
            && ChildrenMirrored(boxes, f, a, a) && f.nextChild == 0 && f.blockChildren == box.children
            && f.node == box.node && f.style == box.style && f.anonymous == box.kind.AnonymousBlock?
            && f.fragStart == |a.fragments| && f.place == p
  {
  }

  /**
   * The subtree of one box: a fresh stretch of the arena ending in the box's own
   * fragment, its boxes in post-order, and in a packed arena everything in the
   * stretch, lines and text included, hangs below that fragment.
   */
  lemma {:induction false} BoxShape(env: Env, id: BoxId, p: ChildPlacement, a: Arena)
    requires WellFormed(env.tree) && id < |env.tree.boxes| && Indexed(a)
    ensures var r := LayBox(env, id, p, a);
            && Extends(a, r.arena) && |a.fragments| <= r.id == |r.arena.fragments| - 1
            && Outline(r.arena, |r.arena.fragments|) == Outline(a, |a.fragments|) + PostOrder(env.tree.boxes, id)
            && Mirrors(env.tree.boxes, id, r.arena, r.id)
            && (Packed(a.fragments) ==>
                  Packed(r.arena.fragments) && IsStretch(r.arena.fragments, r.id, |a.fragments|))
    decreases id, 1, 0
  {
    hide UniqueParents, Homogeneous, LayLeaf, CloseFrame, Extends, Mirrors, OpenFrame, ChildrenMirrored, Outline,
         LabelAt, PostOrderFrom;
    var box := env.tree.boxes[id];
    BoxStretch(env, id, p, a);
    if IsBlockContainer(env.tree.boxes, id) {
      var f := OpenFrame(box, p, |a.fragments|);
      ExtendsRefl(a, a.error);
      OpenShape(env.tree.boxes, box, p, a);
      ChildrenShape(env, id, f, a, a);
      var done := LayChildren(env, id, f, a);
      ArenaGrows(a, done.arena);
      CloseMirrors(env, id, done.frame, a, done.arena);
    } else {
      LeafShape(env, box, p, a);
      LeafMirrors(env, id, p, a);
    }
  }

  lemma BoxStretch(env: Env, id: BoxId, p: ChildPlacement, a: Arena)
    requires WellFormed(env.tree) && id < |env.tree.boxes|
    ensures var r := LayBox(env, id, p, a);
            Packed(a.fragments) ==> Packed(r.arena.fragments) && r.id < |r.arena.fragments|
                                    && IsStretch(r.arena.fragments, r.id, |a.fragments|)
  {
    hide LayBox, WellFormed, Low, IsStretch, Chain;
    if Packed(a.fragments) {
      BoxGrows(env, id, p, a);
      GrowsFacts(a.fragments, LayBox(env, id, p, a).arena.fragments);
      SubtreesAreStretches(LayBox(env, id, p, a).arena.fragments, LayBox(env, id, p, a).id);
    }
  }

  lemma LeafMirrors(env: Env, id: BoxId, p: ChildPlacement, a: Arena)
    requires WellFormed(env.tree) && id < |env.tree.boxes| && Indexed(a) && !IsBlockContainer(env.tree.boxes, id)
    ensures var r := LayLeaf(env, env.tree.boxes[id], p, a);
            && Indexed(r.arena) && |a.fragments| <= r.id == |r.arena.fragments| - 1
            && Mirrors(env.tree.boxes, id, r.arena, r.id)
  {
    hide WellFormed, WithLines, Inset, BorderBoxSize, ResolveOffset;
    LeafShape(env, env.tree.boxes[id], p, a);
    LeafContentShape(env, env.tree.boxes[id], p, a);
  }

  lemma MirroredBounds(boxes: seq<LayoutBox>, f: Frame, a0: Arena, a: Arena)
    requires ChildrenBelow(boxes) && Indexed(a) && ChildrenMirrored(boxes, f, a0, a)
    ensures f.nextChild <= |f.blockChildren|
  {
  }

  lemma ReceiveKeeps(f: Frame, p: ChildPlacement, laid: Laid)
    ensures var g := Receive(f.(nextChild := f.nextChild + 1), p, laid);
            SameIdentity(g, f) && g.nextChild == f.nextChild + 1 && g.childIds == f.childIds + [laid.id]
  {
  }

  lemma {:induction false} ChildrenShape(env: Env, id: BoxId, f: Frame, a0: Arena, a: Arena)
    requires WellFormed(env.tree) && id < |env.tree.boxes| && f.blockChildren == env.tree.boxes[id].children
    requires Extends(a0, a) && ChildrenMirrored(env.tree.boxes, f, a0, a)
    ensures var r := LayChildren(env, id, f, a);
            && SameIdentity(r.frame, f) && r.frame.nextChild == |f.blockChildren|
            && Extends(a0, r.arena) && ChildrenMirrored(env.tree.boxes, r.frame, a0, r.arena)
            && Outline(r.arena, |r.arena.fragments|)
               == Outline(a, |a.fragments|) + PostOrderFrom(env.tree.boxes, id, f.nextChild)
    decreases id, 0, |f.blockChildren| - f.nextChild
  {
    hide UniqueParents, Homogeneous, LayBox, Extends, Mirrors, PlaceChild, ChildrenMirrored, Receive, LabelAt,
         Outline, PostOrder;
    ExtendsIndexed(a0, a);
    MirroredBounds(env.tree.boxes, f, a0, a);
    if f.nextChild < |f.blockChildren| {
      var c := f.blockChildren[f.nextChild];
      var p := PlaceChild(env, f, c);
      var laid := LayBox(env, c, p, a);
      BoxShape(env, c, p, a);
      var g := Receive(f.(nextChild := f.nextChild + 1), p, laid);
      ReceiveKeeps(f, p, laid);
      MirroredAfter(env.tree.boxes, f, a0, a, g, laid.arena, laid.id);
      ExtendsTrans(a0, a, laid.arena);
      ChildrenShape(env, id, g, a0, laid.arena);
      assert LayChildren(env, id, f, a) == LayChildren(env, id, g, laid.arena);
    }
  }

  lemma RootShape(env: Env)
    requires WellFormed(env.tree)
    ensures var f := RootFrame(env);
            var box := env.tree.boxes[env.tree.root];
            && Indexed(EMPTY_ARENA)
            && ChildrenMirrored(env.tree.boxes, f, EMPTY_ARENA, EMPTY_ARENA) && f.nextChild == 0
               && f.blockChildren == box.children
            && f.node == box.node && f.style == box.style && f.anonymous == box.kind.AnonymousBlock? && f.fragStart == 0
            && Outline(EMPTY_ARENA, 0) == []
  {
    hide RootPlacement;
    OpenShape(env.tree.boxes, env.tree.boxes[env.tree.root], RootPlacement(env), EMPTY_ARENA);
  }

  /**
   * The finished tree: one fragment per block-level box in post-order, the root's
   * last, every child id below its parent's, the fragment tree nested as the box
   * tree is, and every fragment hanging below the root's.
   */
  lemma LayoutShape(env: Env)
    requires WellFormed(env.tree)
    ensures var r := LayRoot(env);
            && Extends(EMPTY_ARENA, r.arena) && r.id == |r.arena.fragments| - 1
            && Outline(r.arena, |r.arena.fragments|) == PostOrder(env.tree.boxes, env.tree.root)
            && Mirrors(env.tree.boxes, env.tree.root, r.arena, r.id)
            && ChildrenFirst(r.arena.fragments) && IsStretch(r.arena.fragments, r.id, 0)
  {
    hide UniqueParents, Homogeneous, LayLeaf, CloseFrame, Extends, Mirrors;
    hide OpenFrame, ChildrenMirrored, Outline, LabelAt, PostOrderFrom, RootPlacement, Packed, IsStretch, Low,
         ChildrenFirst;
    LayoutPacked(env);
    var root := env.tree.root;
    var p := RootPlacement(env);
    RootShape(env);
    if IsBlockContainer(env.tree.boxes, root) {
      var f := RootFrame(env);
      ExtendsRefl(EMPTY_ARENA, None);
      ChildrenShape(env, root, f, EMPTY_ARENA, EMPTY_ARENA);
      var done := LayChildren(env, root, f, EMPTY_ARENA);
      CloseMirrors(env, root, done.frame, EMPTY_ARENA, done.arena);
    } else {
      LeafShape(env, env.tree.boxes[root], p, EMPTY_ARENA);
      LeafMirrors(env, root, p, EMPTY_ARENA);
    }
  }
}
