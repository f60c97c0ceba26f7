/**
 * Relative positioning is local (CSS 2.1 section 9.4.3): switching one box from
 * static to relative moves every rectangle of its subtree by the box's offset and
 * changes nothing else but the style copies of the box itself. In particular no
 * glyph run moves, so text follows its box exactly when there is nothing to follow.
 */
module RelativePosition {
  import opened AppUnits
  import opened Geometry
  import opened Styles
  import opened Wrappers
  import opened BoxTrees
  import opened BoxModels
  import opened LayoutContext
  import opened Fragments
  import opened Margins
  import opened BlockFlow
  import opened FragmentShape
  import opened FragmentOrder

  /** Two environments that differ at most in the position of box `x`. */
  ghost predicate SameButPosition(e1: Env, e2: Env, x: BoxId) {
    && WellFormed(e1.tree) && WellFormed(e2.tree)
    && |e1.tree.boxes| == |e2.tree.boxes| && x < |e1.tree.boxes|
    && e1.viewport == e2.viewport && e1.pct == e2.pct && e1.shape == e2.shape
    && (forall b :: 0 <= b < |e1.tree.boxes| ==>
          && e1.tree.boxes[b].children == e2.tree.boxes[b].children
          && e1.tree.boxes[b].kind == e2.tree.boxes[b].kind
          && e1.tree.boxes[b].node == e2.tree.boxes[b].node
          && (b != x ==> e1.tree.boxes[b] == e2.tree.boxes[b]))
    && e2.tree.boxes[x].style == e1.tree.boxes[x].style.(position := e2.tree.boxes[x].style.position)
  }

  /** The same document with box `x` positioned as `position`. */
  ghost function Switched(env: Env, x: BoxId, position: Position): (r: Env)
    requires WellFormed(env.tree) && x < |env.tree.boxes|
    ensures SameButPosition(env, r, x) && r.tree.root == env.tree.root
    ensures r.tree.boxes[x].style.position == position
  {
    var box := env.tree.boxes[x];
    var after := env.tree.boxes[x := box.(style := box.style.(position := position))];
    assert forall b :: 0 <= b < |after| ==>
             after[b].children == env.tree.boxes[b].children && after[b].kind == env.tree.boxes[b].kind;
    assert Homogeneous(after) by {
      forall p | 0 <= p < |after| ensures HomogeneousAt(after, p) {
        assert HomogeneousAt(env.tree.boxes, p);
      }
    }
    env.(tree := env.tree.(boxes := after))
  }

  // ----- nothing but the shift reads the position -----

  lemma SameParent(e1: Env, e2: Env, x: BoxId, c: BoxId)
    requires SameButPosition(e1, e2, x)
    ensures Parent(e1.tree.boxes, c) == Parent(e2.tree.boxes, c)
  {
    hide Homogeneous;
    var p := Parent(e1.tree.boxes, c);
    if p.Some? {
      var i :| 0 <= i < |e1.tree.boxes[p.value].children| && e1.tree.boxes[p.value].children[i] == c;
      ParentOfChild(e2.tree.boxes, p.value, i);
    }
  }

  lemma ModelIgnoresPosition(pct: PercentOf, style: LayoutStyle, position: Position, w: Au, h: Option<Au>)
    ensures ResolveBoxModel(pct, style.(position := position), w, h) == ResolveBoxModel(pct, style, w, h)
  {
  }

  lemma {:induction false} SameModel(e1: Env, e2: Env, x: BoxId, b: BoxId)
    requires SameButPosition(e1, e2, x) && b < |e1.tree.boxes|
    ensures ModelOf(e1, b) == ModelOf(e2, b)
    decreases |e1.tree.boxes| - b
  {
    hide UniqueParents, Homogeneous, ResolveBoxModel;
    SameParent(e1, e2, x, b);
    ModelIgnoresPosition(e1.pct, e1.tree.boxes[b].style, e2.tree.boxes[b].style.position,
                         ContainingBlock(e1, b).0, ContainingBlock(e1, b).1);
    match Parent(e1.tree.boxes, b)
    case None =>
    case Some(p) => SameModel(e1, e2, x, p);
  }

  lemma {:induction false} SameChain(e1: Env, e2: Env, x: BoxId, edge: Edge, b: BoxId)
    requires SameButPosition(e1, e2, x) && b < |e1.tree.boxes|
    ensures ChainMargins(e1, edge, b) == ChainMargins(e2, edge, b)
    decreases b
  {
    hide UniqueParents, Homogeneous, ModelOf;
    SameModel(e1, e2, x, b);
    assert NextLink(e1, edge, b) == NextLink(e2, edge, b);
    match NextLink(e1, edge, b)
    case None =>
    case Some(c) => SameChain(e1, e2, x, edge, c);
  }

  lemma SamePlacement(e1: Env, e2: Env, x: BoxId, f1: Frame, f2: Frame, c: BoxId)
    requires SameButPosition(e1, e2, x) && c < |e1.tree.boxes| && f2 == f1.(style := f2.style)
    ensures PlaceChild(e1, f1, c) == PlaceChild(e2, f2, c)
  {
    hide UniqueParents, Homogeneous, ChainMargins;
    SameChain(e1, e2, x, Top, c);
    SameChain(e1, e2, x, Bottom, c);
  }

  // ----- where a box lies in the tree -----

  /** Whether `c` is `x` or one of its ancestors. */
  ghost predicate Above(boxes: seq<LayoutBox>, x: BoxId, c: BoxId)
    requires ChildrenBelow(boxes) && x < |boxes|
    decreases |boxes| - x
  {
    x == c || (Parent(boxes, x).Some? && Above(boxes, Parent(boxes, x).value, c))
  }

  lemma {:induction false} AboveIsLater(boxes: seq<LayoutBox>, x: BoxId, c: BoxId)
    requires ChildrenBelow(boxes) && x < |boxes| && Above(boxes, x, c)
    ensures x <= c
    decreases |boxes| - x
  {
    if x != c {
      AboveIsLater(boxes, Parent(boxes, x).value, c);
    }
  }

  lemma {:induction false} ChildAbove(boxes: seq<LayoutBox>, p: BoxId, i: nat, x: BoxId)
    requires ChildrenBelow(boxes) && UniqueParents(boxes) && x < |boxes| && p < |boxes| && i < |boxes[p].children|
    requires Above(boxes, x, boxes[p].children[i])
    ensures Above(boxes, x, p)
    decreases |boxes| - x
  {
    if x == boxes[p].children[i] {
      ParentOfChild(boxes, p, i);
      assert Above(boxes, p, p);
    } else {
      ChildAbove(boxes, p, i, Parent(boxes, x).value);
    }
  }

  /** A box lies below at most one child of a parent. */
  lemma {:induction false} OneBranch(boxes: seq<LayoutBox>, p: BoxId, i: nat, j: nat, x: BoxId)
    requires ChildrenBelow(boxes) && UniqueParents(boxes) && x < |boxes| && p < |boxes|
    requires i < |boxes[p].children| && j < |boxes[p].children|
    requires Above(boxes, x, boxes[p].children[i]) && Above(boxes, x, boxes[p].children[j])
    ensures i == j
    decreases |boxes| - x
  {
    if x == boxes[p].children[i] {
      ParentOfChild(boxes, p, i);
      if boxes[p].children[j] != x {
        AboveIsLater(boxes, p, boxes[p].children[j]);
      }
    } else if x == boxes[p].children[j] {
      ParentOfChild(boxes, p, j);
      AboveIsLater(boxes, p, boxes[p].children[i]);
    } else {
      OneBranch(boxes, p, i, j, Parent(boxes, x).value);
    }
  }

  lemma {:induction false} BranchBelow(boxes: seq<LayoutBox>, x: BoxId, id: BoxId) returns (k: nat)
    requires ChildrenBelow(boxes) && x < |boxes| && id < |boxes| && Above(boxes, x, id) && x != id
    ensures k < |boxes[id].children| && Above(boxes, x, boxes[id].children[k])
    decreases |boxes| - x
  {
    var p := Parent(boxes, x).value;
    if p == id {
      k :| 0 <= k < |boxes[p].children| && boxes[p].children[k] == x;
    } else {
      k := BranchBelow(boxes, p, id);
    }
  }

  /** `x` is laid out as a block: it and every ancestor below the root are block-level. */
  ghost predicate InBlockFlow(boxes: seq<LayoutBox>, x: BoxId)
    requires ChildrenBelow(boxes) && x < |boxes|
    decreases |boxes| - x
  {
    var p := Parent(boxes, x);
    p.Some? ==> IsBlockLevel(boxes[x].kind) && InBlockFlow(boxes, p.value)
  }

  lemma {:induction false} FlowAbove(boxes: seq<LayoutBox>, x: BoxId, c: BoxId)
    requires ChildrenBelow(boxes) && x < |boxes| && Above(boxes, x, c) && InBlockFlow(boxes, x)
    ensures c < |boxes| && InBlockFlow(boxes, c)
    decreases |boxes| - x
  {
    if x != c {
      FlowAbove(boxes, Parent(boxes, x).value, c);
    }
  }

  lemma BranchIsBlock(env: Env, x: BoxId, id: BoxId, k: nat)
    requires WellFormed(env.tree) && x < |env.tree.boxes| && id < |env.tree.boxes| && k < |env.tree.boxes[id].children|
    requires InBlockFlow(env.tree.boxes, x) && Above(env.tree.boxes, x, env.tree.boxes[id].children[k])
    ensures IsBlockContainer(env.tree.boxes, id)
  {
    FlowAbove(env.tree.boxes, x, env.tree.boxes[id].children[k]);
    ParentOfChild(env.tree.boxes, id, k);
    assert HomogeneousAt(env.tree.boxes, id);
  }

  // ----- fragments that moved and fragments that did not -----

  predicate RectMoved(r1: Rect, r2: Rect, dx: int, dy: int) {
    r2.size == r1.size && r2.origin.x == r1.origin.x + dx && r2.origin.y == r1.origin.y + dy
  }

  /** The three rects differ by exactly `(dx, dy)`; node, kind, runs, style id and child list are the same. */
  predicate FragmentMoved(f1: Fragment, f2: Fragment, dx: int, dy: int) {
    && RectMoved(f1.borderBox, f2.borderBox, dx, dy)
    && RectMoved(f1.paddingBox, f2.paddingBox, dx, dy)
    && RectMoved(f1.contentBox, f2.contentBox, dx, dy)
    && f2 == f1.(borderBox := f2.borderBox, paddingBox := f2.paddingBox, contentBox := f2.contentBox)
  }

  /**
   * How two arenas differ: the rects of `[lo, hi)` by `d`, and the entries `restyled`
   * of the style table, which copy a style `was` that became relative.
   */
  datatype Change = Change(lo: nat, hi: nat, d: Point, was: LayoutStyle, restyled: set<nat>)

  /** No difference yet. */
  function Nothing(was: LayoutStyle): Change {
    Change(0, 0, ORIGIN, was, {})
  }

  /** The second arena is the first with exactly the change `m`. */
  ghost predicate Moved(a1: Arena, a2: Arena, m: Change) {
    && |a1.fragments| == |a2.fragments| == |a1.styles| == |a2.styles| && a1.error == a2.error
    && (forall i :: 0 <= i < |a1.fragments| && m.lo <= i < m.hi ==>
          FragmentMoved(a1.fragments[i], a2.fragments[i], m.d.x, m.d.y))
    && (forall i :: 0 <= i < |a1.fragments| && !(m.lo <= i < m.hi) ==> a2.fragments[i] == a1.fragments[i])
    && (forall i :: i in m.restyled ==> 0 <= i < |a1.styles|)
    && (forall i :: 0 <= i < |a1.styles| ==>
          if i in m.restyled then a1.styles[i] == m.was && a2.styles[i] == m.was.(position := Relative)
          else a2.styles[i] == a1.styles[i])
  }

  /** The two styles one box is given: the same, or the switched box's own before and after. */
  predicate Styled(m: Change, s1: LayoutStyle, s2: LayoutStyle) {
    s1 == s2 || (s1.position.Static? && s1 == m.was && s2 == s1.(position := Relative))
  }

  /** The change after pushing fragments `ids` under those two styles. */
  function Restyled(m: Change, s1: LayoutStyle, s2: LayoutStyle, ids: set<nat>): Change {
    if s1 == s2 then m else m.(restyled := m.restyled + ids)
  }

  /** The fragments of `[lo, hi)` that no document node accounts for. */
  function Unnamed(fragments: seq<Fragment>, lo: nat, hi: nat): set<nat>
    requires hi <= |fragments|
  {
    set i | lo <= i < hi && fragments[i].node.None?
  }

  predicate RectFits(r: Rect, d: Point) {
    Fits(r.origin.x + d.x) && Fits(r.origin.y + d.y)
  }

  predicate FragmentFits(f: Fragment, d: Point) {
    RectFits(f.borderBox, d) && RectFits(f.paddingBox, d) && RectFits(f.contentBox, d)
  }

  /** A shift by `d` of the fragments from `start` on saturates nowhere. */
  ghost predicate ExactShift(fragments: seq<Fragment>, start: nat, d: Point) {
    forall i :: start <= i < |fragments| ==> FragmentFits(fragments[i], d)
  }

  lemma PushStill(a1: Arena, a2: Arena, m: Change, s1: LayoutStyle, s2: LayoutStyle, node: Option<NodeId>,
                  kind: FragmentKind, border: Rect, padding: Rect, content: Rect, children: seq<FragmentId>)
    requires Moved(a1, a2, m) && m.hi <= |a1.fragments| && Styled(m, s1, s2)
    ensures Moved(Push(a1, s1, node, kind, border, padding, content, children),
                  Push(a2, s2, node, kind, border, padding, content, children),
                  Restyled(m, s1, s2, {|a1.fragments|}))
  {
  }

  /** A shift that starts past the moved stretch keeps the difference. */
  lemma ShiftPast(a1: Arena, a2: Arena, m: Change, start: nat, style: LayoutStyle, shift: Point)
    requires Moved(a1, a2, m) && m.hi <= start
    ensures Moved(Positioned(a1, start, style, shift), Positioned(a2, start, style, shift), m)
  {
  }

  lemma ShiftedApart(f1: Fragment, f2: Fragment, dx: int, dy: int, shift: Point)
    requires FragmentMoved(f1, f2, dx, dy) && FragmentFits(f1, shift) && FragmentFits(f2, shift)
    ensures FragmentMoved(ShiftFragment(f1, shift), ShiftFragment(f2, shift), dx, dy)
  {
  }

  /** An exact shift around the moved stretch keeps the difference. */
  lemma ShiftAround(a1: Arena, a2: Arena, m: Change, start: nat, style: LayoutStyle, shift: Point)
    requires Moved(a1, a2, m) && start <= m.lo
    requires style.position.Relative? ==>
               ExactShift(a1.fragments, start, shift) && ExactShift(a2.fragments, start, shift)
    ensures Moved(Positioned(a1, start, style, shift), Positioned(a2, start, style, shift), m)
  {
    hide FragmentMoved, FragmentFits, ShiftFragment;
    if style.position.Relative? {
      var b1, b2 := Positioned(a1, start, style, shift).fragments, Positioned(a2, start, style, shift).fragments;
      forall i | 0 <= i < |b1| && m.lo <= i < m.hi ensures FragmentMoved(b1[i], b2[i], m.d.x, m.d.y) {
        ShiftedApart(a1.fragments[i], a2.fragments[i], m.d.x, m.d.y, shift);
      }
    }
  }

  /** The box itself: shifted in one world, left alone in the other. */
  lemma ShiftHere(a1: Arena, a2: Arena, m: Change, start: nat, s1: LayoutStyle, s2: LayoutStyle, shift1: Point,
                  shift2: Point)
    requires Moved(a1, a2, m) && m.lo == m.hi && s1.position.Static? && s2.position.Relative?
    requires ExactShift(a2.fragments, start, shift2)
    ensures Moved(Positioned(a1, start, s1, shift1), Positioned(a2, start, s2, shift2),
                  m.(lo := start, hi := |a1.fragments|, d := shift2))
  {
  }

  // ----- inline content -----

  lemma UnnamedNext(fragments: seq<Fragment>, f: Fragment, lo: nat)
    requires lo <= |fragments|
    ensures Unnamed(fragments + [f], lo, |fragments| + 1)
            == Unnamed(fragments, lo, |fragments|) + if f.node.None? then {|fragments|} else {}
  {
  }

  /** The change so far, when what is unnamed from `lo` on has the box's own style. */
  function SoFar(m: Change, s1: LayoutStyle, s2: LayoutStyle, fragments: seq<Fragment>, lo: nat): Change {
    Restyled(m, s1, s2, Unnamed(fragments, lo, |fragments|))
  }

  /** A named fragment brings its own style, an unnamed one takes its box's. */
  lemma PushNamed(a1: Arena, a2: Arena, m: Change, s1: LayoutStyle, s2: LayoutStyle, lo: nat, node: Option<NodeId>,
                  own: LayoutStyle, kind: FragmentKind, rect: Rect, children: seq<FragmentId>)
    requires lo <= |a1.fragments| && m.hi <= |a1.fragments| && Styled(m, s1, s2)
    requires Moved(a1, a2, SoFar(m, s1, s2, a1.fragments, lo))
    ensures var r1 := Push(a1, if node.Some? then own else s1, node, kind, rect, rect, rect, children);
            var r2 := Push(a2, if node.Some? then own else s2, node, kind, rect, rect, rect, children);
            Moved(r1, r2, SoFar(m, s1, s2, r1.fragments, lo))
  {
    hide Moved;
    var now := SoFar(m, s1, s2, a1.fragments, lo);
    var f := Fragment(node, kind, rect, rect, rect, |a1.styles|, children);
    UnnamedNext(a1.fragments, f, lo);
    if node.Some? {
      PushStill(a1, a2, now, own, own, node, kind, rect, rect, rect, children);
    } else {
      PushStill(a1, a2, now, s1, s2, node, kind, rect, rect, rect, children);
      RestyledTwice(m, s1, s2, Unnamed(a1.fragments, lo, |a1.fragments|), {|a1.fragments|});
    }
    assert Unnamed(a1.fragments, lo, |a1.fragments|) + {} == Unnamed(a1.fragments, lo, |a1.fragments|);
  }

  lemma RestyledTwice(m: Change, s1: LayoutStyle, s2: LayoutStyle, a: set<nat>, b: set<nat>)
    ensures Restyled(Restyled(m, s1, s2, a), s1, s2, b) == Restyled(m, s1, s2, a + b)
  {
    assert m.restyled + a + b == m.restyled + (a + b);
  }

  lemma {:induction false} PiecesStill(a1: Arena, a2: Arena, m: Change, line: LineBox, origin: Point, top: Au,
                                       s1: LayoutStyle, s2: LayoutStyle, lo: nat, n: nat)
    requires lo <= |a1.fragments| && m.hi <= |a1.fragments| && Styled(m, s1, s2) && n <= |line.pieces|
    requires Moved(a1, a2, SoFar(m, s1, s2, a1.fragments, lo))
    ensures var r1, r2 := WithPieces(a1, line, origin, top, s1, n), WithPieces(a2, line, origin, top, s2, n);
            Moved(r1, r2, SoFar(m, s1, s2, r1.fragments, lo))
  {
    hide Moved, Push, RunsWidth, TranslateAll, Styled, SoFar;
    if n > 0 {
      PiecesStill(a1, a2, m, line, origin, top, s1, s2, lo, n - 1);
      var piece := line.pieces[n - 1];
      var runs := TranslateAll(piece.runs, origin.x, SatAdd(top, line.baseline));
      var rect := Rect(Point(if runs == [] then origin.x else runs[0].origin.x, top),
                       Size(RunsWidth(runs), line.height));
      PushNamed(WithPieces(a1, line, origin, top, s1, n - 1), WithPieces(a2, line, origin, top, s2, n - 1), m, s1, s2,
                lo, piece.Node(), piece.StyleIn(s1), Text(runs), rect, []);
    }
  }

  lemma MovedLength(a1: Arena, a2: Arena, m: Change)
    requires Moved(a1, a2, m)
    ensures |a1.fragments| == |a2.fragments| == |a1.styles|
  {
  }

  /** A line copies the style of its box, and so does text that no node accounts for. */
  lemma LineStill(a1: Arena, a2: Arena, m: Change, line: LineBox, origin: Point, width: Au,
                  s1: LayoutStyle, s2: LayoutStyle, lo: nat, cursor: Au)
    requires lo <= |a1.fragments| && m.hi <= |a1.fragments| && Styled(m, s1, s2)
    requires Moved(a1, a2, SoFar(m, s1, s2, a1.fragments, lo))
    ensures var r1, r2 := WithLine(a1, line, origin, width, s1, cursor), WithLine(a2, line, origin, width, s2, cursor);
            Moved(r1, r2, SoFar(m, s1, s2, r1.fragments, lo))
  {
    hide Moved, Push, WithPieces, Styled, SoFar;
    var top := SatAdd(origin.y, cursor);
    MovedLength(a1, a2, SoFar(m, s1, s2, a1.fragments, lo));
    PiecesStill(a1, a2, m, line, origin, top, s1, s2, lo, |line.pieces|);
    var rect := Rect(Point(origin.x, top), Size(width, line.height));
    PushNamed(WithPieces(a1, line, origin, top, s1, |line.pieces|),
              WithPieces(a2, line, origin, top, s2, |line.pieces|), m, s1, s2, lo, None, s1, Line, rect,
                  Range(|a1.fragments|, |line.pieces|));
  }

  lemma {:induction false} LinesStill(a1: Arena, a2: Arena, m: Change, lines: seq<LineBox>,
                                      origin: Point, width: Au, s1: LayoutStyle, s2: LayoutStyle, lo: nat, n: nat)
    requires lo <= |a1.fragments| && m.hi <= |a1.fragments| && n <= |lines| && Styled(m, s1, s2)
    requires Moved(a1, a2, SoFar(m, s1, s2, a1.fragments, lo))
    ensures var r1, r2 := WithLines(a1, lines, origin, width, s1, n), WithLines(a2, lines, origin, width, s2, n);
            && Moved(r1.arena, r2.arena, SoFar(m, s1, s2, r1.arena.fragments, lo)) && r1.ids == r2.ids
               && r1.height == r2.height
  {
    hide Moved, Push, WithLine, Styled, SoFar;
    if n > 0 {
      LinesStill(a1, a2, m, lines, origin, width, s1, s2, lo, n - 1);
      var b1, b2 := WithLines(a1, lines, origin, width, s1, n - 1), WithLines(a2, lines, origin, width, s2, n - 1);
      MovedLength(b1.arena, b2.arena, SoFar(m, s1, s2, b1.arena.fragments, lo));
      LineStill(b1.arena, b2.arena, m, lines[n - 1], origin, width, s1, s2, lo, b1.height);
    }
  }

  lemma NoneSoFar(m: Change, s1: LayoutStyle, s2: LayoutStyle, fragments: seq<Fragment>)
    ensures SoFar(m, s1, s2, fragments, |fragments|) == m
  {
    assert Unnamed(fragments, |fragments|, |fragments|) == {};
    assert m.restyled + {} == m.restyled;
  }

  lemma ContentStill(e1: Env, e2: Env, b1: LayoutBox, b2: LayoutBox, p: ChildPlacement, a1: Arena, a2: Arena, m: Change)
    requires e1.shape == e2.shape && b1.children == b2.children && b2.style == b1.style.(position := b2.style.position)
    requires Moved(a1, a2, m) && m.hi <= |a1.fragments| && Styled(m, b1.style, b2.style)
    ensures var r1, r2 := LeafContent(e1, b1, p, a1), LeafContent(e2, b2, p, a2);
            && Moved(r1.arena, r2.arena, SoFar(m, b1.style, b2.style, r1.arena.fragments, |a1.fragments|))
            && r1.ids == r2.ids && r1.height == r2.height
  {
    hide WithLines, SoFar, Unnamed;
    NoneSoFar(m, b1.style, b2.style, a1.fragments);
    if b1.children != [] && e1.shape(b1.children, InheritedTextStyle(b1.style), p.model.contentWidth).Ok? {
      var lines := e1.shape(b1.children, InheritedTextStyle(b1.style), p.model.contentWidth).value;
      LinesStill(a1, a2, m, lines, ContentOrigin(p.origin, p.model), p.model.contentWidth, b1.style, b2.style,
                 |a1.fragments|, |lines|);
    }
  }

  // ----- closing -----

  ghost predicate FrameExact(env: Env, f: Frame, a: Arena) {
    f.style.position.Relative? ==>
      ExactShift(PushBox(f.node, f.anonymous, f.style, f.place, ContainerHeight(f), f.childIds, a).fragments,
                 f.fragStart,
                 ResolveOffset(env.pct, f.style, f.place.cbWidth, f.place.cbHeight))
  }

  ghost predicate LeafExact(env: Env, box: LayoutBox, p: ChildPlacement, a: Arena) {
    var content := LeafContent(env, box, p, a);
    box.style.position.Relative? ==>
      ExactShift(PushBox(box.node, box.kind.AnonymousBlock?, box.style, p, LeafHeight(p, content.height), content.ids,
                         content.arena).fragments,
                 |a.fragments|, ResolveOffset(env.pct, box.style, p.cbWidth, p.cbHeight))
  }

  /** No relative shift anywhere in the subtree saturates. */
  ghost predicate BoxExact(env: Env, id: BoxId, p: ChildPlacement, a: Arena)
    requires WellFormed(env.tree) && id < |env.tree.boxes|
    decreases id, 1, 0
  {
    var box := env.tree.boxes[id];
    if IsBlockContainer(env.tree.boxes, id) then
      var f := OpenFrame(box, p, |a.fragments|);
      var done := LayChildren(env, id, f, a);
      ChildrenExact(env, id, f, a) && FrameExact(env, done.frame, done.arena)
    else
      LeafExact(env, box, p, a)
  }

  ghost predicate ChildrenExact(env: Env, id: BoxId, f: Frame, a: Arena)
    requires WellFormed(env.tree) && id < |env.tree.boxes| && f.blockChildren == env.tree.boxes[id].children
    decreases id, 0, |f.blockChildren| - f.nextChild
  {
    f.nextChild < |f.blockChildren| ==>
      var c := f.blockChildren[f.nextChild];
      var p := PlaceChild(env, f, c);
      var laid := LayBox(env, c, p, a);
      BoxExact(env, c, p, a) && ChildrenExact(env, id, Receive(f.(nextChild := f.nextChild + 1), p, laid), laid.arena)
  }

  // ----- subtrees without the box -----

  lemma CloseStill(e1: Env, e2: Env, f1: Frame, f2: Frame, a1: Arena, a2: Arena, m: Change)
    requires e1.pct == e2.pct && f2 == f1 && m.hi <= f1.fragStart && m.hi <= |a1.fragments| && Moved(a1, a2, m)
    ensures var r1, r2 := CloseFrame(e1, f1, a1), CloseFrame(e2, f2, a2);
            Moved(r1.arena, r2.arena, m) && r1.id == r2.id && r1.height == r2.height
  {
    hide Moved, Push, Positioned, Inset, BorderBoxSize, ResolveOffset, ContainerHeight;
    MovedLength(a1, a2, m);
    PushBoxStill(f1.node, f1.anonymous, f1.style, f1.style, f1.place, ContainerHeight(f1), f1.childIds, a1, a2, m);
    ShiftPast(PushBox(f1.node, f1.anonymous, f1.style, f1.place, ContainerHeight(f1), f1.childIds, a1),
              PushBox(f1.node, f1.anonymous, f1.style, f1.place, ContainerHeight(f1), f1.childIds, a2),
              m, f1.fragStart, f1.style, ResolveOffset(e1.pct, f1.style, f1.place.cbWidth, f1.place.cbHeight));
  }

  lemma PushBoxStill(node: Option<NodeId>, anonymous: bool, s1: LayoutStyle, s2: LayoutStyle, p: ChildPlacement,
                     height: Au,
                     ids: seq<FragmentId>, a1: Arena, a2: Arena, m: Change)
    requires Moved(a1, a2, m) && m.hi <= |a1.fragments| && Styled(m, s1, s2)
    ensures Moved(PushBox(node, anonymous, s1, p, height, ids, a1), PushBox(node, anonymous, s2, p, height, ids, a2),
                  Restyled(m, s1, s2, {|a1.fragments|}))
  {
    hide Moved, Push, Inset, BorderBoxSize;
    var border := Rect(p.origin, BorderBoxSize(p.model.contentWidth, height, p.model.padding, p.model.border));
    var padding := Inset(border, p.model.border);
    var content := Inset(padding, p.model.padding);
    var kind := if anonymous then FragmentKind.AnonymousBlock else FragmentKind.Block;
    PushStill(a1, a2, m, s1, s2, node, kind, border, padding, content, ids);
  }

  lemma LeafStill(e1: Env, e2: Env, box: LayoutBox, p: ChildPlacement, a1: Arena, a2: Arena, m: Change)
    requires e1.pct == e2.pct && e1.shape == e2.shape && m.hi <= |a1.fragments| && Moved(a1, a2, m)
    ensures var r1, r2 := LayLeaf(e1, box, p, a1), LayLeaf(e2, box, p, a2);
            Moved(r1.arena, r2.arena, m) && r1.id == r2.id && r1.height == r2.height
  {
    hide Moved, Push, Positioned, Inset, BorderBoxSize, ResolveOffset, LeafContent, LeafHeight;
    ContentStill(e1, e2, box, box, p, a1, a2, m);
    MovedLength(a1, a2, m);
    var c1, c2 := LeafContent(e1, box, p, a1), LeafContent(e2, box, p, a2);
    var h := LeafHeight(p, c1.height);
    MovedLength(c1.arena, c2.arena, m);
    PushBoxStill(box.node, box.kind.AnonymousBlock?, box.style, box.style, p, h, c1.ids, c1.arena, c2.arena, m);
    ShiftPast(PushBox(box.node, box.kind.AnonymousBlock?, box.style, p, h, c1.ids, c1.arena),
              PushBox(box.node, box.kind.AnonymousBlock?, box.style, p, h, c1.ids, c2.arena),
              m, |a1.fragments|, box.style, ResolveOffset(e1.pct, box.style, p.cbWidth, p.cbHeight));
  }

  /** A subtree without `x` comes out the same in both worlds and leaves the moved stretch alone. */
  lemma {:induction false} BoxStill(e1: Env, e2: Env, x: BoxId, id: BoxId, p: ChildPlacement,
                                    a1: Arena, a2: Arena, m: Change)
    requires SameButPosition(e1, e2, x) && id < |e1.tree.boxes| && !Above(e1.tree.boxes, x, id)
    requires m.hi <= |a1.fragments| && Moved(a1, a2, m)
    ensures var r1, r2 := LayBox(e1, id, p, a1), LayBox(e2, id, p, a2);
            && Moved(r1.arena, r2.arena, m) && r1.id == r2.id && r1.height == r2.height
            && |a1.fragments| <= |r1.arena.fragments|
    decreases id, 1, 0
  {
    hide UniqueParents, Homogeneous, Moved, OpenFrame, CloseFrame, LayLeaf;
    var box := e1.tree.boxes[id];
    assert Above(e1.tree.boxes, x, x);
    assert e2.tree.boxes[id] == box;
    MovedLength(a1, a2, m);
    if IsBlockContainer(e1.tree.boxes, id) {
      var f := OpenFrame(box, p, |a1.fragments|);
      Opened(box, p, |a1.fragments|);
      forall k | 0 <= k < |box.children| ensures !Above(e1.tree.boxes, x, box.children[k]) {
        if Above(e1.tree.boxes, x, box.children[k]) {
          ChildAbove(e1.tree.boxes, id, k, x);
        }
      }
      ChildrenStill(e1, e2, x, id, f, f, a1, a2, m);
      var d1, d2 := LayChildren(e1, id, f, a1), LayChildren(e2, id, f, a2);
      CloseStill(e1, e2, d1.frame, d2.frame, d1.arena, d2.arena, m);
    } else {
      LeafStill(e1, e2, box, p, a1, a2, m);
    }
  }

  lemma Opened(box: LayoutBox, p: ChildPlacement, start: nat)
    ensures var f := OpenFrame(box, p, start);
            && f.blockChildren == box.children && f.nextChild == 0 && f.fragStart == start && f.place == p
            && f.style == box.style && f.childIds == []
            && OpenFrame(box.(style := box.style.(position := Static)), p, start).(style := box.style) == f
  {
  }

  lemma Received(f: Frame, p: ChildPlacement, laid: Laid, style: LayoutStyle)
    ensures var g := Receive(f.(nextChild := f.nextChild + 1), p, laid);
            && g.blockChildren == f.blockChildren && g.nextChild == f.nextChild + 1 && g.fragStart == f.fragStart
            && g.style == f.style && g.place == f.place
            && Receive(f.(style := style).(nextChild := f.nextChild + 1), p, laid) == g.(style := style)
  {
  }

  lemma {:induction false} ChildrenStill(e1: Env, e2: Env, x: BoxId, id: BoxId, f1: Frame, f2: Frame,
                                         a1: Arena, a2: Arena, m: Change)
    requires SameButPosition(e1, e2, x) && id < |e1.tree.boxes|
    requires f1.blockChildren == e1.tree.boxes[id].children && f2 == f1.(style := f2.style)
    requires forall k :: f1.nextChild <= k < |f1.blockChildren| ==> !Above(e1.tree.boxes, x, f1.blockChildren[k])
    requires m.hi <= |a1.fragments| && Moved(a1, a2, m)
    ensures var r1, r2 := LayChildren(e1, id, f1, a1), LayChildren(e2, id, f2, a2);
            && Moved(r1.arena, r2.arena, m) && r2.frame == r1.frame.(style := f2.style)
            && r1.frame.fragStart == f1.fragStart && r1.frame.style == f1.style && r1.frame.place == f1.place
            && |a1.fragments| <= |r1.arena.fragments|
    decreases id, 0, |f1.blockChildren| - f1.nextChild
  {
    hide UniqueParents, Homogeneous, Moved, PlaceChild, LayBox, Above, Receive;
    if f1.nextChild < |f1.blockChildren| {
      var c := f1.blockChildren[f1.nextChild];
      var p := PlaceChild(e1, f1, c);
      SamePlacement(e1, e2, x, f1, f2, c);
      BoxStill(e1, e2, x, c, p, a1, a2, m);
      var l1, l2 := LayBox(e1, c, p, a1), LayBox(e2, c, p, a2);
      Received(f1, p, l1, f2.style);
      ReceiveIgnoresArena(f2, p, l1, l2);
      var g1 := Receive(f1.(nextChild := f1.nextChild + 1), p, l1);
      var g2 := Receive(f2.(nextChild := f2.nextChild + 1), p, l2);
      ChildrenStill(e1, e2, x, id, g1, g2, l1.arena, l2.arena, m);
    }
  }

  lemma ReceiveIgnoresArena(f: Frame, p: ChildPlacement, l1: Laid, l2: Laid)
    requires l1.id == l2.id && l1.height == l2.height
    ensures Receive(f.(nextChild := f.nextChild + 1), p, l1) == Receive(f.(nextChild := f.nextChild + 1), p, l2)
  {
  }

  // ----- the subtree of the box -----

  /**
   * `[lo, hi)` is the stretch of box `x`'s subtree: the fragments at and below `hi - 1`,
   * its own, whose boxes are those of `x`'s subtree in post-order.
   */
  ghost predicate Span(boxes: seq<LayoutBox>, x: BoxId, a: Arena, lo: nat, hi: nat)
    requires ChildrenBelow(boxes) && x < |boxes|
  {
    && Indexed(a) && ChildrenFirst(a.fragments) && lo < hi <= |a.fragments|
    && Low(a.fragments, hi - 1) == lo
    && Mirrors(boxes, x, a, hi - 1)
    && Outline(a, hi) == Outline(a, lo) + PostOrder(boxes, x)
  }

  lemma SpanKept(boxes: seq<LayoutBox>, x: BoxId, a: Arena, b: Arena, lo: nat, hi: nat)
    requires ChildrenBelow(boxes) && x < |boxes| && Span(boxes, x, a, lo, hi)
    requires Indexed(b) && SameShape(a, b) && ChildrenFirst(b.fragments)
    ensures Span(boxes, x, b, lo, hi)
  {
    hide Mirrors, LabelAt, PostOrder, Low;
    MirrorsKept(boxes, x, a, b, hi - 1);
    SameOutline(a, b, lo);
    SameOutline(a, b, hi);
    LowKept(a.fragments, b.fragments, hi - 1);
  }

  lemma ChildrenStayFirst(a: Arena, b: Arena)
    requires ChildrenFirst(a.fragments) && Extends(a, b)
    ensures ChildrenFirst(b.fragments)
  {
  }

  lemma OwnSpan(env: Env, x: BoxId, p: ChildPlacement, a: Arena)
    requires WellFormed(env.tree) && x < |env.tree.boxes| && Indexed(a) && Packed(a.fragments)
    ensures var r := LayBox(env, x, p, a);
            |a.fragments| < |r.arena.fragments| && Span(env.tree.boxes, x, r.arena, |a.fragments|, |r.arena.fragments|)
  {
    hide UniqueParents, Homogeneous, LayBox, Mirrors, PostOrder, LabelAt, Low, Packed;
    BoxShape(env, x, p, a);
    BoxGrows(env, x, p, a);
    GrowsFacts(a.fragments, LayBox(env, x, p, a).arena.fragments);
    ContinuesOutline(a, LayBox(env, x, p, a).arena);
  }

  lemma {:induction false} ChildrenKeepShape(env: Env, id: BoxId, f: Frame, a: Arena)
    requires WellFormed(env.tree) && id < |env.tree.boxes| && f.blockChildren == env.tree.boxes[id].children
    requires Indexed(a) && ChildrenFirst(a.fragments)
    ensures var r := LayChildren(env, id, f, a);
            Indexed(r.arena) && SameShape(a, r.arena) && ChildrenFirst(r.arena.fragments)
    decreases |f.blockChildren| - f.nextChild
  {
    hide UniqueParents, Homogeneous, LayBox, Mirrors, PostOrder, LabelAt, PlaceChild, Receive, Outline, Continues,
         ChildrenFirst;
    if f.nextChild < |f.blockChildren| {
      var c := f.blockChildren[f.nextChild];
      var p := PlaceChild(env, f, c);
      var laid := LayBox(env, c, p, a);
      BoxShape(env, c, p, a);
      ExtendsSameShape(a, laid.arena);
      ChildrenStayFirst(a, laid.arena);
      ReceiveKeeps(f, p, laid);
      ChildrenKeepShape(env, id, Receive(f.(nextChild := f.nextChild + 1), p, laid), laid.arena);
    }
  }

  // ----- subtrees with the box -----

  lemma CloseAround(e1: Env, e2: Env, f: Frame, a1: Arena, a2: Arena, m: Change)
    requires e1.pct == e2.pct && f.fragStart <= m.lo && m.hi <= |a1.fragments| && Moved(a1, a2, m)
    requires FrameExact(e1, f, a1) && FrameExact(e2, f, a2)
    ensures var r1, r2 := CloseFrame(e1, f, a1), CloseFrame(e2, f, a2);
            Moved(r1.arena, r2.arena, m) && r1.id == r2.id && r1.height == r2.height
  {
    hide Moved, Push, PushBox, Positioned, BorderBoxSize, ResolveOffset, ContainerHeight, ExactShift;
    MovedLength(a1, a2, m);
    PushBoxStill(f.node, f.anonymous, f.style, f.style, f.place, ContainerHeight(f), f.childIds, a1, a2, m);
    ShiftAround(PushBox(f.node, f.anonymous, f.style, f.place, ContainerHeight(f), f.childIds, a1),
                PushBox(f.node, f.anonymous, f.style, f.place, ContainerHeight(f), f.childIds, a2),
                m, f.fragStart, f.style, ResolveOffset(e1.pct, f.style, f.place.cbWidth, f.place.cbHeight));
  }

  lemma CloseHere(e1: Env, e2: Env, f1: Frame, f2: Frame, a1: Arena, a2: Arena)
    requires e1.pct == e2.pct && f2 == f1.(style := f2.style) && f2.style == f1.style.(position := f2.style.position)
    requires f1.style.position.Static? && f2.style.position.Relative?
    requires Moved(a1, a2, Nothing(f1.style)) && FrameExact(e2, f2, a2)
    ensures var r1, r2 := CloseFrame(e1, f1, a1), CloseFrame(e2, f2, a2);
            && Moved(r1.arena, r2.arena,
                     Change(f1.fragStart, |r1.arena.fragments|,
                            ResolveOffset(e1.pct, f1.style, f1.place.cbWidth, f1.place.cbHeight), f1.style, {r1.id}))
            && r1.id == r2.id && r1.height == r2.height
  {
    hide Moved, Push, PushBox, Positioned, BorderBoxSize, ExactShift;
    var d := ResolveOffset(e1.pct, f1.style, f1.place.cbWidth, f1.place.cbHeight);
    var m := Nothing(f1.style);
    MovedLength(a1, a2, m);
    var h := ContainerHeight(f1);
    PushBoxStill(f1.node, f1.anonymous, f1.style, f2.style, f1.place, h, f1.childIds, a1, a2, m);
    ShiftHere(PushBox(f1.node, f1.anonymous, f1.style, f1.place, h, f1.childIds, a1),
              PushBox(f1.node, f1.anonymous, f2.style, f1.place, h, f1.childIds, a2),
              Restyled(m, f1.style, f2.style, {|a1.fragments|}), f1.fragStart, f1.style, f2.style, d, d);
    assert {} + {|a1.fragments|} == {|a1.fragments|};
  }

  /** A leaf's own fragment carries the box's style, and so does everything unnamed in it. */
  lemma LeafHere(e1: Env, e2: Env, b1: LayoutBox, b2: LayoutBox, p: ChildPlacement, a1: Arena, a2: Arena)
    requires e1.pct == e2.pct && e1.shape == e2.shape
    requires b2 == b1.(style := b2.style) && b2.style == b1.style.(position := b2.style.position)
    requires b1.style.position.Static? && b2.style.position.Relative?
    requires Moved(a1, a2, Nothing(b1.style)) && LeafExact(e2, b2, p, a2)
    ensures var r1, r2 := LayLeaf(e1, b1, p, a1), LayLeaf(e2, b2, p, a2);
            && Moved(r1.arena, r2.arena,
                     Change(|a1.fragments|, |r1.arena.fragments|,
                            ResolveOffset(e1.pct, b1.style, p.cbWidth, p.cbHeight),
                            b1.style, Unnamed(r1.arena.fragments, |a1.fragments|, r1.id) + {r1.id}))
            && r1.id == r2.id && r1.height == r2.height
  {
    hide Moved, Push, PushBox, Positioned, BorderBoxSize, ExactShift, LeafContent, LeafHeight, Unnamed;
    var d := ResolveOffset(e1.pct, b1.style, p.cbWidth, p.cbHeight);
    var m := Nothing(b1.style);
    MovedLength(a1, a2, m);
    ContentStill(e1, e2, b1, b2, p, a1, a2, m);
    var c1, c2 := LeafContent(e1, b1, p, a1), LeafContent(e2, b2, p, a2);
    var within := SoFar(m, b1.style, b2.style, c1.arena.fragments, |a1.fragments|);
    MovedLength(c1.arena, c2.arena, within);
    var h := LeafHeight(p, c1.height);
    PushBoxStill(b1.node, b1.kind.AnonymousBlock?, b1.style, b2.style, p, h, c1.ids, c1.arena, c2.arena, within);
    ShiftHere(PushBox(b1.node, b1.kind.AnonymousBlock?, b1.style, p, h, c1.ids, c1.arena),
              PushBox(b1.node, b1.kind.AnonymousBlock?, b2.style, p, h, c1.ids, c2.arena),
              Restyled(within, b1.style, b2.style, {|c1.arena.fragments|}), |a1.fragments|, b1.style, b2.style, d, d);
    LeafNodes(e1, b1, p, a1);
    var unnamed := Unnamed(c1.arena.fragments, |a1.fragments|, |c1.arena.fragments|);
    assert {} + unnamed + {|c1.arena.fragments|} == unnamed + {|c1.arena.fragments|};
  }

  lemma LeafNodes(env: Env, box: LayoutBox, p: ChildPlacement, a: Arena)
    ensures var r, content := LayLeaf(env, box, p, a), LeafContent(env, box, p, a).arena.fragments;
            Unnamed(r.arena.fragments, |a.fragments|, r.id) == Unnamed(content, |a.fragments|, |content|)
  {
    hide LeafContent, Inset, BorderBoxSize, ResolveOffset, LeafHeight;
  }

  /** What a switch of `x` to relative must add to every rect of its subtree. */
  ghost function SwitchOffset(env: Env, x: BoxId): Point
    requires WellFormed(env.tree) && x < |env.tree.boxes|
  {
    var cb := ContainingBlock(env, x);
    ResolveOffset(env.pct, env.tree.boxes[x].style, cb.0, cb.1)
  }

  /**
   * The fragments of `[lo, id]` that carry the style of box `x`: its own, `id`, and if it
   * has inline content the lines, with any text that no node accounts for.
   */
  function OwnStyles(boxes: seq<LayoutBox>, x: BoxId, fragments: seq<Fragment>, lo: nat, id: FragmentId): set<nat>
    requires ChildrenBelow(boxes) && x < |boxes| && id < |fragments|
  {
    if IsBlockContainer(boxes, x) then {id} else Unnamed(fragments, lo, id) + {id}
  }

  /** The change a switch of `x` makes when its subtree is `[lo, hi)`. */
  ghost function SwitchOf(env: Env, x: BoxId, fragments: seq<Fragment>, lo: nat, hi: nat): Change
    requires WellFormed(env.tree) && x < |env.tree.boxes| && lo < hi <= |fragments|
  {
    Change(lo, hi, SwitchOffset(env, x), env.tree.boxes[x].style, OwnStyles(env.tree.boxes, x, fragments, lo, hi - 1))
  }

  lemma SwitchKept(env: Env, x: BoxId, a: Arena, b: Arena, lo: nat, hi: nat)
    requires WellFormed(env.tree) && x < |env.tree.boxes| && lo < hi <= |a.fragments|
    requires Indexed(a) && Indexed(b) && SameShape(a, b)
    ensures SwitchOf(env, x, a.fragments, lo, hi) == SwitchOf(env, x, b.fragments, lo, hi)
  {
  }

  ghost predicate ResolvedAt(env: Env, id: BoxId, p: ChildPlacement)
    requires WellFormed(env.tree) && id < |env.tree.boxes|
  {
    p.model == ModelOf(env, id) && (p.cbWidth, p.cbHeight) == ContainingBlock(env, id)
  }

  lemma HereMoved(e1: Env, e2: Env, x: BoxId, p: ChildPlacement, a1: Arena, a2: Arena)
    requires SameButPosition(e1, e2, x) && e1.tree.boxes[x].style.position.Static?
             && e2.tree.boxes[x].style.position.Relative?
    requires ResolvedAt(e1, x, p) && Moved(a1, a2, Nothing(e1.tree.boxes[x].style)) && BoxExact(e2, x, p, a2)
    ensures var r1, r2 := LayBox(e1, x, p, a1), LayBox(e2, x, p, a2);
            && |a1.fragments| < |r1.arena.fragments|
            && Moved(r1.arena, r2.arena, SwitchOf(e1, x, r1.arena.fragments, |a1.fragments|, |r1.arena.fragments|))
            && r1.id == r2.id && r1.height == r2.height
  {
    hide UniqueParents, Homogeneous, Moved, OpenFrame, CloseFrame, LayLeaf, Above, ModelOf, ContainingBlock,
         LeafExact, FrameExact;
    var m := Nothing(e1.tree.boxes[x].style);
    var b1, b2 := e1.tree.boxes[x], e2.tree.boxes[x];
    MovedLength(a1, a2, m);
    if IsBlockContainer(e1.tree.boxes, x) {
      var f1, f2 := OpenFrame(b1, p, |a1.fragments|), OpenFrame(b2, p, |a1.fragments|);
      Opened(b1, p, |a1.fragments|);
      Opened(b2, p, |a1.fragments|);
      forall k | 0 <= k < |b1.children| ensures !Above(e1.tree.boxes, x, b1.children[k]) {
        if Above(e1.tree.boxes, x, b1.children[k]) {
          AboveIsLater(e1.tree.boxes, x, b1.children[k]);
        }
      }
      ChildrenStill(e1, e2, x, x, f1, f2, a1, a2, m);
      var d1, d2 := LayChildren(e1, x, f1, a1), LayChildren(e2, x, f2, a2);
      CloseHere(e1, e2, d1.frame, d2.frame, d1.arena, d2.arena);
    } else {
      LeafHere(e1, e2, b1, b2, p, a1, a2);
    }
  }

  lemma CloseSpan(e1: Env, e2: Env, x: BoxId, f: Frame, a1: Arena, a2: Arena, lo: nat, hi: nat)
    requires WellFormed(e1.tree) && x < |e1.tree.boxes| && e1.pct == e2.pct
    requires f.fragStart <= lo && lo < hi <= |a1.fragments| && Span(e1.tree.boxes, x, a1, lo, hi)
    requires Moved(a1, a2, SwitchOf(e1, x, a1.fragments, lo, hi))
    requires FrameExact(e1, f, a1) && FrameExact(e2, f, a2) && ChildrenFirst(CloseFrame(e1, f, a1).arena.fragments)
    ensures var r1, r2 := CloseFrame(e1, f, a1), CloseFrame(e2, f, a2);
            && hi <= |r1.arena.fragments| && Moved(r1.arena, r2.arena, SwitchOf(e1, x, r1.arena.fragments, lo, hi))
            && r1.id == r2.id && r1.height == r2.height && Span(e1.tree.boxes, x, r1.arena, lo, hi)
  {
    hide UniqueParents, Homogeneous, Moved, CloseFrame, Span, SwitchOffset, FrameExact, Indexed, SameShape,
         ChildrenFirst, OwnStyles;
    SpanIndexed(e1.tree.boxes, x, a1, lo, hi);
    CloseAround(e1, e2, f, a1, a2, SwitchOf(e1, x, a1.fragments, lo, hi));
    ClosedChildren(e1, f, a1);
    SwitchKept(e1, x, a1, CloseFrame(e1, f, a1).arena, lo, hi);
    SpanKept(e1.tree.boxes, x, a1, CloseFrame(e1, f, a1).arena, lo, hi);
  }

  /** A subtree that holds `x` differs exactly in the stretch of `x`'s own subtree, and exactly by the offset. */
  lemma {:induction false} BoxMoved(e1: Env, e2: Env, x: BoxId, id: BoxId, p: ChildPlacement, a1: Arena, a2: Arena)
    returns (lo: nat, hi: nat)
    requires SameButPosition(e1, e2, x) && e1.tree.boxes[x].style.position.Static?
             && e2.tree.boxes[x].style.position.Relative?
    requires id < |e1.tree.boxes| && Above(e1.tree.boxes, x, id) && ResolvedAt(e1, id, p)
             && InBlockFlow(e1.tree.boxes, x)
    requires Moved(a1, a2, Nothing(e1.tree.boxes[x].style)) && Indexed(a1) && Packed(a1.fragments)
    requires BoxExact(e1, id, p, a1) && BoxExact(e2, id, p, a2)
    ensures var r1, r2 := LayBox(e1, id, p, a1), LayBox(e2, id, p, a2);
            && |a1.fragments| <= lo < hi <= |r1.arena.fragments|
            && Moved(r1.arena, r2.arena, SwitchOf(e1, x, r1.arena.fragments, lo, hi))
            && r1.id == r2.id && r1.height == r2.height && Span(e1.tree.boxes, x, r1.arena, lo, hi)
    decreases id, 1, 0
  {
    hide UniqueParents, Homogeneous, Moved, OpenFrame, CloseFrame, LayLeaf, Span, Indexed, ModelOf, ContainingBlock,
         SwitchOffset,
         LeafExact, FrameExact, PassesThrough, InBlockFlow, Packed, ChildrenFirst, SwitchOf;
    var m := Nothing(e1.tree.boxes[x].style);
    MovedLength(a1, a2, m);
    if id == x {
      HereMoved(e1, e2, x, p, a1, a2);
      OwnSpan(e1, x, p, a1);
      SpanIndexed(e1.tree.boxes, x, LayBox(e1, x, p, a1).arena, |a1.fragments|, |LayBox(e1, x, p, a1).arena.fragments|);
      lo, hi := |a1.fragments|, |LayBox(e1, x, p, a1).arena.fragments|;
    } else {
      var box := e1.tree.boxes[id];
      var k := BranchBelow(e1.tree.boxes, x, id);
      BranchIsBlock(e1, x, id, k);
      var f := OpenFrame(box, p, |a1.fragments|);
      Opened(box, p, |a1.fragments|);
      lo, hi := ChildrenMoved(e1, e2, x, id, f, a1, a2, k);
      var d1, d2 := LayChildren(e1, id, f, a1), LayChildren(e2, id, f, a2);
      BoxChildrenFirst(e1, id, p, a1);
      CloseSpan(e1, e2, x, d1.frame, d1.arena, d2.arena, lo, hi);
    }
  }

  lemma SpanIndexed(boxes: seq<LayoutBox>, x: BoxId, a: Arena, lo: nat, hi: nat)
    requires ChildrenBelow(boxes) && x < |boxes| && Span(boxes, x, a, lo, hi)
    ensures Indexed(a) && lo < hi <= |a.fragments| && ChildrenFirst(a.fragments)
  {
  }

  /** The children after the one that holds `x` neither move nor disturb its stretch. */
  lemma RestMoved(e1: Env, e2: Env, x: BoxId, id: BoxId, g: Frame, b1: Arena, b2: Arena, lo: nat, hi: nat)
    requires SameButPosition(e1, e2, x) && id < |e1.tree.boxes| && g.blockChildren == e1.tree.boxes[id].children
    requires forall j :: g.nextChild <= j < |g.blockChildren| ==> !Above(e1.tree.boxes, x, g.blockChildren[j])
    requires lo < hi <= |b1.fragments| && Span(e1.tree.boxes, x, b1, lo, hi)
    requires Moved(b1, b2, SwitchOf(e1, x, b1.fragments, lo, hi))
    ensures var r1, r2 := LayChildren(e1, id, g, b1), LayChildren(e2, id, g, b2);
            && hi <= |r1.arena.fragments|
            && Moved(r1.arena, r2.arena, SwitchOf(e1, x, r1.arena.fragments, lo, hi)) && r2.frame == r1.frame
            && r1.frame.fragStart == g.fragStart && r1.frame.style == g.style
            && Span(e1.tree.boxes, x, r1.arena, lo, hi)
  {
    hide UniqueParents, Homogeneous, Moved, LayChildren, Above, Span, Indexed, SwitchOf, ChildrenFirst;
    SpanIndexed(e1.tree.boxes, x, b1, lo, hi);
    SwitchStretch(e1, x, b1.fragments, lo, hi);
    ChildrenStill(e1, e2, x, id, g, g, b1, b2, SwitchOf(e1, x, b1.fragments, lo, hi));
    ChildrenKeepShape(e1, id, g, b1);
    SwitchKept(e1, x, b1, LayChildren(e1, id, g, b1).arena, lo, hi);
    SpanKept(e1.tree.boxes, x, b1, LayChildren(e1, id, g, b1).arena, lo, hi);
  }

  lemma {:induction false} ChildrenMoved(e1: Env, e2: Env, x: BoxId, id: BoxId, f: Frame, a1: Arena, a2: Arena, k: nat)
    returns (lo: nat, hi: nat)
    requires SameButPosition(e1, e2, x) && e1.tree.boxes[x].style.position.Static?
             && e2.tree.boxes[x].style.position.Relative?
    requires id < |e1.tree.boxes| && f.blockChildren == e1.tree.boxes[id].children && f.place.model == ModelOf(e1, id)
    requires f.nextChild <= k < |f.blockChildren| && Above(e1.tree.boxes, x, f.blockChildren[k])
             && InBlockFlow(e1.tree.boxes, x)
    requires Moved(a1, a2, Nothing(e1.tree.boxes[x].style)) && Indexed(a1) && Packed(a1.fragments)
    requires ChildrenExact(e1, id, f, a1) && ChildrenExact(e2, id, f, a2)
    ensures var r1, r2 := LayChildren(e1, id, f, a1), LayChildren(e2, id, f, a2);
            && |a1.fragments| <= lo < hi <= |r1.arena.fragments|
            && Moved(r1.arena, r2.arena, SwitchOf(e1, x, r1.arena.fragments, lo, hi)) && r2.frame == r1.frame
            && r1.frame.fragStart == f.fragStart && r1.frame.style == f.style
            && Span(e1.tree.boxes, x, r1.arena, lo, hi)
    decreases id, 0, |f.blockChildren| - f.nextChild
  {
    hide UniqueParents, Homogeneous, Moved, PlaceChild, LayBox, BoxExact, Above;
    hide InBlockFlow, Receive, Span, Indexed, ModelOf, ContainingBlock, SwitchOffset, Packed, ChildrenFirst, SwitchOf;
    var m := Nothing(e1.tree.boxes[x].style);
    var c := f.blockChildren[f.nextChild];
    var p := PlaceChild(e1, f, c);
    SamePlacement(e1, e2, x, f, f, c);
    var l1, l2 := LayBox(e1, c, p, a1), LayBox(e2, c, p, a2);
    MovedLength(a1, a2, m);
    if f.nextChild == k {
      PlacedAsResolved(e1, id, f);
      lo, hi := BoxMoved(e1, e2, x, c, p, a1, a2);
      SpanIndexed(e1.tree.boxes, x, l1.arena, lo, hi);
      Received(f, p, l1, f.style);
      ReceiveIgnoresArena(f, p, l1, l2);
      var g := Receive(f.(nextChild := f.nextChild + 1), p, l1);
      OtherBranches(e1, x, id, k);
      RestMoved(e1, e2, x, id, g, l1.arena, l2.arena, lo, hi);
    } else {
      OtherBranches(e1, x, id, k);
      BoxStill(e1, e2, x, c, p, a1, a2, m);
      BoxIndexed(e1, c, p, a1);
      Received(f, p, l1, f.style);
      ReceiveIgnoresArena(f, p, l1, l2);
      var g := Receive(f.(nextChild := f.nextChild + 1), p, l1);
      lo, hi := ChildrenMoved(e1, e2, x, id, g, l1.arena, l2.arena, k);
    }
  }

  lemma BoxIndexed(env: Env, id: BoxId, p: ChildPlacement, a: Arena)
    requires WellFormed(env.tree) && id < |env.tree.boxes| && Indexed(a) && Packed(a.fragments)
    ensures Indexed(LayBox(env, id, p, a).arena) && Packed(LayBox(env, id, p, a).arena.fragments)
  {
    hide LayBox, Packed, Low, Mirrors, PostOrder, WellFormed;
    BoxShape(env, id, p, a);
    BoxGrows(env, id, p, a);
    GrowsFacts(a.fragments, LayBox(env, id, p, a).arena.fragments);
  }

  lemma BoxChildrenFirst(env: Env, id: BoxId, p: ChildPlacement, a: Arena)
    requires WellFormed(env.tree) && id < |env.tree.boxes| && Packed(a.fragments)
    ensures ChildrenFirst(LayBox(env, id, p, a).arena.fragments)
  {
    hide LayBox, Packed, Low, WellFormed, ChildrenFirst;
    BoxGrows(env, id, p, a);
    GrowsFacts(a.fragments, LayBox(env, id, p, a).arena.fragments);
  }

  lemma SwitchStretch(env: Env, x: BoxId, fragments: seq<Fragment>, lo: nat, hi: nat)
    requires WellFormed(env.tree) && x < |env.tree.boxes| && lo < hi <= |fragments|
    ensures var m := SwitchOf(env, x, fragments, lo, hi); m.lo == lo && m.hi == hi
  {
  }

  lemma OtherBranches(env: Env, x: BoxId, id: BoxId, k: nat)
    requires WellFormed(env.tree) && x < |env.tree.boxes| && id < |env.tree.boxes| && k < |env.tree.boxes[id].children|
    requires Above(env.tree.boxes, x, env.tree.boxes[id].children[k])
    ensures forall j :: 0 <= j < |env.tree.boxes[id].children| && j != k ==>
              !Above(env.tree.boxes, x, env.tree.boxes[id].children[j])
  {
    forall j | 0 <= j < |env.tree.boxes[id].children| && Above(env.tree.boxes, x, env.tree.boxes[id].children[j])
      ensures j == k
    {
      OneBranch(env.tree.boxes, id, j, k, x);
    }
  }

  lemma PlacedAsResolved(env: Env, id: BoxId, f: Frame)
    requires WellFormed(env.tree) && id < |env.tree.boxes| && f.blockChildren == env.tree.boxes[id].children
    requires f.place.model == ModelOf(env, id) && f.nextChild < |f.blockChildren|
    ensures ResolvedAt(env, f.blockChildren[f.nextChild], PlaceChild(env, f, f.blockChildren[f.nextChild]))
  {
    hide ResolveBoxModel, EffectiveMargin, Homogeneous;
    var c := f.blockChildren[f.nextChild];
    ParentOfChild(env.tree.boxes, id, f.nextChild);
    var m := ModelOf(env, id);
    assert ContainingBlock(env, c) == (m.contentWidth, m.knownHeight);
    assert ModelOf(env, c) == ResolveBoxModel(env.pct, env.tree.boxes[c].style, m.contentWidth, m.knownHeight);
  }

  /** No relative shift of the whole layout saturates. */
  ghost predicate ShiftsFit(env: Env)
    requires WellFormed(env.tree)
  {
    var root := env.tree.root;
    if IsBlockContainer(env.tree.boxes, root) then
      var done := LayChildren(env, root, RootFrame(env), EMPTY_ARENA);
      ChildrenExact(env, root, RootFrame(env), EMPTY_ARENA) && FrameExact(env, done.frame, done.arena)
    else
      LeafExact(env, env.tree.boxes[root], RootPlacement(env), EMPTY_ARENA)
  }

  lemma RootOpened(env: Env)
    requires WellFormed(env.tree)
    ensures var f := RootFrame(env);
            var root := env.tree.root;
            && f.blockChildren == env.tree.boxes[root].children && f.nextChild == 0 && f.fragStart == 0
            && f.style == env.tree.boxes[root].style && f.place == RootPlacement(env) && ResolvedAt(env, root, f.place)
  {
    hide ResolveBoxModel, PassesThrough, ContentOrigin;
    assert Parent(env.tree.boxes, env.tree.root).None?;
    assert ContainingBlock(env, env.tree.root) == (env.viewport.w, Some(env.viewport.h));
    assert ModelOf(env, env.tree.root) == RootPlacement(env).model;
  }

  lemma SameRoot(e1: Env, e2: Env, x: BoxId)
    requires SameButPosition(e1, e2, x)
    requires e1.tree.root == e2.tree.root
    ensures RootPlacement(e1) == RootPlacement(e2)
    ensures RootFrame(e2) == RootFrame(e1).(style := e2.tree.boxes[e2.tree.root].style)
  {
    hide ResolveBoxModel, ContentOrigin;
    var root := e1.tree.root;
    ModelIgnoresPosition(e1.pct, e1.tree.boxes[root].style, e2.tree.boxes[root].style.position,
                         e1.viewport.w, Some(e1.viewport.h));
  }

  lemma RootMoved(e1: Env, e2: Env)
    requires SameButPosition(e1, e2, e1.tree.root) && e1.tree.root == e2.tree.root
    requires e1.tree.boxes[e1.tree.root].style.position.Static? && e2.tree.boxes[e1.tree.root].style.position.Relative?
    requires ShiftsFit(e2)
    ensures var r1, r2 := LayRoot(e1), LayRoot(e2);
            var hi := |r1.arena.fragments|;
            && hi > 0 && Moved(r1.arena, r2.arena, SwitchOf(e1, e1.tree.root, r1.arena.fragments, 0, hi))
            && Span(e1.tree.boxes, e1.tree.root, r1.arena, 0, hi)
  {
    hide WellFormed, LayRoot, Moved, Span, SwitchOf;
    SwitchedFacts(e1, e2, e1.tree.root);
    RootSpan(e1);
    RootSwitch(e1, e2);
  }

  lemma RootSpan(env: Env)
    requires WellFormed(env.tree)
    ensures var a := LayRoot(env).arena; |a.fragments| > 0 && Span(env.tree.boxes, env.tree.root, a, 0, |a.fragments|)
  {
    hide UniqueParents, Homogeneous, LayRoot, Mirrors, PostOrder, LabelAt, Packed, IsStretch;
    LayoutShape(env);
    LayoutPacked(env);
  }

  lemma RootSwitch(e1: Env, e2: Env)
    requires SameButPosition(e1, e2, e1.tree.root) && e1.tree.root == e2.tree.root
    requires e1.tree.boxes[e1.tree.root].style.position.Static? && e2.tree.boxes[e1.tree.root].style.position.Relative?
    requires ShiftsFit(e2)
    ensures var r1, r2 := LayRoot(e1), LayRoot(e2);
            var hi := |r1.arena.fragments|;
            hi > 0 && Moved(r1.arena, r2.arena, SwitchOf(e1, e1.tree.root, r1.arena.fragments, 0, hi))
  {
    hide UniqueParents, Homogeneous, Moved, RootFrame, RootPlacement, CloseFrame, LayLeaf, Above, ModelOf,
         ContainingBlock,
         LeafExact, FrameExact;
    var x := e1.tree.root;
    var m := Nothing(e1.tree.boxes[x].style);
    RootOpened(e1);
    SameRoot(e1, e2, x);
    NoneMoved(m.was);
    if IsBlockContainer(e1.tree.boxes, x) {
      var f1, f2 := RootFrame(e1), RootFrame(e2);
      forall k | 0 <= k < |f1.blockChildren| ensures !Above(e1.tree.boxes, x, f1.blockChildren[k]) {
        if Above(e1.tree.boxes, x, f1.blockChildren[k]) {
          AboveIsLater(e1.tree.boxes, x, f1.blockChildren[k]);
        }
      }
      ChildrenStill(e1, e2, x, x, f1, f2, EMPTY_ARENA, EMPTY_ARENA, m);
      var d1, d2 := LayChildren(e1, x, f1, EMPTY_ARENA), LayChildren(e2, x, f2, EMPTY_ARENA);
      CloseHere(e1, e2, d1.frame, d2.frame, d1.arena, d2.arena);
    } else {
      LeafHere(e1, e2, e1.tree.boxes[x], e2.tree.boxes[x], RootPlacement(e1), EMPTY_ARENA, EMPTY_ARENA);
    }
  }

  lemma SwitchedFacts(e1: Env, e2: Env, x: BoxId)
    requires SameButPosition(e1, e2, x)
    ensures WellFormed(e1.tree) && WellFormed(e2.tree) && x < |e1.tree.boxes| == |e2.tree.boxes| && e1.pct == e2.pct
    ensures forall b :: 0 <= b < |e1.tree.boxes| ==> e1.tree.boxes[b].children == e2.tree.boxes[b].children
    ensures forall b :: 0 <= b < |e1.tree.boxes| ==> e1.tree.boxes[b].kind == e2.tree.boxes[b].kind
    ensures forall b :: 0 <= b < |e1.tree.boxes| && b != x ==> e1.tree.boxes[b] == e2.tree.boxes[b]
  {
  }

  lemma NoneMoved(was: LayoutStyle)
    ensures Moved(EMPTY_ARENA, EMPTY_ARENA, Nothing(was)) && Indexed(EMPTY_ARENA) && Packed(EMPTY_ARENA.fragments)
  {
  }

  /**
   * Switching `x` from static to relative changes the layout in exactly one way: one
   * stretch of the arena, the fragments at and below `x`'s own and no others, has
   * every rect moved by the offset, and the fragments that carry `x`'s style are now
   * relative. Holds when no relative shift saturates.
   */
  lemma RelativePositioningIsLocal(env: Env, x: BoxId) returns (lo: nat, hi: nat)
    requires WellFormed(env.tree) && x < |env.tree.boxes| && env.tree.boxes[x].style.position.Static?
    requires InBlockFlow(env.tree.boxes, x) && Above(env.tree.boxes, x, env.tree.root)
    requires ShiftsFit(env) && ShiftsFit(Switched(env, x, Relative))
    ensures var a := LayRoot(env).arena;
            && lo < hi <= |a.fragments| && Span(env.tree.boxes, x, a, lo, hi)
            && ChildrenFirst(a.fragments) && IsStretch(a.fragments, hi - 1, lo)
            && Moved(a, LayRoot(Switched(env, x, Relative)).arena, SwitchOf(env, x, a.fragments, lo, hi))
  {
    hide UniqueParents, Homogeneous, Moved, RootFrame, CloseFrame, LayLeaf, ModelOf, ContainingBlock, SameButPosition,
         LeafExact, FrameExact, Span, LayChildren, ChildrenExact, SwitchOffset, Above, InBlockFlow, Indexed, Packed,
             Low,
         IsStretch, SwitchOf, ChildrenFirst;
    var e2 := Switched(env, x, Relative);
    SwitchedFacts(env, e2, x);
    LayoutPacked(env);
    if x == env.tree.root {
      lo, hi := 0, |LayRoot(env).arena.fragments|;
      RootMoved(env, e2);
    } else {
      var root := env.tree.root;
      var k := BranchBelow(env.tree.boxes, x, root);
      BranchIsBlock(env, x, root, k);
      RootOpened(env);
      SameRoot(env, e2, x);
      NoneMoved(env.tree.boxes[x].style);
      var f := RootFrame(env);
      lo, hi := ChildrenMoved(env, e2, x, root, f, EMPTY_ARENA, EMPTY_ARENA, k);
      assert LayRoot(env) == CloseFrame(env, LayChildren(env, root, f, EMPTY_ARENA).frame,
                                        LayChildren(env, root, f, EMPTY_ARENA).arena);
      CloseSpan(env, e2, x, LayChildren(env, root, f, EMPTY_ARENA).frame, LayChildren(env, root, f, EMPTY_ARENA).arena,
                LayChildren(e2, root, f, EMPTY_ARENA).arena, lo, hi);
    }
    SpanReached(env.tree.boxes, x, LayRoot(env).arena, lo, hi);
  }

  lemma SpanReached(boxes: seq<LayoutBox>, x: BoxId, a: Arena, lo: nat, hi: nat)
    requires ChildrenBelow(boxes) && x < |boxes| && Span(boxes, x, a, lo, hi) && Packed(a.fragments)
    ensures lo < hi <= |a.fragments| && ChildrenFirst(a.fragments) && IsStretch(a.fragments, hi - 1, lo)
  {
    hide Packed, Low, IsStretch, Mirrors, Outline, PostOrder;
    SubtreesAreStretches(a.fragments, hi - 1);
  }
}
