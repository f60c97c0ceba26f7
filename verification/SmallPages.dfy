/** The two smallest pages, laid out: a block with nothing in it, and a block with one run of text. */
module SmallPages {
  import opened AppUnits
  import opened Geometry
  import opened Styles
  import opened Wrappers
  import opened BoxTrees
  import opened BoxModels
  import opened LayoutContext
  import opened Fragments
  import opened BlockFlow

  function OneBox(style: LayoutStyle): BoxTree {
    BoxTree([LayoutBox(Some(1), BoxKind.Block, style, [])], 0)
  }

  const CLIPPING := INITIAL.(display := Display.Block, overflow := Hidden)

  /** The border box of an unshifted root without children. */
  function OwnBox(env: Env): Rect
    requires env.tree.root < |env.tree.boxes|
  {
    var p := RootPlacement(env);
    Rect(p.origin, BorderBoxSize(p.model.contentWidth, LeafHeight(p, 0), p.model.padding, p.model.border))
  }

  lemma OneBoxLaid(env: Env, style: LayoutStyle)
    requires env.tree == OneBox(style) && style.position.Static?
    ensures WellFormed(env.tree)
    ensures var r := LayRoot(env);
            && r.id == 0 && |r.arena.fragments| == 1 && r.arena.styles == [style]
            && r.arena.fragments[0].borderBox == OwnBox(env) && r.arena.fragments[0].kind.Block?
            && r.arena.fragments[0].node == Some(1) && r.arena.fragments[0].style == 0
               && r.arena.fragments[0].children == []
  {
    hide RootPlacement, BorderBoxSize, Inset, LeafHeight, ResolveOffset;
    assert HomogeneousAt(env.tree.boxes, 0);
    assert LayRoot(env) == LayLeaf(env, env.tree.boxes[0], RootPlacement(env), EMPTY_ARENA);
  }

  function OneRun(style: LayoutStyle): BoxTree {
    BoxTree([LayoutBox(Some(2), InlineText(2), INITIAL, []), LayoutBox(Some(1), BoxKind.Block, style, [0])], 1)
  }

  /** One line of the given height and baseline, with one run in it. */
  function RunLine(run: GlyphRun, height: Au, baseline: Au): LineBox {
    LineBox(height, baseline, [TextPiece(Some(TextSource(2, INITIAL)), [run])])
  }

  lemma OneLine(a: Arena, run: GlyphRun, height: Au, baseline: Au, origin: Point, width: Au, style: LayoutStyle)
    requires a == EMPTY_ARENA
    ensures var r := WithLines(a, [RunLine(run, height, baseline)], origin, width, style, 1);
            && |r.arena.fragments| == 2 && r.arena.styles == [INITIAL, style]
            && r.arena.fragments[0].kind == Text([Translate(run, origin.x, SatAdd(SatAdd(origin.y, 0), baseline))])
            && r.arena.fragments[0].borderBox.origin == Point(SatAdd(origin.x, run.origin.x), SatAdd(origin.y, 0))
            && r.arena.fragments[0].style == 0 && r.arena.fragments[0].children == []
            && r.arena.fragments[1].kind.Line? && r.arena.fragments[1].style == 1
            && r.arena.fragments[1].children == [0] && r.ids == [1]
  {
    hide RunsWidth;
    var line := RunLine(run, height, baseline);
    var top := SatAdd(origin.y, 0);
    assert WithLines(a, [line], origin, width, style, 0) == Lines(a, [], 0);
    assert WithPieces(a, line, origin, top, style, 0) == a;
    assert TranslateAll([run], origin.x, SatAdd(top, baseline)) == [Translate(run, origin.x, SatAdd(top, baseline))];
    assert WithPieces(a, line, origin, top, style, 1).fragments[0].kind
           == Text([Translate(run, origin.x, SatAdd(top, baseline))]);
  }

  lemma OneRunIsWellFormed(style: LayoutStyle)
    ensures WellFormed(OneRun(style)) && !IsBlockContainer(OneRun(style).boxes, 1)
  {
    assert HomogeneousAt(OneRun(style).boxes, 0) && HomogeneousAt(OneRun(style).boxes, 1);
  }

  /** Closing a box over one text and one line: three fragments, all moved if the box is relative. */
  lemma OneRunClosed(env: Env, box: LayoutBox, p: ChildPlacement, content: Lines)
    requires |content.arena.fragments| == 2 && |content.arena.styles| == 2 && content.ids == [1] && box.kind.Block?
    ensures var r := CloseBox(env, box.node, false, box.style, p, LeafHeight(p, content.height), 0, content.ids,
                              content.arena);
            var d := ResolveOffset(env.pct, box.style, p.cbWidth, p.cbHeight);
            var before, after := content.arena.fragments, r.arena.fragments;
            && r.id == 2 && |after| == 3 && r.arena.styles == content.arena.styles + [box.style]
            && (forall i :: 0 <= i < 2 ==>
                  after[i] == if box.style.position.Relative? then ShiftFragment(before[i], d) else before[i])
            && after[2].kind.Block? && after[2].style == 2 && after[2].children == [1]
  {
    hide LeafHeight, ResolveOffset, Inset, BorderBoxSize;
  }

  lemma OneRunLaid(env: Env, style: LayoutStyle, run: GlyphRun, height: Au, baseline: Au)
    requires env.tree == OneRun(style)
    requires env.shape([0], InheritedTextStyle(style), RootPlacement(env).model.contentWidth)
             == Ok([RunLine(run, height, baseline)])
    ensures WellFormed(env.tree)
    ensures var r := LayRoot(env);
            var p := RootPlacement(env);
            var at := ContentOrigin(p.origin, p.model);
            var d := if style.position.Relative? then ResolveOffset(env.pct, style, p.cbWidth, p.cbHeight) else ORIGIN;
            && r.id == 2 && |r.arena.fragments| == 3 && r.arena.styles == [INITIAL, style, style]
            && r.arena.fragments[0].kind == Text([Translate(run, at.x, SatAdd(SatAdd(at.y, 0), baseline))])
            && r.arena.fragments[0].borderBox.origin
               == Point(SatAdd(SatAdd(at.x, run.origin.x), d.x), SatAdd(SatAdd(at.y, 0), d.y))
            && r.arena.fragments[0].style == 0 && r.arena.fragments[0].children == []
            && r.arena.fragments[1].kind.Line? && r.arena.fragments[1].style == 1
               && r.arena.fragments[1].children == [0]
            && r.arena.fragments[2].kind.Block? && r.arena.fragments[2].style == 2
               && r.arena.fragments[2].children == [1]
  {
    hide RootPlacement, WithLines, ContentOrigin, ResolveOffset, LeafHeight, Translate, CloseBox;
    hide WellFormed;
    OneRunIsWellFormed(style);
    var p := RootPlacement(env);
    OneLine(EMPTY_ARENA, run, height, baseline, ContentOrigin(p.origin, p.model), p.model.contentWidth, style);
    assert LayRoot(env) == LayLeaf(env, env.tree.boxes[1], p, EMPTY_ARENA);
    OneRunClosed(env, env.tree.boxes[1], p, LeafContent(env, env.tree.boxes[1], p, EMPTY_ARENA));
  }
}
