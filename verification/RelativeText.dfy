/**
 * Relative positioning and text. CSS 2.1 section 9.4.3 moves a relatively positioned
 * box with its text; layout moves the text's rects and leaves its glyph runs, whose
 * origins painting uses, where they were.
 */
module RelativeText {
  import opened Geometry
  import opened Styles
  import opened Wrappers
  import opened BoxTrees
  import opened BoxModels
  import opened LayoutContext
  import opened Fragments
  import opened BlockFlow
  import opened FragmentOrder
  import opened RelativePosition
  import opened SmallPages

  function Runs(f: Fragment): seq<GlyphRun> {
    if f.kind.Text? then f.kind.runs else []
  }

  predicate RunMoved(r1: GlyphRun, r2: GlyphRun, d: Point) {
    r2 == r1.(origin := r2.origin) && r2.origin.x == r1.origin.x + d.x && r2.origin.y == r1.origin.y + d.y
  }

  /** Every run of `[lo, hi)` ends up `d` away from where it was. */
  ghost predicate TextFollows(a1: Arena, a2: Arena, lo: nat, hi: nat, d: Point)
    requires |a1.fragments| == |a2.fragments|
  {
    forall i :: lo <= i < hi && i < |a1.fragments| ==>
      && |Runs(a2.fragments[i])| == |Runs(a1.fragments[i])|
      && forall k :: 0 <= k < |Runs(a1.fragments[i])| ==>
         RunMoved(Runs(a1.fragments[i])[k], Runs(a2.fragments[i])[k], d)
  }

  ghost predicate NoText(a: Arena, lo: nat, hi: nat) {
    forall i :: lo <= i < hi && i < |a.fragments| ==> Runs(a.fragments[i]) == []
  }

  /**
   * Text follows its relatively positioned box exactly when the offset is nothing or
   * the box's subtree `[lo, hi)` has no text: every run stays where it was.
   */
  lemma TextStaysBehind(env: Env, x: BoxId) returns (lo: nat, hi: nat)
    requires WellFormed(env.tree) && x < |env.tree.boxes| && env.tree.boxes[x].style.position.Static?
    requires InBlockFlow(env.tree.boxes, x) && Above(env.tree.boxes, x, env.tree.root)
    requires ShiftsFit(env) && ShiftsFit(Switched(env, x, Relative))
    ensures var a1, a2 := LayRoot(env).arena, LayRoot(Switched(env, x, Relative)).arena;
            && |a1.fragments| == |a2.fragments| && lo < hi <= |a1.fragments|
            && Span(env.tree.boxes, x, a1, lo, hi) && ChildrenFirst(a1.fragments) && IsStretch(a1.fragments, hi - 1, lo)
            && (forall i :: 0 <= i < |a1.fragments| ==> Runs(a2.fragments[i]) == Runs(a1.fragments[i]))
            && (TextFollows(a1, a2, lo, hi, SwitchOffset(env, x)) <==>
                  SwitchOffset(env, x) == ORIGIN || NoText(a1, lo, hi))
  {
    hide WellFormed, LayRoot, Span, SwitchOffset, InBlockFlow, Above, ShiftsFit, IsStretch, ChildrenFirst, OwnStyles;
    lo, hi := RelativePositioningIsLocal(env, x);
    var a1, a2 := LayRoot(env).arena, LayRoot(Switched(env, x, Relative)).arena;
    RunsKept(a1, a2, SwitchOf(env, x, a1.fragments, lo, hi));
    SameRunsFollow(a1, a2, lo, hi, SwitchOffset(env, x));
  }

  lemma RunsKept(a1: Arena, a2: Arena, m: Change)
    requires Moved(a1, a2, m)
    ensures |a1.fragments| == |a2.fragments|
    ensures forall i :: 0 <= i < |a1.fragments| ==> Runs(a2.fragments[i]) == Runs(a1.fragments[i])
  {
    forall i | 0 <= i < |a1.fragments| ensures Runs(a2.fragments[i]) == Runs(a1.fragments[i]) {
      if m.lo <= i < m.hi {
        assert FragmentMoved(a1.fragments[i], a2.fragments[i], m.d.x, m.d.y);
      }
    }
  }

  lemma SameRunsFollow(a1: Arena, a2: Arena, lo: nat, hi: nat, d: Point)
    requires |a1.fragments| == |a2.fragments|
    requires forall i :: 0 <= i < |a1.fragments| ==> Runs(a2.fragments[i]) == Runs(a1.fragments[i])
    ensures TextFollows(a1, a2, lo, hi, d) <==> d == ORIGIN || NoText(a1, lo, hi)
  {
    if TextFollows(a1, a2, lo, hi, d) && !NoText(a1, lo, hi) {
      var i :| lo <= i < hi && i < |a1.fragments| && Runs(a1.fragments[i]) != [];
      assert RunMoved(Runs(a1.fragments[i])[0], Runs(a2.fragments[i])[0], d);
    }
  }

  // ----- a page whose text is left behind -----

  const SHIFTED := INITIAL.(display := Display.Block, offset := Sides(Auto, Auto, Auto, Px(600)))

  const WORD := GlyphRun(0, 960, BLACK, ORIGIN, [Glyph(1, 0, 0, 500)])

  /** A page of one block with one word in it, ten pixels to the right when it is relative. */
  function OneWord(position: Position): Env {
    Env(OneRun(SHIFTED.(position := position)), Size(48000, 36000), (against, points) => 0,
        (ids, style, width) => Ok([RunLine(WORD, 1080, 840)]))
  }

  lemma WordBox(position: Position)
    ensures var p := RootPlacement(OneWord(position));
            && p.origin == ORIGIN && ContentOrigin(p.origin, p.model) == ORIGIN
            && ResolveOffset(OneWord(position).pct, SHIFTED.(position := position), p.cbWidth, p.cbHeight)
               == Point(600, 0)
  {
  }

  lemma WordOffset()
    requires WellFormed(OneWord(Static).tree)
    ensures SwitchOffset(OneWord(Static), 1) == Point(600, 0)
  {
    assert Parent(OneWord(Static).tree.boxes, 1).None?;
  }

  /** On that page the word's rect moves ten pixels and the word itself does not. */
  lemma WordIsLeftBehind()
    ensures var env := OneWord(Static);
            && WellFormed(env.tree) && Switched(env, 1, Relative).tree == OneWord(Relative).tree
            && SwitchOffset(env, 1) == Point(600, 0)
            && var a1, a2 := LayRoot(env).arena, LayRoot(Switched(env, 1, Relative)).arena;
               && |a1.fragments| == |a2.fragments| == 3
               && a1.fragments[0].borderBox.origin == ORIGIN && a2.fragments[0].borderBox.origin == Point(600, 0)
               && a1.fragments[0].kind == a2.fragments[0].kind == Text([WORD.(origin := Point(0, 840))])
  {
    hide LayRoot, WellFormed, RootPlacement, ContentOrigin, ResolveOffset;
    OneRunLaid(OneWord(Static), SHIFTED, WORD, 1080, 840);
    OneRunLaid(OneWord(Relative), SHIFTED.(position := Relative), WORD, 1080, 840);
    WordBox(Static);
    WordBox(Relative);
    var env := OneWord(Static);
    assert Switched(env, 1, Relative).tree.boxes == OneWord(Relative).tree.boxes;
    WordOffset();
  }
}
