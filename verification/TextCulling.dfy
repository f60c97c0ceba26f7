/**
 * What culling loses of the text: a run is dropped by its origin alone, and its
 * glyphs may reach the viewport from far outside it.
 */
module TextCulling {
  import opened Geometry
  import opened Styles
  import opened Wrappers
  import opened BoxTrees
  import opened BoxModels
  import opened LayoutContext
  import opened Fragments
  import opened BlockFlow
  import opened FragmentOrder
  import opened DisplayLists
  import opened PaintBuild
  import opened PaintOrder
  import opened PaintLayout
  import opened Raster
  import opened Blit
  import opened GlyphMarks
  import opened CullingLimits
  import opened SmallPages

  // ----- one run and the canvas -----

  const CLEAR := Pixel(0, 0, 0, 0)

  function Blank(n: nat): (r: seq<Pixel>)
    ensures |r| == n && forall i :: 0 <= i < n ==> r[i] == CLEAR
  {
    seq(n, i => CLEAR)
  }

  /** The run has a visible glyph on some pixel of an `n`-pixel canvas, wholly inside the clip. */
  predicate Seen(run: GlyphRun, clip: Rect, render: Render, width: nat, n: nat)
    requires width > 0
  {
    exists i :: 0 <= i < n && WhollyInside(clip, i % width, i / width)
        && RunDabs(run, render, i % width, i / width) != []
  }

  /**
   * Dropping a run changes no canvas exactly when no glyph of it covers a pixel; where
   * its origin lies, which is all that culling looks at, plays no part.
   */
  lemma DroppedUnseenExactly(run: GlyphRun, clip: Rect, render: Render, width: nat, n: nat)
    requires width > 0
    ensures (forall cells :: |cells| == n && AllPremultiplied(cells) ==>
               RunPainted(cells, width, run, clip, render) == cells)
            <==> !Seen(run, clip, render, width, n)
  {
    hide RunPainted, RunDabs, WhollyInside;
    if Seen(run, clip, render, width, n) {
      var i :| 0 <= i < n && WhollyInside(clip, i % width, i / width)
               && RunDabs(run, render, i % width, i / width) != [];
      RunIsDabs(Blank(n), width, run, clip, render, i);
      RunDabsShow(run, render, i % width, i / width);
      DabbedShows(CLEAR, RunDabs(run, render, i % width, i / width));
      assert AllPremultiplied(Blank(n));
      assert RunPainted(Blank(n), width, run, clip, render)[i] != Blank(n)[i];
    } else {
      forall cells | |cells| == n && AllPremultiplied(cells)
        ensures RunPainted(cells, width, run, clip, render) == cells
      {
        forall i | 0 <= i < n ensures RunPainted(cells, width, run, clip, render)[i] == cells[i] {
          RunIsDabs(cells, width, run, clip, render, i);
        }
      }
    }
  }

  lemma RunDabsShow(run: GlyphRun, render: Render, x: int, y: int)
    ensures AllShow(RunDabs(run, render, x, y))
  {
    hide GlyphDabs;
    GlyphDabsShow(run, render, x, y, |run.glyphs|);
  }

  // ----- a whole list and the canvas -----

  /** A canvas after the runs among the draws. */
  function TextPainted(cells: seq<Pixel>, width: nat, draws: seq<Draw>, render: Render): (r: seq<Pixel>)
    requires width > 0
    ensures |r| == |cells|
  {
    if draws == [] then cells
    else
      var before, last := TextPainted(cells, width, draws[..|draws| - 1], render), draws[|draws| - 1];
      if last.DrawRun? then RunPainted(before, width, last.run, last.clip, render) else before
  }

  lemma {:induction false} DabbedTwice(p: Pixel, a: seq<Dab>, b: seq<Dab>)
    ensures Dabbed(p, a + b) == Dabbed(Dabbed(p, a), b)
    decreases |b|
  {
    hide Blended;
    if b == [] {
      assert a + b == a;
    } else {
      DabbedTwice(p, a, b[..|b| - 1]);
      assert (a + b)[..|a + b| - 1] == a + b[..|b| - 1];
    }
  }

  /** What the text of a list leaves in a pixel is its blends there, in order: equal blends, equal pixels. */
  lemma {:induction false} TextIsDabs(cells: seq<Pixel>, width: nat, draws: seq<Draw>, render: Render, i: nat)
    requires 0 < width <= MAX_DIMENSION && i < |cells| && i / width < MAX_DIMENSION
    ensures TextPainted(cells, width, draws, render)[i]
            == Dabbed(cells[i], DrawnText(draws, render, i % width, i / width))
  {
    hide RunPainted, RunDabs, WhollyInside, Blended;
    if draws != [] {
      var before, last := draws[..|draws| - 1], draws[|draws| - 1];
      TextIsDabs(cells, width, before, render, i);
      var dabs := DrawnText(before, render, i % width, i / width);
      assert dabs + [] == dabs;
      if last.DrawRun? {
        RunIsDabs(TextPainted(cells, width, before, render), width, last.run, last.clip, render, i);
        DabbedTwice(cells[i], dabs, RunDabs(last.run, render, i % width, i / width));
      }
    }
  }

  // ----- a page that loses its text -----

  /** A line of text that starts five thousand pixels left of the viewport. */
  const LONG := INITIAL.(display := Display.Block, margin := Sides(Px(0), Px(0), Px(0), Px(-300000)))

  /** Five hundred and one letters ten pixels wide, one after another. */
  const LETTERS: seq<Glyph> := seq(501, i requires 0 <= i < 501 => Glyph(7, 600 * i, 0, 600))

  const LONG_RUN := GlyphRun(0, 960, BLACK, ORIGIN, LETTERS)

  const DRAWN := LONG_RUN.(origin := Point(-300000, 840))

  /** Every glyph is one opaque pixel, right at the pen. */
  const DOT: Render := key => GlyphBitmap(0, 0, 1, 1, [255])

  const LONG_LINE := Env(OneRun(LONG), Size(1200, 1200), (against, points) => 0,
                         (ids, style, width) => Ok([RunLine(LONG_RUN, 1080, 840)]))

  /** The line fits its box, so nothing breaks it. */
  lemma LongOrigin()
    ensures var p := RootPlacement(LONG_LINE);
            && ContentOrigin(p.origin, p.model) == Point(-300000, 0)
            && RunsWidth([LONG_RUN]) <= p.model.contentWidth
  {
    LettersEnd(0, 501);
  }

  lemma {:induction false} LettersEnd(k: nat, n: nat)
    requires k <= n <= 501 && n == 501
    ensures AdvanceFrom(600 * k, LETTERS[k..]) == 300600
    decreases n - k
  {
    if k < n {
      LettersEnd(k + 1, n);
      assert LETTERS[k..][1..] == LETTERS[k + 1..] && LETTERS[k..][0].advance == 600;
    }
  }

  lemma DotCoverage(run: GlyphRun, g: Glyph)
    requires run.origin.x + g.x == 0 && run.origin.y + g.y == 840
    ensures CoverageAt(run, g, DOT, 0, 14) == 255
  {
    assert RoundPx(0) == 0 && RoundPx(840) == 14;
    assert 0 * 1 + 0 == 0;
    assert GlyphBitmap(0, 0, 1, 1, [255]).Coverage(0, 0) == Some(255);
  }

  /** The last letter's pen is on the canvas. */
  lemma LastLetter()
    ensures |LETTERS| == 501 && CoverageAt(DRAWN, DRAWN.glyphs[500], DOT, 0, 14) == 255
  {
    hide CoverageAt;
    assert LETTERS[500] == Glyph(7, 300000, 0, 600);
    DotCoverage(DRAWN, LETTERS[500]);
  }

  lemma {:induction false} SomeDab(run: GlyphRun, render: Render, x: int, y: int, n: nat, k: nat)
    requires k < n <= |run.glyphs| && Mul255(CoverageAt(run, run.glyphs[k], render, x, y), run.color.a) > 0
    ensures GlyphDabs(run, render, x, y, n) != []
  {
    hide Mul255, CoverageAt;
    if k < n - 1 {
      SomeDab(run, render, x, y, n - 1, k);
    }
  }

  lemma LastLetterShows()
    ensures RunDabs(DRAWN, DOT, 0, 14) != [] && !Inflate(Rect(ORIGIN, Size(1200, 1200))).ContainsPoint(DRAWN.origin)
  {
    hide Mul255, CoverageAt, GlyphDabs;
    LastLetter();
    Mul255Ends(255);
    SomeDab(DRAWN, DOT, 0, 14, 501, 500);
  }

  /** Whatever the lens, the page's items are those of its only run. */
  lemma LongItems(tree: FragmentTree, run: GlyphRun, suppressed: Option<FragmentId>, lens: Lens)
    requires |tree.fragments| == 3 && tree.styles == [INITIAL, LONG, LONG] && ChildrenFirst(tree.fragments)
    requires tree.fragments[0].kind == Text([run]) && tree.fragments[0].style == 0 && tree.fragments[0].children == []
    requires tree.fragments[1].kind.Line? && tree.fragments[1].style == 1 && tree.fragments[1].children == [0]
    requires tree.fragments[2].kind.Block? && tree.fragments[2].style == 2 && tree.fragments[2].children == [1]
    ensures PaintTree(tree, suppressed, lens, 2) == RunItems([run], lens)
  {
    assert PaintTree(tree, suppressed, lens, 0) == RunItems([run], lens);
    assert PaintChildren(tree, suppressed, lens, 1, 0)
           == PaintTree(tree, suppressed, lens, 0) + PaintChildren(tree, suppressed, lens, 1, 1);
    assert PaintTree(tree, suppressed, lens, 1) == RunItems([run], lens);
    assert PaintChildren(tree, suppressed, lens, 2, 0)
           == PaintTree(tree, suppressed, lens, 1) + PaintChildren(tree, suppressed, lens, 2, 1);
  }

  lemma OnlyRun(run: GlyphRun, lens: Lens)
    requires run.glyphs != []
    ensures RunItems([run], lens) == if lens.ShowsPoint(run.origin) then [Glyphs(run)] else []
  {
    assert [run][..0] == [];
  }

  lemma NoCanvas(tree: FragmentTree, names: Names)
    requires tree.styles == [INITIAL, LONG, LONG]
    ensures CanvasBackground(tree, names) == Canvas(None, None)
  {
    hide FindFrom;
  }

  lemma LongDabs()
    ensures var draws := Drawn([Glyphs(DRAWN)], Rect(ORIGIN, Size(1200, 1200)));
            DrawnText(draws, DOT, 0, 14) == RunDabs(DRAWN, DOT, 0, 14) && DrawnText([], DOT, 0, 14) == []
    ensures Drawn([], Rect(ORIGIN, Size(1200, 1200))) == []
  {
    hide RunDabs;
    var draw := DrawRun(DRAWN, Rect(ORIGIN, Size(1200, 1200)));
    assert [Glyphs(DRAWN)][..0] == [];
    assert Drawn([Glyphs(DRAWN)], Rect(ORIGIN, Size(1200, 1200))) == [draw];
    assert [draw][..0] == [];
  }

  /** On that page the run is the only thing to paint, the built list is empty, and a pixel is missing. */
  lemma LongLineIsLost(names: Names)
    ensures WellFormed(LONG_LINE.tree)
    ensures var tree := Painted(LONG_LINE, LayRoot(LONG_LINE));
            && Items(tree, names, Everything) == [Glyphs(DRAWN)] && BuiltItems(tree, names) == []
            && DrawnText(Drawn(Items(tree, names, Everything), tree.Bounds()), DOT, 0, 14) != []
            && DrawnText(Drawn(BuiltItems(tree, names), tree.Bounds()), DOT, 0, 14) == []
  {
    hide LayRoot, WellFormed, RootPlacement, Items, PaintTree, ChildrenFirst, CanvasBackground, RunItems, RunDabs;
    hide Drawn, DrawnText, RunsWidth;
    LongOrigin();
    LastLetterShows();
    LongDabs();
    OneRunLaid(LONG_LINE, LONG, LONG_RUN, 1080, 840);
    var tree := Painted(LONG_LINE, LayRoot(LONG_LINE));
    var lens := Widened(Inflate(tree.Bounds()));
    NoCanvas(tree, names);
    LaidOutPagesPaintInOrder(LONG_LINE, names, Everything);
    LaidOutPagesPaintInOrder(LONG_LINE, names, lens);
    LongItems(tree, DRAWN, None, Everything);
    LongItems(tree, DRAWN, None, lens);
    OnlyRun(DRAWN, Everything);
    OnlyRun(DRAWN, lens);
  }
}
