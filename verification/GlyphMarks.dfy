/**
 * What text leaves at one pixel: the visible blends of a run's glyphs there, in order,
 * and those of a whole list under its clips.
 */
module GlyphMarks {
  import opened AppUnits
  import opened Geometry
  import opened Styles
  import opened Wrappers
  import opened LayoutContext
  import opened DisplayLists
  import opened Raster
  import opened Blit

  /** A colour blended at some non-zero coverage. */
  datatype Dab = Dab(color: Rgba, mask: Byte)

  /** The coverage a glyph's mask gives a pixel, wherever it is clipped. */
  function CoverageAt(run: GlyphRun, g: Glyph, render: Render, x: int, y: int): Byte {
    var bitmap := render(GlyphKey(run.font, g.id, run.size));
    var mask := bitmap.Coverage(x - (RoundPx(SatAdd(run.origin.x, g.x)) + bitmap.left),
                                y - (RoundPx(SatAdd(run.origin.y, g.y)) - bitmap.top));
    if mask.Some? then mask.value else 0
  }

  /** The dabs of the first `n` glyphs at a pixel. */
  function GlyphDabs(run: GlyphRun, render: Render, x: int, y: int, n: nat): seq<Dab>
    requires n <= |run.glyphs|
  {
    if n == 0 then []
    else
      var mask := CoverageAt(run, run.glyphs[n - 1], render, x, y);
      GlyphDabs(run, render, x, y, n - 1) + if Mul255(mask, run.color.a) > 0 then [Dab(run.color, mask)] else []
  }

  /** A run of a size, and a colour, that is painted at all. */
  predicate Paintable(run: GlyphRun) {
    run.glyphs != [] && run.color.a != 0 && 0 < run.size <= MAX_GLYPH_SIZE
  }

  function RunDabs(run: GlyphRun, render: Render, x: int, y: int): seq<Dab> {
    if Paintable(run) then GlyphDabs(run, render, x, y, |run.glyphs|) else []
  }

  function Blended(p: Pixel, dab: Dab): Pixel {
    match SourceOver(p, dab.color, dab.mask)
    case None => p
    case Some(q) => q
  }

  function Dabbed(p: Pixel, dabs: seq<Dab>): Pixel {
    if dabs == [] then p else Blended(Dabbed(p, dabs[..|dabs| - 1]), dabs[|dabs| - 1])
  }

  lemma OneDab(run: GlyphRun, g: Glyph, clip: PixelClip, render: Render, p: Pixel, x: int, y: int)
    ensures var mask := CoverageAt(run, g, render, x, y);
            StampOf(run, g, clip, render).On(p, x, y)
            == if clip.Contains(x, y) && Mul255(mask, run.color.a) > 0 then Blended(p, Dab(run.color, mask)) else p
  {
    hide Mul255, RoundPx;
    Mul255Ends(run.color.a);
  }

  lemma {:induction false} GlyphsAreDabs(cells: seq<Pixel>, width: nat, run: GlyphRun, clip: PixelClip, render: Render,
                                         n: nat, i: nat)
    requires width > 0 && n <= |run.glyphs| && i < |cells|
    ensures var (x, y) := (i % width, i / width);
            GlyphsStamped(cells, width, run, clip, render, n)[i]
            == if clip.Contains(x, y) then Dabbed(cells[i], GlyphDabs(run, render, x, y, n)) else cells[i]
  {
    hide Stamp.On, StampOf, Stamped, CoverageAt, PixelClip.Contains, Blended, Mul255;
    if n > 0 {
      var (x, y) := (i % width, i / width);
      var before := GlyphsStamped(cells, width, run, clip, render, n - 1);
      var g := run.glyphs[n - 1];
      var s := StampOf(run, g, clip, render);
      GlyphsAreDabs(cells, width, run, clip, render, n - 1, i);
      OneDab(run, g, clip, render, before[i], x, y);
      assert Stamped(before, width, s)[i] == s.On(before[i], x, y);
      var dabs, dab := GlyphDabs(run, render, x, y, n - 1), Dab(run.color, CoverageAt(run, g, render, x, y));
      assert (dabs + [dab])[..|dabs|] == dabs && dabs + [] == dabs;
    }
  }

  /** Painting a run blends its dabs into every pixel wholly inside the clip, in order, and changes no other. */
  lemma RunIsDabs(cells: seq<Pixel>, width: nat, run: GlyphRun, clip: Rect, render: Render, i: nat)
    requires width > 0 && i < |cells|
    ensures var (x, y) := (i % width, i / width);
            RunPainted(cells, width, run, clip, render)[i]
            == if WhollyInside(clip, x, y) then Dabbed(cells[i], RunDabs(run, render, x, y)) else cells[i]
  {
    hide GlyphsStamped, WhollyInside, SnapInward, PixelClip.Contains, GlyphDabs, Blended;
    SnapKeepsWholePixels(clip, i % width, i / width);
    if Paints(run, clip) {
      GlyphsAreDabs(cells, width, run, SnapInward(clip).value, render, |run.glyphs|, i);
    }
  }

  /** Dabs that all show. */
  predicate AllShow(dabs: seq<Dab>) {
    forall k :: 0 <= k < |dabs| ==> Mul255(dabs[k].mask, dabs[k].color.a) > 0
  }

  lemma {:induction false} GlyphDabsShow(run: GlyphRun, render: Render, x: int, y: int, n: nat)
    requires n <= |run.glyphs|
    ensures AllShow(GlyphDabs(run, render, x, y, n))
  {
    hide Mul255, CoverageAt;
    if n > 0 {
      GlyphDabsShow(run, render, x, y, n - 1);
    }
  }

  /** Any dab leaves paint on a premultiplied pixel. */
  lemma {:induction false} DabbedShows(p: Pixel, dabs: seq<Dab>)
    requires p.Premultiplied() && AllShow(dabs)
    ensures Dabbed(p, dabs).Premultiplied() && (dabs != [] ==> Dabbed(p, dabs).a > 0)
  {
    hide Mul255;
    if dabs != [] {
      var before, last := dabs[..|dabs| - 1], dabs[|dabs| - 1];
      DabbedShows(p, before);
      SourceOverKeeps(Dabbed(p, before), last.color, last.mask);
    }
  }

  // ----- a whole list -----

  /** A pixel coordinate the rasteriser can have. */
  type Index = n: nat | n < MAX_DIMENSION

  function Near(x: Index, y: Index): Point {
    Point(AU_PER_PX * x, AU_PER_PX * y)
  }

  function Far(x: Index, y: Index): Point {
    Point(AU_PER_PX * x + AU_PER_PX - 1, AU_PER_PX * y + AU_PER_PX - 1)
  }

  /** A pixel lies wholly inside a rect exactly when its first and last point do. */
  lemma WhollyByCorners(r: Rect, x: Index, y: Index)
    ensures WhollyInside(r, x, y) <==> r.Contains(Near(x, y)) && r.Contains(Far(x, y))
  {
  }

  predicate AdmitsPixel(canvas: Rect, open: seq<Rect>, x: Index, y: Index) {
    Admitted(canvas, open, Near(x, y)) && Admitted(canvas, open, Far(x, y))
  }

  /** The dabs a list's text means at a pixel, under the clips open at each run. */
  function TextMarks(items: seq<DisplayItem>, canvas: Rect, render: Render, x: Index, y: Index): seq<Dab> {
    if items == [] then []
    else
      var before, last := items[..|items| - 1], items[|items| - 1];
      TextMarks(before, canvas, render, x, y) +
      if last.Glyphs? && AdmitsPixel(canvas, OpenClips(before), x, y) then RunDabs(last.run, render, x, y) else []
  }

  /** The dabs that executed draws leave at a pixel. */
  function DrawnText(draws: seq<Draw>, render: Render, x: Index, y: Index): seq<Dab> {
    if draws == [] then []
    else
      var last := draws[|draws| - 1];
      DrawnText(draws[..|draws| - 1], render, x, y) +
      if last.DrawRun? && WhollyInside(last.clip, x, y) then RunDabs(last.run, render, x, y) else []
  }

  lemma {:induction false} DrawnTextJoin(a: seq<Draw>, b: seq<Draw>, render: Render, x: Index, y: Index)
    ensures DrawnText(a + b, render, x, y) == DrawnText(a, render, x, y) + DrawnText(b, render, x, y)
    decreases |b|
  {
    hide WhollyInside, RunDabs;
    if b == [] {
      assert a + b == a;
    } else {
      DrawnTextJoin(a, b[..|b| - 1], render, x, y);
      assert (a + b)[..|a + b| - 1] == a + b[..|b| - 1];
    }
  }

  lemma {:induction false} NoDrawnText(draws: seq<Draw>, render: Render, x: Index, y: Index)
    requires forall k :: 0 <= k < |draws| ==> draws[k].FillRect?
    ensures DrawnText(draws, render, x, y) == []
  {
    if draws != [] {
      NoDrawnText(draws[..|draws| - 1], render, x, y);
    }
  }

  lemma {:induction false} StripsFill(strips: seq<Strip>, clip: Rect)
    ensures forall k :: 0 <= k < |StripDraws(strips, clip)| ==> StripDraws(strips, clip)[k].FillRect?
  {
    hide Intersect, Rect.IsEmpty;
    if strips != [] {
      StripsFill(strips[..|strips| - 1], clip);
    }
  }

  lemma ItemText(item: DisplayItem, clip: Rect, render: Render, x: Index, y: Index)
    ensures DrawnText(ItemDraws(item, clip), render, x, y)
            == if item.Glyphs? && WhollyInside(clip, x, y) then RunDabs(item.run, render, x, y) else []
  {
    hide WhollyInside, RunDabs, Intersect, Strips;
    match item {
      case Fill(rect, color) => NoDrawnText(FillDraws(rect, color, clip), render, x, y);
      case Border(rect, widths, colors) =>
        StripsFill(Strips(rect, widths, colors), clip);
        NoDrawnText(StripDraws(Strips(rect, widths, colors), clip), render, x, y);
      case Glyphs(run) => assert [DrawRun(run, clip)][..0] == [];
      case PushClip(_) =>
      case PopClip =>
    }
  }

  /** Drawing with one rect per level leaves at every pixel the dabs the nested clips mean. */
  lemma {:induction false} DrawnTextIsMeant(items: seq<DisplayItem>, canvas: Rect, render: Render, x: Index, y: Index)
    requires Guarded(items)
    ensures DrawnText(Drawn(items, canvas), render, x, y) == TextMarks(items, canvas, render, x, y)
  {
    hide WhollyInside, RunDabs, ItemDraws, StackStep, OpenStep, Rect.Contains, Admitted;
    if items != [] {
      var before, last := items[..|items| - 1], items[|items| - 1];
      GuardedPrefix(items, |items| - 1);
      DrawnTextIsMeant(before, canvas, render, x, y);
      StackMirrorsOpen(before, canvas);
      var clip := Top(ClipStack(before, canvas));
      assert OpenClips(before)[..|OpenClips(before)|] == OpenClips(before);
      WhollyByCorners(clip, x, y);
      ItemText(last, clip, render, x, y);
      DrawnTextJoin(Drawn(before, canvas), ItemDraws(last, clip), render, x, y);
    }
  }
}
