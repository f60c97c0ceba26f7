/**
 * The display-list executor over points of the canvas in app units: a stack of
 * clip rectangles, rectangle fills and border strips. Glyph drawing is `Blit`.
 */
module Raster {
  import opened AppUnits
  import opened Geometry
  import opened Styles
  import opened Wrappers
  import opened LayoutContext
  import opened DisplayLists

  /** What reaches the pixmap: a filled rectangle, or a run drawn under a clip. */
  datatype Draw = FillRect(rect: Rect, color: Rgba) | DrawRun(run: GlyphRun, clip: Rect)

  datatype GfxError = PixmapTooLarge(width: nat, height: nat) | Invalid(error: DisplayListError) | Font(key: nat)

  const MAX_DIMENSION: nat := 16_384

  /** The overlap, or the empty rect when there is none. */
  function Intersect(a: Rect, b: Rect): Rect {
    var left, top := Max(a.origin.x, b.origin.x), Max(a.origin.y, b.origin.y);
    var right, bottom := Min(a.Right(), b.Right()), Min(a.Bottom(), b.Bottom());
    if right <= left || bottom <= top then EMPTY_RECT
    else Rect(Point(left, top), Size(SatSub(right, left), SatSub(bottom, top)))
  }

  /** For any two rects, saturating edges included. */
  lemma IntersectIsIntersection(a: Rect, b: Rect, p: Point)
    ensures Intersect(a, b).Contains(p) <==> a.Contains(p) && b.Contains(p)
  {
    var left, top := Max(a.origin.x, b.origin.x), Max(a.origin.y, b.origin.y);
    var right, bottom := Min(a.Right(), b.Right()), Min(a.Bottom(), b.Bottom());
    assert right - left <= AU_MAX && bottom - top <= AU_MAX;
  }

  lemma EmptyContainsNothing(r: Rect, p: Point)
    ensures r.IsEmpty() ==> !r.Contains(p)
  {
  }

  function FillDraws(rect: Rect, color: Rgba, clip: Rect): seq<Draw> {
    if color.a == 0 || Intersect(rect, clip).IsEmpty() then []
    else [FillRect(Intersect(rect, clip), color)]
  }

  // ----- borders -----

  datatype Strip = Strip(rect: Rect, color: Rgba)

  function ClampWidth(w: Au, extent: Au): Au {
    Min(Max(w, 0), Max(extent, 0))
  }

  /** Full-width top and bottom strips, left and right strips in the band between them. */
  function Strips(rect: Rect, widths: Sides<Au>, colors: Sides<Rgba>): seq<Strip> {
    var top, bottom := ClampWidth(widths.top, rect.size.h), ClampWidth(widths.bottom, rect.size.h);
    var left, right := ClampWidth(widths.left, rect.size.w), ClampWidth(widths.right, rect.size.w);
    var bandY := SatAdd(rect.origin.y, top);
    var bandH := SatSub(SatSub(rect.size.h, top), bottom);
    var rows := [Strip(Rect(rect.origin, Size(rect.size.w, top)), colors.top),
                 Strip(Rect(Point(rect.origin.x, SatSub(rect.Bottom(), bottom)), Size(rect.size.w, bottom)),
                       colors.bottom)];
    if bandH <= 0 then rows
    else rows +
         [Strip(Rect(Point(rect.origin.x, bandY), Size(left, bandH)), colors.left),
          Strip(Rect(Point(SatSub(rect.Right(), right), bandY), Size(right, bandH)), colors.right)]
  }

  /** Inside all four border edges. */
  predicate InsideBorder(rect: Rect, widths: Sides<Au>, p: Point) {
    && rect.origin.y + widths.top <= p.y < rect.Bottom() - widths.bottom
    && rect.origin.x + widths.left <= p.x < rect.Right() - widths.right
  }

  predicate Within(lo: int, x: int, hi: int) {
    lo <= x < hi
  }

  /** Where the strips are, and each in its own side's colour, when no edge saturates and no width exceeds the rect. */
  lemma StripSpans(rect: Rect, widths: Sides<Au>, colors: Sides<Rgba>, p: Point)
    requires rect.Representable() && BorderWidthsValid(rect, widths)
    ensures var strips := Strips(rect, widths, colors);
            var (x, y, right, bottom) := (rect.origin.x, rect.origin.y, rect.Right(), rect.Bottom());
            && |strips| == (if widths.top + widths.bottom < rect.size.h then 4 else 2)
            && (strips[0].rect.Contains(p) <==> Within(x, p.x, right) && Within(y, p.y, y + widths.top))
            && (strips[1].rect.Contains(p) <==> Within(x, p.x, right) && Within(bottom - widths.bottom, p.y, bottom))
            && (|strips| == 4 ==>
                  && (strips[2].rect.Contains(p) <==>
                      Within(x, p.x, x + widths.left) && Within(y + widths.top, p.y, bottom - widths.bottom))
                  && (strips[3].rect.Contains(p) <==>
                      Within(right - widths.right, p.x, right) && Within(y + widths.top, p.y, bottom - widths.bottom)))
            && strips[0].color == colors.top && strips[1].color == colors.bottom
            && (|strips| == 4 ==> strips[2].color == colors.left && strips[3].color == colors.right)
  {
    assert rect.Right() == rect.origin.x + rect.size.w && rect.Bottom() == rect.origin.y + rect.size.h;
  }

  /** The strips cover exactly the rect outside its inner edges. */
  lemma StripsFrame(rect: Rect, widths: Sides<Au>, colors: Sides<Rgba>, p: Point)
    requires rect.Representable() && BorderWidthsValid(rect, widths)
    ensures var strips := Strips(rect, widths, colors);
            (exists k :: 0 <= k < |strips| && strips[k].rect.Contains(p)) <==>
            rect.Contains(p) && !InsideBorder(rect, widths, p)
  {
    StripSpans(rect, widths, colors, p);
    assert rect.Right() == rect.origin.x + rect.size.w && rect.Bottom() == rect.origin.y + rect.size.h;
    var strips := Strips(rect, widths, colors);
    hide Strips, Saturate, SatAdd, SatSub;
    if rect.Contains(p) && !InsideBorder(rect, widths, p) {
      if p.y < rect.origin.y + widths.top {
        assert strips[0].rect.Contains(p);
      } else if p.y >= rect.Bottom() - widths.bottom {
        assert strips[1].rect.Contains(p);
      } else if p.x < rect.origin.x + widths.left {
        assert strips[2].rect.Contains(p);
      } else {
        assert strips[3].rect.Contains(p);
      }
    }
  }

  /** No point is painted by two strips unless opposite widths collide. */
  lemma StripsApart(rect: Rect, widths: Sides<Au>, colors: Sides<Rgba>, p: Point, i: nat, j: nat)
    requires rect.Representable() && BorderWidthsValid(rect, widths)
    requires widths.top + widths.bottom <= rect.size.h && widths.left + widths.right <= rect.size.w
    requires i < j < |Strips(rect, widths, colors)|
    ensures !(Strips(rect, widths, colors)[i].rect.Contains(p) && Strips(rect, widths, colors)[j].rect.Contains(p))
  {
    StripSpans(rect, widths, colors, p);
    assert rect.Right() == rect.origin.x + rect.size.w && rect.Bottom() == rect.origin.y + rect.size.h;
    hide Strips, Saturate, SatAdd, SatSub;
  }

  function StripDraws(strips: seq<Strip>, clip: Rect): seq<Draw> {
    if strips == [] then []
    else StripDraws(strips[..|strips| - 1], clip) +
         FillDraws(strips[|strips| - 1].rect, strips[|strips| - 1].color, clip)
  }

  // ----- the executor -----

  function ItemDraws(item: DisplayItem, clip: Rect): seq<Draw> {
    match item
    case Fill(rect, color) => FillDraws(rect, color, clip)
    case Border(rect, widths, colors) => StripDraws(Strips(rect, widths, colors), clip)
    case Glyphs(run) => [DrawRun(run, clip)]
    case PushClip(_) => []
    case PopClip => []
  }

  /** A pop never takes the canvas. */
  function StackStep(clips: seq<Rect>, item: DisplayItem): (r: seq<Rect>)
    requires |clips| >= 1
    ensures |r| >= 1
  {
    match item
    case PushClip(rect) => clips + [Intersect(clips[|clips| - 1], rect)]
    case PopClip => if |clips| > 1 then clips[..|clips| - 1] else clips
    case _ => clips
  }

  /** The clip stack after executing `items`, the canvas at its bottom. */
  function ClipStack(items: seq<DisplayItem>, canvas: Rect): (r: seq<Rect>)
    ensures |r| >= 1
  {
    if items == [] then [canvas] else StackStep(ClipStack(items[..|items| - 1], canvas), items[|items| - 1])
  }

  function Top(clips: seq<Rect>): Rect
    requires |clips| >= 1
  {
    clips[|clips| - 1]
  }

  function Drawn(items: seq<DisplayItem>, canvas: Rect): seq<Draw> {
    if items == [] then []
    else
      var before := items[..|items| - 1];
      Drawn(before, canvas) + ItemDraws(items[|items| - 1], Top(ClipStack(before, canvas)))
  }

  function CanvasBounds(width: nat, height: nat): Rect
    requires width <= MAX_DIMENSION && height <= MAX_DIMENSION
  {
    Rect(ORIGIN, Size(60 * width, 60 * height))
  }

  predicate DimensionsOk(width: nat, height: nat) {
    0 < width <= MAX_DIMENSION && 0 < height <= MAX_DIMENSION
  }

  /** The fonts' verdict on a run: the key it cannot draw, if any. */
  type Fonts = GlyphRun -> Option<nat>

  predicate Drawable(items: seq<DisplayItem>, fonts: Fonts) {
    forall i :: 0 <= i < |items| && items[i].Glyphs? ==> fonts(items[i].run).None?
  }

  method FillBorder(rect: Rect, widths: Sides<Au>, colors: Sides<Rgba>, clip: Rect) returns (draws: seq<Draw>)
    ensures draws == StripDraws(Strips(rect, widths, colors), clip)
  {
    hide FillDraws;
    var strips := Strips(rect, widths, colors);
    draws := [];
    for k := 0 to |strips|
      invariant draws == StripDraws(strips[..k], clip)
    {
      assert strips[..k + 1][..k] == strips[..k];
      draws := draws + FillDraws(strips[k].rect, strips[k].color, clip);
    }
    assert strips[..|strips|] == strips;
  }

  lemma NothingExecuted(items: seq<DisplayItem>, canvas: Rect)
    ensures ClipStack(items[..0], canvas) == [canvas] && Drawn(items[..0], canvas) == []
  {
  }

  lemma ExecuteStep(items: seq<DisplayItem>, canvas: Rect, i: nat)
    requires i < |items|
    ensures ClipStack(items[..i + 1], canvas) == StackStep(ClipStack(items[..i], canvas), items[i])
    ensures Drawn(items[..i + 1], canvas) == Drawn(items[..i], canvas)
            + ItemDraws(items[i], Top(ClipStack(items[..i], canvas)))
  {
    hide StackStep, ItemDraws;
    assert items[..i + 1][..i] == items[..i];
  }

  /** Checks the size, validates, then executes; the first run the fonts refuse stops it. */
  method Rasterize(items: seq<DisplayItem>, width: nat, height: nat, fonts: Fonts)
    returns (r: Result<seq<Draw>, GfxError>)
    ensures r == Err(PixmapTooLarge(width, height)) <==> !DimensionsOk(width, height)
    ensures DimensionsOk(width, height) ==>
              (r.Err? && r.error.Invalid? <==> !Accepted(items, CanvasBounds(width, height)))
    ensures r.Ok? <==>
              DimensionsOk(width, height) && Accepted(items, CanvasBounds(width, height)) && Drawable(items, fonts)
    ensures r.Ok? ==> r.value == Drawn(items, CanvasBounds(width, height))
  {
    hide Accepted, Strips, FillDraws, Intersect, ClipStack, Drawn;
    if width == 0 || height == 0 || width > MAX_DIMENSION || height > MAX_DIMENSION {
      return Err(PixmapTooLarge(width, height));
    }
    var bounds := CanvasBounds(width, height);
    var verdict := Validate(items, bounds);
    if verdict.Err? {
      return Err(Invalid(verdict.error));
    }
    var draws, clips := [], [bounds];
    assert ClipStack(items[..0], bounds) == [bounds] && Drawn(items[..0], bounds) == [] by {
      NothingExecuted(items, bounds);
    }
    for i := 0 to |items|
      invariant clips == ClipStack(items[..i], bounds) && draws == Drawn(items[..i], bounds)
      invariant forall j :: 0 <= j < i && items[j].Glyphs? ==> fonts(items[j].run).None?
    {
      ExecuteStep(items, bounds, i);
      var clip := clips[|clips| - 1];
      match items[i] {
        case Fill(rect, color) => draws := draws + FillDraws(rect, color, clip);
        case Border(rect, widths, colors) =>
          var strips := FillBorder(rect, widths, colors, clip);
          draws := draws + strips;
        case Glyphs(run) =>
          if fonts(run).Some? {
            return Err(Font(fonts(run).value));
          }
          draws := draws + [DrawRun(run, clip)];
        case PushClip(rect) => clips := clips + [Intersect(clip, rect)];
        case PopClip =>
          if |clips| > 1 {
            clips := clips[..|clips| - 1];
          }
      }
    }
    assert items[..|items|] == items;
    r := Ok(draws);
  }

  // ----- what a list means at one point -----

  /** A trace at a point: a colour painted on it, or a run drawn under a clip that admits it. */
  datatype Mark = Ink(color: Rgba) | Type(run: GlyphRun)

  function OpenStep(open: seq<Rect>, item: DisplayItem): seq<Rect> {
    match item
    case PushClip(rect) => open + [rect]
    case PopClip => if open == [] then [] else open[..|open| - 1]
    case _ => open
  }

  /** The rects of the clips still open after `items`, outermost first. */
  function OpenClips(items: seq<DisplayItem>): seq<Rect> {
    if items == [] then [] else OpenStep(OpenClips(items[..|items| - 1]), items[|items| - 1])
  }

  /** On the canvas and in every open clip. */
  predicate Admitted(canvas: Rect, open: seq<Rect>, p: Point) {
    canvas.Contains(p) && forall k :: 0 <= k < |open| ==> open[k].Contains(p)
  }

  function FillMarks(rect: Rect, color: Rgba, p: Point): seq<Mark> {
    if color.a > 0 && rect.Contains(p) then [Ink(color)] else []
  }

  function StripMarks(strips: seq<Strip>, p: Point): seq<Mark> {
    if strips == [] then []
    else StripMarks(strips[..|strips| - 1], p) + FillMarks(strips[|strips| - 1].rect, strips[|strips| - 1].color, p)
  }

  function ItemMarks(item: DisplayItem, p: Point): seq<Mark> {
    match item
    case Fill(rect, color) => FillMarks(rect, color, p)
    case Border(rect, widths, colors) => StripMarks(Strips(rect, widths, colors), p)
    case Glyphs(run) => [Type(run)]
    case PushClip(_) => []
    case PopClip => []
  }

  /** Everything the list leaves at `p`, in painting order. */
  function Marks(items: seq<DisplayItem>, canvas: Rect, p: Point): seq<Mark> {
    if items == [] then []
    else
      var before := items[..|items| - 1];
      Marks(before, canvas, p) +
      if Admitted(canvas, OpenClips(before), p) then ItemMarks(items[|items| - 1], p) else []
  }

  function DrawMarks(draws: seq<Draw>, p: Point): seq<Mark> {
    if draws == [] then []
    else
      DrawMarks(draws[..|draws| - 1], p) +
      match draws[|draws| - 1]
      case FillRect(rect, color) => if rect.Contains(p) then [Ink(color)] else []
      case DrawRun(run, clip) => if clip.Contains(p) then [Type(run)] else []
  }

  // ----- the clip stack of an accepted list -----

  /** No pop without a push up to here. */
  ghost predicate Guarded(items: seq<DisplayItem>) {
    forall i :: 0 <= i < |items| && items[i].PopClip? ==> Balance(items[..i]) > 0
  }

  lemma GuardedPrefix(items: seq<DisplayItem>, n: nat)
    requires Guarded(items) && n <= |items|
    ensures Guarded(items[..n])
  {
    hide Balance;
    forall i | 0 <= i < n && items[..n][i].PopClip? ensures Balance(items[..n][..i]) > 0 {
      assert items[..n][..i] == items[..i];
    }
  }

  lemma {:induction false} BalanceNonNegative(items: seq<DisplayItem>)
    requires Guarded(items)
    ensures Balance(items) >= 0
  {
    if items != [] {
      GuardedPrefix(items, |items| - 1);
      BalanceNonNegative(items[..|items| - 1]);
    }
  }

  lemma {:induction false} AcceptedIsGuarded(items: seq<DisplayItem>, region: Region, n: nat)
    requires n <= |items| && FaultlessBefore(items, |items|, region)
    ensures Guarded(items[..n])
  {
    hide RectFault, RunFault, BorderWidthsValid;
    if n > 0 {
      AcceptedIsGuarded(items, region, n - 1);
      BalanceNonNegative(items[..n - 1]);
      forall i | 0 <= i < n && items[..n][i].PopClip? ensures Balance(items[..n][..i]) > 0 {
        assert items[..n][..i] == items[..i] == items[..n - 1][..i];
        assert i < n - 1 ==> items[..n - 1][i].PopClip?;
        assert Fault(items, i, region).None?;
      }
    }
  }

  /** One clip per open push, above the canvas, and each is the intersection of those pushes. */
  lemma {:induction false} StackMirrorsOpen(items: seq<DisplayItem>, canvas: Rect)
    requires Guarded(items)
    ensures |OpenClips(items)| == Balance(items) && |ClipStack(items, canvas)| == |OpenClips(items)| + 1
    ensures forall k, p :: 0 <= k <= |OpenClips(items)| ==>
              (ClipStack(items, canvas)[k].Contains(p) <==> Admitted(canvas, OpenClips(items)[..k], p))
  {
    hide Rect.Contains, Intersect;
    if items != [] {
      var before := items[..|items| - 1];
      GuardedPrefix(items, |items| - 1);
      StackMirrorsOpen(before, canvas);
      var open, clips := OpenClips(before), ClipStack(before, canvas);
      var last := items[|items| - 1];
      forall k, p | 0 <= k <= |OpenClips(items)|
        ensures ClipStack(items, canvas)[k].Contains(p) <==> Admitted(canvas, OpenClips(items)[..k], p)
      {
        if last.PushClip? {
          if k == |open| + 1 {
            IntersectIsIntersection(Top(clips), last.rect, p);
            AdmittedThroughOneMore(canvas, open, last.rect, p);
            assert (open + [last.rect])[..k] == open + [last.rect] && open[..|open|] == open;
          } else {
            assert (open + [last.rect])[..k] == open[..k];
          }
        } else if last.PopClip? {
          assert open[..|open| - 1][..k] == open[..k];
        }
      }
    }
  }

  lemma AdmittedThroughOneMore(canvas: Rect, open: seq<Rect>, rect: Rect, p: Point)
    ensures Admitted(canvas, open + [rect], p) <==> Admitted(canvas, open, p) && rect.Contains(p)
  {
    hide Rect.Contains;
    if Admitted(canvas, open + [rect], p) {
      assert (open + [rect])[|open|] == rect;
      forall k | 0 <= k < |open| ensures open[k].Contains(p) {
        assert (open + [rect])[k] == open[k];
      }
    }
  }

  /**
   * For an accepted list, before every item: the stack holds the canvas and one
   * clip per open push, a pop always finds one above the canvas, and a point is
   * in the current clip exactly when it is on the canvas and in every open clip.
   */
  lemma AcceptedClips(items: seq<DisplayItem>, bounds: Rect, i: nat)
    requires Accepted(items, bounds) && i <= |items|
    ensures var clips := ClipStack(items[..i], bounds);
            && |clips| == Balance(items[..i]) + 1 <= MAX_CLIP_DEPTH + 1
            && (i < |items| && items[i].PopClip? ==> |clips| > 1)
            && forall p :: Top(clips).Contains(p) <==> Admitted(bounds, OpenClips(items[..i]), p)
  {
    hide Rect.Contains, RunFault, RectFault, Inflate, BorderWidthsValid, Admitted;
    AcceptedIsGuarded(items, Inflate(bounds), i);
    AcceptedIsGuarded(items, Inflate(bounds), |items|);
    assert items[..|items|] == items;
    StackMirrorsOpen(items[..i], bounds);
    DepthBounded(items, Inflate(bounds), i);
    var open := OpenClips(items[..i]);
    assert open[..|open|] == open;
  }

  lemma {:induction false} DepthBounded(items: seq<DisplayItem>, region: Region, n: nat)
    requires FaultlessBefore(items, |items|, region) && n <= |items|
    ensures Balance(items[..n]) <= MAX_CLIP_DEPTH
  {
    hide RectFault, RunFault, BorderWidthsValid;
    if n > 0 {
      DepthBounded(items, region, n - 1);
      assert items[..n][..n - 1] == items[..n - 1];
      assert Fault(items, n - 1, region).None?;
    }
  }

  // ----- executing is meaning -----

  lemma {:induction false} DrawMarksJoin(a: seq<Draw>, b: seq<Draw>, p: Point)
    ensures DrawMarks(a + b, p) == DrawMarks(a, p) + DrawMarks(b, p)
    decreases |b|
  {
    hide Rect.Contains;
    if b == [] {
      assert a + b == a;
    } else {
      assert (a + b)[..|a + b| - 1] == a + b[..|b| - 1];
      DrawMarksJoin(a, b[..|b| - 1], p);
    }
  }

  lemma FillUnderClip(rect: Rect, color: Rgba, clip: Rect, p: Point)
    ensures DrawMarks(FillDraws(rect, color, clip), p) == if clip.Contains(p) then FillMarks(rect, color, p) else []
  {
    hide Intersect;
    IntersectIsIntersection(rect, clip, p);
    EmptyContainsNothing(Intersect(rect, clip), p);
    assert [FillRect(Intersect(rect, clip), color)][..0] == [];
  }

  lemma {:induction false} StripsUnderClip(strips: seq<Strip>, clip: Rect, p: Point)
    ensures DrawMarks(StripDraws(strips, clip), p) == if clip.Contains(p) then StripMarks(strips, p) else []
  {
    hide Rect.Contains, FillDraws, FillMarks;
    if strips != [] {
      var last := strips[|strips| - 1];
      StripsUnderClip(strips[..|strips| - 1], clip, p);
      FillUnderClip(last.rect, last.color, clip, p);
      DrawMarksJoin(StripDraws(strips[..|strips| - 1], clip), FillDraws(last.rect, last.color, clip), p);
    }
  }

  lemma ItemUnderClip(item: DisplayItem, clip: Rect, p: Point)
    ensures DrawMarks(ItemDraws(item, clip), p) == if clip.Contains(p) then ItemMarks(item, p) else []
  {
    hide Rect.Contains, FillDraws, FillMarks, StripDraws, StripMarks, Strips;
    match item {
      case Fill(rect, color) => FillUnderClip(rect, color, clip, p);
      case Border(rect, widths, colors) => StripsUnderClip(Strips(rect, widths, colors), clip, p);
      case Glyphs(run) => assert [DrawRun(run, clip)][..0] == [];
      case PushClip(_) =>
      case PopClip =>
    }
  }

  /** Executing with one clip rect per level paints, at every point, what the nested clips mean. */
  lemma {:induction false} DrawnIsMeant(items: seq<DisplayItem>, canvas: Rect, p: Point)
    requires Guarded(items)
    ensures DrawMarks(Drawn(items, canvas), p) == Marks(items, canvas, p)
  {
    hide Rect.Contains, ItemDraws, ItemMarks, Admitted;
    if items != [] {
      var n := |items| - 1;
      var before := items[..n];
      GuardedPrefix(items, n);
      DrawnIsMeant(before, canvas, p);
      StackMirrorsOpen(before, canvas);
      var open := OpenClips(before);
      assert open[..|open|] == open;
      var clip := Top(ClipStack(before, canvas));
      ItemUnderClip(items[n], clip, p);
      DrawMarksJoin(Drawn(before, canvas), ItemDraws(items[n], clip), p);
    }
  }
}
