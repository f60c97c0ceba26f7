/**
 * Glyph compositing: 8-bit coverage masks blended source-over at whole-pixel
 * positions, all in integers, and the glyph cache in front of the rasteriser.
 */
module Blit {
  import opened AppUnits
  import opened Geometry
  import opened Styles
  import opened Wrappers
  import opened LayoutContext

  const AU_PER_PX := 60

  // ----- the pixel grid -----

  function FloorPx(au: Au): int {
    au / AU_PER_PX
  }

  function CeilPx(au: Au): int {
    if au % AU_PER_PX == 0 then au / AU_PER_PX else au / AU_PER_PX + 1
  }

  function RoundPx(au: Au): int {
    if au % AU_PER_PX * 2 >= AU_PER_PX then au / AU_PER_PX + 1 else au / AU_PER_PX
  }

  /** The nearest pixel, halves up; a whole-pixel move of the pen is a whole-pixel move of the result. */
  lemma RoundIsNearest(au: Au, pixels: int)
    requires Fits(au + AU_PER_PX * pixels)
    ensures -30 < AU_PER_PX * RoundPx(au) - au <= 30
    ensures RoundPx(au + AU_PER_PX * pixels) == RoundPx(au) + pixels
  {
    assert (au + AU_PER_PX * pixels) / AU_PER_PX == au / AU_PER_PX + pixels;
  }

  /** Half-open in both directions. */
  datatype PixelClip = PixelClip(x0: int, y0: int, x1: int, y1: int) {
    predicate Contains(x: int, y: int) {
      x0 <= x < x1 && y0 <= y < y1
    }
  }

  function SnapInward(clip: Rect): Option<PixelClip> {
    var x0, y0 := CeilPx(clip.origin.x), CeilPx(clip.origin.y);
    var x1, y1 := FloorPx(clip.Right()), FloorPx(clip.Bottom());
    if x1 <= x0 || y1 <= y0 then None else Some(PixelClip(x0, y0, x1, y1))
  }

  /** The whole pixel lies inside the clip. */
  predicate WhollyInside(clip: Rect, x: int, y: int) {
    && clip.origin.x <= AU_PER_PX * x && AU_PER_PX * x + AU_PER_PX <= clip.Right()
    && clip.origin.y <= AU_PER_PX * y && AU_PER_PX * y + AU_PER_PX <= clip.Bottom()
  }

  /** Snapping keeps exactly the pixels wholly inside, and answers None when there are none. */
  lemma SnapKeepsWholePixels(clip: Rect, x: int, y: int)
    ensures WhollyInside(clip, x, y) <==> SnapInward(clip).Some? && SnapInward(clip).value.Contains(x, y)
  {
    SnapEdges(clip.origin.x, clip.Right(), x);
    SnapEdges(clip.origin.y, clip.Bottom(), y);
  }

  lemma SnapEdges(low: Au, high: Au, x: int)
    ensures low <= AU_PER_PX * x && AU_PER_PX * x + AU_PER_PX <= high <==> CeilPx(low) <= x < FloorPx(high)
  {
  }

  // ----- blending -----

  /** A premultiplied pixel. */
  datatype Pixel = Pixel(r: Byte, g: Byte, b: Byte, a: Byte) {
    predicate Premultiplied() {
      r <= a && g <= a && b <= a
    }
  }

  lemma Mul255Fits(n: int)
    requires 0 <= n <= 255 * 255
    ensures 0 <= (n + 128 + (n + 128) / 256) / 256 <= 255
  {
  }

  lemma ProductBound(a: Byte, b: Byte)
    ensures 0 <= a * b <= 255 * 255
  {
    assert a * b <= 255 * b;
  }

  /** The 8-bit product, by two shifts instead of a division. */
  function Mul255(a: Byte, b: Byte): Byte {
    ProductBound(a, b);
    Mul255Fits(a * b);
    var t := a * b + 128;
    (t + t / 256) / 256
  }

  /** It is the integer nearest to a * b / 255; there are no ties, 255 being odd. */
  lemma Mul255IsNearest(a: Byte, b: Byte)
    ensures -127 <= 255 * Mul255(a, b) - a * b <= 127
  {
    ProductBound(a, b);
    NearestQuotient(a * b);
  }

  lemma NearestQuotient(n: int)
    requires 0 <= n <= 255 * 255
    ensures -127 <= 255 * ((n + 128 + (n + 128) / 256) / 256) - n <= 127
  {
    var q, m := (n + 128) / 256, (n + 128) % 256;
    assert n + 128 + q == 257 * q + m;
  }

  lemma Mul255Monotone(a: Byte, c: Byte, b: Byte)
    requires a <= c
    ensures Mul255(a, b) <= Mul255(c, b)
  {
    assert a * b <= c * b;
    QuotientMonotone(a * b, c * b);
  }

  lemma QuotientMonotone(m: int, n: int)
    requires 0 <= m <= n
    ensures (m + 128 + (m + 128) / 256) / 256 <= (n + 128 + (n + 128) / 256) / 256
  {
  }

  lemma Mul255Ends(x: Byte)
    ensures Mul255(255, x) == x && Mul255(x, 255) == x && Mul255(x, 0) == 0 && Mul255(0, x) == 0
  {
    Mul255IsNearest(255, x);
    Mul255IsNearest(x, 255);
  }

  function Saturated(x: int): Byte
    requires x >= 0
  {
    if x > 255 then 255 else x
  }

  function BlendChannel(src: Byte, dst: Byte, alpha: Byte): Byte {
    Saturated(Mul255(src, alpha) + Mul255(dst, 255 - alpha))
  }

  /** The blended pixel, or None when the mask lets nothing through. */
  function SourceOver(dst: Pixel, color: Rgba, mask: Byte): Option<Pixel> {
    var alpha := Mul255(mask, color.a);
    var blended := Pixel(BlendChannel(color.r, dst.r, alpha), BlendChannel(color.g, dst.g, alpha),
                         BlendChannel(color.b, dst.b, alpha), Saturated(alpha + Mul255(dst.a, 255 - alpha)));
    if alpha == 0 || !blended.Premultiplied() then None else Some(blended)
  }

  /** No channel saturates, and none ends above alpha. */
  lemma ChannelBelowAlpha(src: Byte, dst: Byte, dstAlpha: Byte, alpha: Byte)
    requires dst <= dstAlpha
    ensures Mul255(src, alpha) + Mul255(dst, 255 - alpha) <= alpha + Mul255(dstAlpha, 255 - alpha) <= 255
  {
    hide Mul255;
    Mul255Monotone(src, 255, alpha);
    Mul255Ends(alpha);
    Mul255Monotone(dst, dstAlpha, 255 - alpha);
    Mul255Monotone(dstAlpha, 255, 255 - alpha);
    Mul255Ends(255 - alpha);
  }

  /** Blending keeps pixels premultiplied, never saturates, and only a transparent mask writes nothing. */
  lemma SourceOverKeeps(dst: Pixel, color: Rgba, mask: Byte)
    requires dst.Premultiplied()
    ensures var alpha := Mul255(mask, color.a);
            var r := SourceOver(dst, color, mask);
            && (r.None? <==> alpha == 0)
            && (r.Some? ==>
                  && r.value.Premultiplied()
                  && r.value.r == Mul255(color.r, alpha) + Mul255(dst.r, 255 - alpha)
                  && r.value.g == Mul255(color.g, alpha) + Mul255(dst.g, 255 - alpha)
                  && r.value.b == Mul255(color.b, alpha) + Mul255(dst.b, 255 - alpha)
                  && r.value.a == alpha + Mul255(dst.a, 255 - alpha))
  {
    hide Mul255;
    var alpha := Mul255(mask, color.a);
    ChannelBelowAlpha(color.r, dst.r, dst.a, alpha);
    ChannelBelowAlpha(color.g, dst.g, dst.a, alpha);
    ChannelBelowAlpha(color.b, dst.b, dst.a, alpha);
  }

  // ----- one glyph mask -----

  datatype GlyphBitmap = GlyphBitmap(left: int, top: int, width: nat, height: nat, alpha: seq<Byte>) {
    /** The coverage byte of a cell; None outside the mask, or past data shorter than its declared size. */
    function Coverage(col: int, row: int): Option<Byte> {
      if !(0 <= col < width && 0 <= row < height) then None
      else
        var index := row * width + col;
        if 0 <= index < |alpha| then Some(alpha[index]) else None
    }
  }

  /** A mask put down with its pen at (penX, penY); its `top` counts upward. */
  datatype Stamp = Stamp(bitmap: GlyphBitmap, penX: int, penY: int, color: Rgba, clip: PixelClip) {
    function X(): int {
      penX + bitmap.left
    }

    function Y(): int {
      penY - bitmap.top
    }

    /** What the stamp leaves at (x, y): a blend exactly where the clip and a non-zero mask cell meet. */
    function On(dst: Pixel, x: int, y: int): Pixel {
      var mask := bitmap.Coverage(x - X(), y - Y());
      if !clip.Contains(x, y) || mask.None? || mask.value == 0 then dst
      else
        match SourceOver(dst, color, mask.value)
        case None => dst
        case Some(p) => p
    }
  }

  /** A row-major canvas after a stamp, cell by cell. */
  function Stamped(cells: seq<Pixel>, width: nat, s: Stamp): (r: seq<Pixel>)
    requires width > 0
    ensures |r| == |cells|
    ensures forall i :: 0 <= i < |cells| ==> r[i] == s.On(cells[i], i % width, i / width)
  {
    seq(|cells|, i requires 0 <= i < |cells| => s.On(cells[i], i % width, i / width))
  }

  predicate AllPremultiplied(cells: seq<Pixel>) {
    forall k :: 0 <= k < |cells| ==> cells[k].Premultiplied()
  }

  /** Only cells on the canvas, in the clip and under non-zero coverage change; every canvas stays premultiplied. */
  lemma StampedKeeps(cells: seq<Pixel>, width: nat, s: Stamp, i: nat)
    requires width > 0 && i < |cells|
    requires AllPremultiplied(cells)
    ensures Stamped(cells, width, s)[i].Premultiplied()
    ensures Stamped(cells, width, s)[i] != cells[i] ==>
              var (x, y) := (i % width, i / width);
              && s.clip.Contains(x, y)
              && s.bitmap.Coverage(x - s.X(), y - s.Y()).Some? && s.bitmap.Coverage(x - s.X(), y - s.Y()).value != 0
  {
    hide SourceOver;
    var mask := s.bitmap.Coverage(i % width - s.X(), i / width - s.Y());
    if mask.Some? {
      SourceOverKeeps(cells[i], s.color, mask.value);
    }
  }

  lemma CellOf(x: nat, y: nat, width: nat)
    requires x < width
    ensures (y * width + x) / width == y && (y * width + x) % width == x
  {
    DivisionUnique(y * width + x, width, y, x);
  }

  lemma DivisionUnique(n: int, d: int, q: int, r: int)
    requires 0 <= r < d && n == q * d + r
    ensures n / d == q && n % d == r
  {
    var q1 := n / d;
    if q1 < q {
      MultiplesApart(q1, q, d);
      assert false;
    } else if q < q1 {
      MultiplesApart(q, q1, d);
      assert false;
    }
  }

  lemma MultiplesApart(a: int, b: int, d: int)
    requires a < b && d > 0
    ensures a * d + d <= b * d
  {
    assert (a + 1) * d <= b * d;
  }

  lemma MultiplesInOrder(a: nat, b: nat, d: nat)
    requires a <= b
    ensures a * d <= b * d
  {
  }

  // ----- the blit loops -----

  /** The mask rows or columns that land between `low` and `high`, on the canvas. */
  datatype Span = Span(start: int, end: int)

  function VisibleSpan(low: int, high: int, canvas: nat, at: int, extent: nat): Span {
    Span(Max(Max(low, 0) - at, 0), Min(Min(high, canvas) - at, extent))
  }

  lemma VisibleSpanExactly(low: int, high: int, canvas: nat, at: int, extent: nat, x: int)
    requires 0 <= x < canvas
    ensures var span := VisibleSpan(low, high, canvas, at, extent);
            span.start <= x - at < span.end <==> low <= x < high && 0 <= x - at < extent
  {
  }

  /** Outside the clip or the mask a stamp changes nothing. */
  lemma OutsideStamp(s: Stamp, dst: Pixel, x: int, y: int)
    requires !s.clip.Contains(x, y) || !(0 <= x - s.X() < s.bitmap.width) || !(0 <= y - s.Y() < s.bitmap.height)
    ensures s.On(dst, x, y) == dst
  {
  }

  /** One mask row: the canvas cells of that row under the visible columns. */
  method BlitRow(pixels: array<Pixel>, width: nat, y: nat, s: Stamp, cols: Span)
    requires width > 0 && (y + 1) * width <= pixels.Length
    requires 0 <= cols.start <= cols.end && 0 <= s.X() + cols.start && s.X() + cols.end <= width
    requires 0 <= y - s.Y() < s.bitmap.height && cols.end <= s.bitmap.width && s.clip.y0 <= y < s.clip.y1
    requires s.clip.x0 <= s.X() + cols.start && s.X() + cols.end <= s.clip.x1
    modifies pixels
    ensures forall i :: 0 <= i < pixels.Length ==>
              pixels[i] == var x := i - y * width;
                           if s.X() + cols.start <= x < s.X() + cols.end then s.On(old(pixels[i]), x, y)
                               else old(pixels[i])
  {
    hide SourceOver;
    var base := y * width;
    RowInside(y, width, pixels.Length);
    for col := cols.start to cols.end
      invariant forall i :: 0 <= i < pixels.Length ==>
                  pixels[i] == if s.X() + cols.start <= i - base < s.X() + col then s.On(old(pixels[i]), i - base, y)
                      else old(pixels[i])
    {
      var x := s.X() + col;
      var index := base + x;
      var mask := s.bitmap.Coverage(col, y - s.Y());
      if mask.None? || mask.value == 0 {
        continue;
      }
      var blended := SourceOver(pixels[index], s.color, mask.value);
      if blended.Some? {
        pixels[index] := blended.value;
      }
    }
  }

  lemma RowInside(y: nat, width: nat, length: nat)
    requires (y + 1) * width <= length
    ensures 0 <= y * width && y * width + width <= length
  {
    NextMultiple(y, width);
  }

  lemma NextMultiple(y: nat, width: nat)
    ensures (y + 1) * width == y * width + width && 0 <= y * width
  {
  }

  /** Nested loops over the visible rows and columns do what the stamp says of every cell of the canvas. */
  method Blit(pixels: array<Pixel>, width: nat, height: nat, s: Stamp)
    requires width > 0 && pixels.Length == width * height
    modifies pixels
    ensures pixels[..] == Stamped(old(pixels[..]), width, s)
  {
    hide SourceOver, Stamp.On, VisibleSpan;
    ghost var was := pixels[..];
    var cols := VisibleSpan(s.clip.x0, s.clip.x1, width, s.X(), s.bitmap.width);
    var rows := VisibleSpan(s.clip.y0, s.clip.y1, height, s.Y(), s.bitmap.height);
    if s.bitmap.width == 0 || s.bitmap.height == 0 || cols.start >= cols.end || rows.start >= rows.end {
      NothingVisible(was, width, height, s);
      return;
    }
    SpanBounds(s.clip.x0, s.clip.x1, width, s.X(), s.bitmap.width);
    SpanBounds(s.clip.y0, s.clip.y1, height, s.Y(), s.bitmap.height);
    for row := rows.start to rows.end
      invariant RowsStamped(was, pixels[..], width, s, cols, rows.start, row)
    {
      var y := s.Y() + row;
      RowsFit(y, width, height);
      ghost var before := pixels[..];
      BlitRow(pixels, width, y, s, cols);
      OneMoreRow(was, before, pixels[..], width, s, cols, rows.start, row);
    }
    AllRowsStamped(was, pixels[..], width, height, s);
  }

  /** The cells under the visible columns of mask rows `start` to `end` are stamped, the rest untouched. */
  ghost predicate RowsStamped(was: seq<Pixel>, now: seq<Pixel>, width: nat, s: Stamp, cols: Span, start: int, end: int)
    requires width > 0
  {
    && |now| == |was|
    && forall i :: 0 <= i < |was| ==>
         now[i] == if start <= i / width - s.Y() < end && cols.start <= i % width - s.X() < cols.end
                   then s.On(was[i], i % width, i / width) else was[i]
  }

  lemma SpanBounds(low: int, high: int, canvas: nat, at: int, extent: nat)
    requires VisibleSpan(low, high, canvas, at, extent).start < VisibleSpan(low, high, canvas, at, extent).end
    ensures var span := VisibleSpan(low, high, canvas, at, extent);
            && 0 <= span.start && span.end <= extent && 0 <= at + span.start && at + span.end <= canvas
            && low <= at + span.start && at + span.end <= high
  {
  }

  lemma RowsFit(y: int, width: nat, height: nat)
    requires 0 <= y < height
    ensures (y + 1) * width <= width * height
  {
    assert (y + 1) * width <= height * width;
  }

  /** Which row and column a cell of row `y` is, and that it is in no other row. */
  lemma RowOf(i: nat, y: nat, width: nat)
    requires width > 0
    ensures i / width == y <==> y * width <= i < y * width + width
    ensures i / width == y ==> i % width == i - y * width
  {
    if y * width <= i < y * width + width {
      CellOf(i - y * width, y, width);
    }
  }

  lemma OneMoreRow(was: seq<Pixel>, before: seq<Pixel>, after: seq<Pixel>, width: nat, s: Stamp, cols: Span,
                   start: int, row: int)
    requires width > 0 && RowsStamped(was, before, width, s, cols, start, row) && start <= row
    requires 0 <= s.Y() + row && 0 <= s.X() + cols.start && s.X() + cols.end <= width
    requires |after| == |before|
    requires forall i :: 0 <= i < |after| ==>
               after[i] == var x := i - (s.Y() + row) * width;
                           if s.X() + cols.start <= x < s.X() + cols.end then s.On(before[i], x, s.Y() + row)
                               else before[i]
    ensures RowsStamped(was, after, width, s, cols, start, row + 1)
  {
    hide Stamp.On;
    var y := s.Y() + row;
    forall i | 0 <= i < |was|
      ensures after[i] == if start <= i / width - s.Y() < row + 1 && cols.start <= i % width - s.X() < cols.end
                          then s.On(was[i], i % width, i / width) else was[i]
    {
      RowOf(i, y, width);
      if i / width == y {
        assert before[i] == was[i];
      }
    }
  }

  lemma StampVisible(was: seq<Pixel>, width: nat, height: nat, s: Stamp, i: nat)
    requires width > 0 && |was| == width * height && i < |was|
    ensures var cols := VisibleSpan(s.clip.x0, s.clip.x1, width, s.X(), s.bitmap.width);
            var rows := VisibleSpan(s.clip.y0, s.clip.y1, height, s.Y(), s.bitmap.height);
            !(rows.start <= i / width - s.Y() < rows.end && cols.start <= i % width - s.X() < cols.end) ==>
            s.On(was[i], i % width, i / width) == was[i]
  {
    hide Stamp.On, VisibleSpan;
    CellOnCanvas(i, width, height);
    VisibleSpanExactly(s.clip.x0, s.clip.x1, width, s.X(), s.bitmap.width, i % width);
    VisibleSpanExactly(s.clip.y0, s.clip.y1, height, s.Y(), s.bitmap.height, i / width);
    if s.On(was[i], i % width, i / width) != was[i] {
      if !s.clip.Contains(i % width, i / width) || !(0 <= i % width - s.X() < s.bitmap.width)
          || !(0 <= i / width - s.Y() < s.bitmap.height) {
        OutsideStamp(s, was[i], i % width, i / width);
      }
    }
  }

  lemma CellOnCanvas(i: nat, width: nat, height: nat)
    requires width > 0 && i < width * height
    ensures 0 <= i / width < height && 0 <= i % width < width
  {
    var row := i / width;
    if row >= height {
      MultiplesInOrder(height, row, width);
      assert false;
    }
  }

  lemma NothingVisible(was: seq<Pixel>, width: nat, height: nat, s: Stamp)
    requires width > 0 && |was| == width * height
    requires var cols := VisibleSpan(s.clip.x0, s.clip.x1, width, s.X(), s.bitmap.width);
             var rows := VisibleSpan(s.clip.y0, s.clip.y1, height, s.Y(), s.bitmap.height);
             s.bitmap.width == 0 || s.bitmap.height == 0 || cols.start >= cols.end || rows.start >= rows.end
    ensures Stamped(was, width, s) == was
  {
    hide Stamp.On;
    forall i | 0 <= i < |was| ensures Stamped(was, width, s)[i] == was[i] {
      StampVisible(was, width, height, s, i);
    }
  }

  lemma AllRowsStamped(was: seq<Pixel>, now: seq<Pixel>, width: nat, height: nat, s: Stamp)
    requires width > 0 && |was| == width * height
    requires var cols := VisibleSpan(s.clip.x0, s.clip.x1, width, s.X(), s.bitmap.width);
             var rows := VisibleSpan(s.clip.y0, s.clip.y1, height, s.Y(), s.bitmap.height);
             RowsStamped(was, now, width, s, cols, rows.start, rows.end)
    ensures now == Stamped(was, width, s)
  {
    hide Stamp.On, VisibleSpan;
    forall i | 0 <= i < |was| ensures now[i] == Stamped(was, width, s)[i] {
      StampVisible(was, width, height, s, i);
    }
  }

  // ----- a run, and the cache -----

  datatype GlyphKey = GlyphKey(font: nat, id: nat, size: Au)

  /** The outline rasteriser: one mask per face, glyph and size. */
  type Render = GlyphKey -> GlyphBitmap

  const MAX_CACHE_BYTES: nat := 16 * 1024 * 1024

  /** 1024 CSS pixels. */
  const MAX_GLYPH_SIZE: Au := 1024 * 60

  /** The coverage bytes held by a set of masks. */
  ghost function MaskBytes(entries: map<GlyphKey, GlyphBitmap>): nat
    decreases |entries|
  {
    if entries == map[] then 0
    else
      var key :| key in entries;
      |entries[key].alpha| + MaskBytes(entries - {key})
  }

  /** Whichever mask is taken out first, the sum is the same. */
  lemma {:induction false} MaskBytesWithout(entries: map<GlyphKey, GlyphBitmap>, key: GlyphKey)
    requires key in entries
    ensures MaskBytes(entries) == |entries[key].alpha| + MaskBytes(entries - {key})
    decreases |entries|
  {
    var first :| first in entries && MaskBytes(entries) == |entries[first].alpha| + MaskBytes(entries - {first});
    if first != key {
      MaskBytesWithout(entries - {first}, key);
      MaskBytesWithout(entries - {key}, first);
      assert entries - {first} - {key} == entries - {key} - {first};
    }
  }

  /** Storing a mask adds its bytes, less those of a mask it replaces. */
  lemma MaskBytesStored(entries: map<GlyphKey, GlyphBitmap>, key: GlyphKey, bitmap: GlyphBitmap)
    ensures MaskBytes(entries[key := bitmap]) ==
            MaskBytes(entries) + |bitmap.alpha| - if key in entries then |entries[key].alpha| else 0
  {
    MaskBytesWithout(entries[key := bitmap], key);
    if key in entries {
      MaskBytesWithout(entries, key);
      assert entries[key := bitmap] - {key} == entries - {key};
    } else {
      assert entries[key := bitmap] - {key} == entries;
    }
  }

  class GlyphCache {
    var entries: map<GlyphKey, GlyphBitmap>
    var bytes: nat

    constructor ()
      ensures entries == map[] && bytes == 0 && Accounted()
    {
      entries, bytes := map[], 0;
    }

    /** The counter is at least what the kept masks hold, and stays within the budget. */
    ghost predicate Accounted()
      reads this
    {
      MaskBytes(entries) <= bytes <= MAX_CACHE_BYTES
    }

    /** Every entry is what rasterising its key would give, and the counter is exactly their bytes. */
    ghost predicate Faithful(render: Render)
      reads this
    {
      && MaskBytes(entries) == bytes <= MAX_CACHE_BYTES
      && forall key :: key in entries ==> entries[key] == render(key)
    }

    method Get(key: GlyphKey) returns (r: Option<GlyphBitmap>)
      ensures r == if key in entries then Some(entries[key]) else None
    {
      r := if key in entries then Some(entries[key]) else None;
    }

    /**
     * Past the byte budget a mask is handed back without being kept. The counter
     * accounts for what is kept, exactly unless an entry was replaced.
     */
    method Insert(key: GlyphKey, bitmap: GlyphBitmap) returns (r: GlyphBitmap)
      modifies this
      ensures r == bitmap
      ensures MaskBytes(entries) - old(MaskBytes(entries)) <= bytes - old(bytes)
      ensures key !in old(entries) ==> MaskBytes(entries) - old(MaskBytes(entries)) == bytes - old(bytes)
      ensures old(Accounted()) ==> Accounted() && MaskBytes(entries) <= MAX_CACHE_BYTES
      ensures if old(bytes) + |bitmap.alpha| <= MAX_CACHE_BYTES
              then entries == old(entries)[key := bitmap] && bytes == old(bytes) + |bitmap.alpha|
              else entries == old(entries) && bytes == old(bytes)
    {
      r := bitmap;
      if bytes + |bitmap.alpha| <= MAX_CACHE_BYTES {
        MaskBytesStored(entries, key, bitmap);
        bytes := bytes + |bitmap.alpha|;
        entries := entries[key := bitmap];
      }
    }
  }

  /** A run's face is missing from the bundle, or its bytes are no font. */
  datatype RunError = FontNotBundled(font: nat) | FontUnparsable(font: nat)

  datatype RasterStats = RasterStats(glyphsRendered: nat, cacheHits: nat)

  function StampOf(run: GlyphRun, g: Glyph, clip: PixelClip, render: Render): Stamp {
    Stamp(render(GlyphKey(run.font, g.id, run.size)),
          RoundPx(SatAdd(run.origin.x, g.x)), RoundPx(SatAdd(run.origin.y, g.y)), run.color, clip)
  }

  /** The canvas after the first `n` glyphs of a run. */
  function GlyphsStamped(cells: seq<Pixel>, width: nat, run: GlyphRun, clip: PixelClip, render: Render,
                         n: nat): (r: seq<Pixel>)
    requires width > 0 && n <= |run.glyphs|
    ensures |r| == |cells|
  {
    if n == 0 then cells
    else Stamped(GlyphsStamped(cells, width, run, clip, render, n - 1), width,
                 StampOf(run, run.glyphs[n - 1], clip, render))
  }

  predicate Paints(run: GlyphRun, clip: Rect) {
    run.glyphs != [] && run.color.a != 0 && SnapInward(clip).Some? && 0 < run.size <= MAX_GLYPH_SIZE
  }

  /** What a run leaves on the canvas, with no word about caching. */
  function RunPainted(cells: seq<Pixel>, width: nat, run: GlyphRun, clip: Rect, render: Render): (r: seq<Pixel>)
    requires width > 0
    ensures |r| == |cells|
  {
    if Paints(run, clip) then GlyphsStamped(cells, width, run, SnapInward(clip).value, render, |run.glyphs|) else cells
  }

  /** What a cache holds, and the counters of the run that uses it. */
  datatype CacheState = CacheState(entries: map<GlyphKey, GlyphBitmap>, bytes: nat, stats: RasterStats)

  /** One mask asked for: a hit changes nothing, a miss rasterises it and keeps it while the budget lasts. */
  function Fetched(s: CacheState, key: GlyphKey, render: Render): CacheState {
    if key in s.entries then s.(stats := s.stats.(cacheHits := s.stats.cacheHits + 1))
    else
      var missed := s.(stats := s.stats.(glyphsRendered := s.stats.glyphsRendered + 1));
      var bytes := s.bytes + |render(key).alpha|;
      if bytes <= MAX_CACHE_BYTES then missed.(entries := s.entries[key := render(key)], bytes := bytes) else missed
  }

  /** The masks of the first `n` glyphs asked for in turn. */
  function AllFetched(s: CacheState, run: GlyphRun, render: Render, n: nat): CacheState
    requires n <= |run.glyphs|
  {
    if n == 0 then s
    else Fetched(AllFetched(s, run, render, n - 1), GlyphKey(run.font, run.glyphs[n - 1].id, run.size), render)
  }

  /** The bytes of the masks of the first `n` glyphs, each counted as often as it comes. */
  function BytesOf(run: GlyphRun, render: Render, n: nat): nat
    requires n <= |run.glyphs|
  {
    if n == 0 then 0
    else BytesOf(run, render, n - 1) + |render(GlyphKey(run.font, run.glyphs[n - 1].id, run.size)).alpha|
  }

  /** While the budget lasts every mask is rasterised once, as often as there are new entries, then kept. */
  lemma {:induction false} RenderedOnce(s: CacheState, run: GlyphRun, render: Render, n: nat)
    requires n <= |run.glyphs| && s.bytes + BytesOf(run, render, n) <= MAX_CACHE_BYTES
    ensures var r := AllFetched(s, run, render, n);
            && r.bytes <= s.bytes + BytesOf(run, render, n) && s.entries.Keys <= r.entries.Keys
            && r.stats.glyphsRendered - s.stats.glyphsRendered == |r.entries| - |s.entries|
            && r.stats.cacheHits - s.stats.cacheHits == n - (|r.entries| - |s.entries|)
            && forall k :: 0 <= k < n ==> GlyphKey(run.font, run.glyphs[k].id, run.size) in r.entries
  {
    if n > 0 {
      RenderedOnce(s, run, render, n - 1);
    }
  }

  /** The mask of one glyph, rasterised only when the cache does not have it. */
  method FetchMask(key: GlyphKey, cache: GlyphCache, render: Render, stats: RasterStats)
    returns (bitmap: GlyphBitmap, counted: RasterStats)
    requires cache.Faithful(render)
    modifies cache
    ensures bitmap == render(key) && cache.Faithful(render)
    ensures CacheState(cache.entries, cache.bytes, counted)
            == Fetched(CacheState(old(cache.entries), old(cache.bytes), stats), key, render)
    ensures counted.glyphsRendered + counted.cacheHits == stats.glyphsRendered + stats.cacheHits + 1
    ensures key in old(cache.entries) ==> counted.glyphsRendered == stats.glyphsRendered
  {
    var hit := cache.Get(key);
    if hit.Some? {
      return hit.value, stats.(cacheHits := stats.cacheHits + 1);
    }
    counted := stats.(glyphsRendered := stats.glyphsRendered + 1);
    bitmap := cache.Insert(key, render(key));
  }

  /**
   * An unknown face is an error even for a run that paints nothing, an unreadable one
   * only for a run that paints; otherwise the pixels do not depend on the cache.
   */
  method PaintRun(pixels: array<Pixel>, width: nat, height: nat, run: GlyphRun, known: nat -> bool, parses: nat -> bool,
                  clip: Rect, cache: GlyphCache, render: Render)
    returns (r: Result<RasterStats, RunError>)
    requires width > 0 && pixels.Length == width * height && cache.Faithful(render)
    modifies pixels, cache
    ensures cache.Faithful(render)
    ensures r.Err? <==> !known(run.font) || (Paints(run, clip) && !parses(run.font))
    ensures r.Err? ==> r.error == if known(run.font) then FontUnparsable(run.font)
            else RunError.FontNotBundled(run.font)
    ensures r.Err? ==> pixels[..] == old(pixels[..])
    ensures r.Ok? ==> pixels[..] == RunPainted(old(pixels[..]), width, run, clip, render)
    ensures r.Ok? ==> r.value.glyphsRendered + r.value.cacheHits == if Paints(run, clip) then |run.glyphs| else 0
    ensures r.Ok? ==>
              CacheState(cache.entries, cache.bytes, r.value)
              == AllFetched(CacheState(old(cache.entries), old(cache.bytes), RasterStats(0, 0)), run, render,
                            if Paints(run, clip) then |run.glyphs| else 0)
  {
    hide SnapInward, RoundPx, Stamped, Fetched;
    if !known(run.font) {
      return Err(RunError.FontNotBundled(run.font));
    }
    if run.glyphs == [] || run.color.a == 0 {
      return Ok(RasterStats(0, 0));
    }
    var snapped := SnapInward(clip);
    if snapped.None? || run.size <= 0 || run.size > MAX_GLYPH_SIZE {
      return Ok(RasterStats(0, 0));
    }
    if !parses(run.font) {
      return Err(FontUnparsable(run.font));
    }
    var stats := RasterStats(0, 0);
    for n := 0 to |run.glyphs|
      invariant cache.Faithful(render)
      invariant pixels[..] == GlyphsStamped(old(pixels[..]), width, run, snapped.value, render, n)
      invariant stats.glyphsRendered + stats.cacheHits == n
      invariant CacheState(cache.entries, cache.bytes, stats)
                == AllFetched(CacheState(old(cache.entries), old(cache.bytes), RasterStats(0, 0)), run, render, n)
    {
      var g := run.glyphs[n];
      var bitmap;
      bitmap, stats := FetchMask(GlyphKey(run.font, g.id, run.size), cache, render, stats);
      Blit(pixels, width, height,
           Stamp(bitmap, RoundPx(SatAdd(run.origin.x, g.x)), RoundPx(SatAdd(run.origin.y, g.y)), run.color,
                 snapped.value));
    }
    r := Ok(stats);
  }

  /** Through a whole run, pixels stay premultiplied and none changes that is not wholly inside the clip. */
  lemma {:induction false} RunKeeps(cells: seq<Pixel>, width: nat, run: GlyphRun, clip: Rect, render: Render, n: nat,
                                    i: nat)
    requires width > 0 && n <= |run.glyphs| && SnapInward(clip).Some? && i < |cells|
    requires AllPremultiplied(cells)
    ensures var after := GlyphsStamped(cells, width, run, SnapInward(clip).value, render, n);
            && AllPremultiplied(after)
            && (after[i] != cells[i] ==> WhollyInside(clip, i % width, i / width))
  {
    hide Stamp.On, Stamped, SnapInward, StampOf, PixelClip.Contains, Pixel.Premultiplied;
    if n > 0 {
      var snapped := SnapInward(clip).value;
      var before := GlyphsStamped(cells, width, run, snapped, render, n - 1);
      RunKeeps(cells, width, run, clip, render, n - 1, i);
      var s := StampOf(run, run.glyphs[n - 1], snapped, render);
      forall k | 0 <= k < |before| ensures Stamped(before, width, s)[k].Premultiplied() {
        StampedKeeps(before, width, s, k);
      }
      StampedKeeps(before, width, s, i);
      StampClip(run, run.glyphs[n - 1], snapped, render);
      SnapKeepsWholePixels(clip, i % width, i / width);
    }
  }

  lemma StampClip(run: GlyphRun, g: Glyph, clip: PixelClip, render: Render)
    ensures StampOf(run, g, clip, render).clip == clip
  {
  }
}
