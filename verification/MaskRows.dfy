/**
 * Glyph masks as pictures: `height` rows of `width` bytes, the topmost row first. Which
 * byte of the picture each pixel of the canvas is blended with.
 */
module MaskRows {
  import opened AppUnits
  import opened Geometry
  import opened Styles
  import opened Wrappers
  import opened LayoutContext
  import opened Blit
  import opened GlyphMarks

  type Picture = seq<seq<Byte>>

  function Joined(rows: Picture): seq<Byte> {
    if rows == [] then [] else rows[0] + Joined(rows[1..])
  }

  /** The mask stores this picture row by row; its data may stop early. */
  predicate Stores(bitmap: GlyphBitmap, rows: Picture) {
    && |rows| == bitmap.height
    && (forall r :: 0 <= r < |rows| ==> |rows[r]| == bitmap.width)
    && bitmap.alpha <= Joined(rows)
  }

  /** The picture's byte in row `r` and column `c`, if the data reaches that far. */
  predicate Reached(bitmap: GlyphBitmap, r: nat, c: nat) {
    r < bitmap.height && c < bitmap.width && r * bitmap.width + c < |bitmap.alpha|
  }

  /** All of the picture is there. */
  predicate Whole(bitmap: GlyphBitmap, rows: Picture) {
    Stores(bitmap, rows) && bitmap.alpha == Joined(rows)
  }

  lemma {:induction false} JoinedAt(rows: Picture, width: nat, r: nat, c: nat)
    requires (forall k :: 0 <= k < |rows| ==> |rows[k]| == width) && r < |rows| && c < width
    ensures 0 <= r * width + c < |Joined(rows)| && Joined(rows)[r * width + c] == rows[r][c]
  {
    if r > 0 {
      JoinedAt(rows[1..], width, r - 1, c);
      assert r * width + c == width + ((r - 1) * width + c);
      assert Joined(rows)[width + ((r - 1) * width + c)] == Joined(rows[1..])[(r - 1) * width + c];
    } else {
      assert r * width + c == c;
      assert Joined(rows)[c] == rows[0][c];
    }
  }

  /** A cell's coverage is the picture's byte there. */
  lemma CoverageIsPicture(bitmap: GlyphBitmap, rows: Picture, r: nat, c: nat)
    requires Stores(bitmap, rows) && r < bitmap.height && c < bitmap.width
    ensures bitmap.Coverage(c, r) == if Reached(bitmap, r, c) then Some(rows[r][c]) else None
    ensures Whole(bitmap, rows) ==> Reached(bitmap, r, c)
  {
    JoinedAt(rows, bitmap.width, r, c);
  }

  /** A pixel with a colour over it at some coverage. */
  function Over(dst: Pixel, color: Rgba, mask: Byte): Pixel {
    match SourceOver(dst, color, mask)
    case None => dst
    case Some(p) => p
  }

  /** The pixel at column `x` and row `y` of a canvas. */
  function CellAt(x: nat, y: nat, width: nat): nat {
    y * width + x
  }

  /**
   * Blitting a picture with its pen at (penX, penY): row `r`, column `c` is blended into
   * the pixel at (penX + left + c, penY - top + r), wherever that lies on the canvas and
   * in the clip, and no other pixel changes.
   */
  lemma PictureIsBlended(cells: seq<Pixel>, width: nat, height: nat, s: Stamp, rows: Picture)
    requires width > 0 && |cells| == width * height && Stores(s.bitmap, rows)
    ensures forall r: nat, c: nat :: Reached(s.bitmap, r, c) ==>
              var x, y := s.penX + s.bitmap.left + c, s.penY - s.bitmap.top + r;
              0 <= x < width && 0 <= y < height && s.clip.Contains(x, y) ==>
                && CellAt(x, y, width) < |cells|
                && Stamped(cells, width, s)[CellAt(x, y, width)]
                   == Over(cells[CellAt(x, y, width)], s.color, rows[r][c])
    ensures forall i :: 0 <= i < |cells| && Stamped(cells, width, s)[i] != cells[i] ==>
              exists r: nat, c: nat ::
                && Reached(s.bitmap, r, c)
                && i % width == s.penX + s.bitmap.left + c && i / width == s.penY - s.bitmap.top + r
                && s.clip.Contains(i % width, i / width)
  {
    hide SourceOver, PixelClip.Contains, Stores, Reached, Stamped, Stamp.On, CellAt;
    forall r: nat, c: nat | Reached(s.bitmap, r, c)
      ensures var x, y := s.penX + s.bitmap.left + c, s.penY - s.bitmap.top + r;
              0 <= x < width && 0 <= y < height && s.clip.Contains(x, y) ==>
                && CellAt(x, y, width) < |cells| && r < |rows| && c < |rows[r]|
                && Stamped(cells, width, s)[CellAt(x, y, width)]
                   == Over(cells[CellAt(x, y, width)], s.color, rows[r][c])
    {
      PictureCell(cells, width, height, s, rows, r, c);
    }
    forall i | 0 <= i < |cells| && Stamped(cells, width, s)[i] != cells[i]
      ensures exists r: nat, c: nat ::
                && Reached(s.bitmap, r, c)
                && i % width == s.penX + s.bitmap.left + c && i / width == s.penY - s.bitmap.top + r
                && s.clip.Contains(i % width, i / width)
    {
      var r, c := ChangedCell(cells, width, s, rows, i);
    }
  }

  lemma PictureCell(cells: seq<Pixel>, width: nat, height: nat, s: Stamp, rows: Picture, r: nat, c: nat)
    requires width > 0 && |cells| == width * height && Stores(s.bitmap, rows) && Reached(s.bitmap, r, c)
    ensures r < |rows| && c < |rows[r]|
    ensures var x, y := s.penX + s.bitmap.left + c, s.penY - s.bitmap.top + r;
            0 <= x < width && 0 <= y < height && s.clip.Contains(x, y) ==>
              && CellAt(x, y, width) < |cells|
              && Stamped(cells, width, s)[CellAt(x, y, width)]
                 == Over(cells[CellAt(x, y, width)], s.color, rows[r][c])
  {
    hide SourceOver, PixelClip.Contains;
    var x, y := s.penX + s.bitmap.left + c, s.penY - s.bitmap.top + r;
    if 0 <= x < width && 0 <= y < height && s.clip.Contains(x, y) {
      CellOf(x, y, width);
      RowsFit(y, width, height);
      RowInside(y, width, |cells|);
      CoverageIsPicture(s.bitmap, rows, r, c);
      TransparentIsNothing(cells[CellAt(x, y, width)], s.color, rows[r][c]);
    }
  }

  lemma TransparentIsNothing(dst: Pixel, color: Rgba, mask: Byte)
    ensures mask == 0 ==> Over(dst, color, mask) == dst
  {
    hide Mul255;
    Mul255Ends(color.a);
  }

  /** A changed pixel lies under a cell of the picture. */
  lemma ChangedCell(cells: seq<Pixel>, width: nat, s: Stamp, rows: Picture, i: nat) returns (r: nat, c: nat)
    requires width > 0 && i < |cells| && Stores(s.bitmap, rows) && Stamped(cells, width, s)[i] != cells[i]
    ensures Reached(s.bitmap, r, c)
    ensures i % width == s.penX + s.bitmap.left + c && i / width == s.penY - s.bitmap.top + r
    ensures s.clip.Contains(i % width, i / width)
  {
    hide SourceOver, PixelClip.Contains, Stores;
    c, r := i % width - s.X(), i / width - s.Y();
    CoverageIsPicture(s.bitmap, rows, r, c);
  }

  // ----- runs -----

  /** Every mask of the renderer stores its picture. */
  ghost predicate AllStored(render: Render, pictures: GlyphKey -> Picture) {
    forall key :: Stores(render(key), pictures(key))
  }

  /** The byte of a glyph's picture over a pixel: its pen is the rounded sum of run origin and glyph offset. */
  function ByteOver(run: GlyphRun, g: Glyph, render: Render, pictures: GlyphKey -> Picture, x: int, y: int): Byte
    requires Stores(render(GlyphKey(run.font, g.id, run.size)), pictures(GlyphKey(run.font, g.id, run.size)))
  {
    var key := GlyphKey(run.font, g.id, run.size);
    var bitmap := render(key);
    var c := x - RoundPx(SatAdd(run.origin.x, g.x)) - bitmap.left;
    var r := y - RoundPx(SatAdd(run.origin.y, g.y)) + bitmap.top;
    if 0 <= c && 0 <= r && Reached(bitmap, r, c) then pictures(key)[r][c] else 0
  }

  /** The dabs of the first `n` glyphs at a pixel, from their pictures. */
  ghost function PictureDabs(run: GlyphRun, render: Render, pictures: GlyphKey -> Picture, x: int, y: int,
                             n: nat): seq<Dab>
    requires n <= |run.glyphs| && AllStored(render, pictures)
  {
    if n == 0 then []
    else
      var mask := ByteOver(run, run.glyphs[n - 1], render, pictures, x, y);
      PictureDabs(run, render, pictures, x, y, n - 1)
      + if Mul255(mask, run.color.a) > 0 then [Dab(run.color, mask)] else []
  }

  lemma CoverageIsByte(run: GlyphRun, g: Glyph, render: Render, pictures: GlyphKey -> Picture, x: int, y: int)
    requires Stores(render(GlyphKey(run.font, g.id, run.size)), pictures(GlyphKey(run.font, g.id, run.size)))
    ensures CoverageAt(run, g, render, x, y) == ByteOver(run, g, render, pictures, x, y)
  {
    hide RoundPx, Joined;
    var key := GlyphKey(run.font, g.id, run.size);
    var bitmap := render(key);
    var c := x - RoundPx(SatAdd(run.origin.x, g.x)) - bitmap.left;
    var r := y - RoundPx(SatAdd(run.origin.y, g.y)) + bitmap.top;
    if 0 <= c < bitmap.width && 0 <= r < bitmap.height {
      CoverageIsPicture(bitmap, pictures(key), r, c);
    }
  }

  lemma {:induction false} DabsArePictures(run: GlyphRun, render: Render, pictures: GlyphKey -> Picture, x: int, y: int,
                                           n: nat)
    requires n <= |run.glyphs| && AllStored(render, pictures)
    ensures GlyphDabs(run, render, x, y, n) == PictureDabs(run, render, pictures, x, y, n)
  {
    hide CoverageAt, ByteOver, Mul255, Stores;
    if n > 0 {
      DabsArePictures(run, render, pictures, x, y, n - 1);
      CoverageIsByte(run, run.glyphs[n - 1], render, pictures, x, y);
    }
  }

  /**
   * Painting a run blends, for every pixel wholly inside the clip and glyph by glyph, the
   * byte of the glyph's picture that lies over the pixel, and changes no other pixel.
   */
  lemma RunIsPictures(cells: seq<Pixel>, width: nat, run: GlyphRun, clip: Rect, render: Render,
                      pictures: GlyphKey -> Picture, i: nat)
    requires width > 0 && i < |cells| && AllStored(render, pictures)
    ensures var (x, y) := (i % width, i / width);
            RunPainted(cells, width, run, clip, render)[i]
            == if WhollyInside(clip, x, y) && Paintable(run)
               then Dabbed(cells[i], PictureDabs(run, render, pictures, x, y, |run.glyphs|)) else cells[i]
  {
    hide GlyphDabs, PictureDabs, WhollyInside, Blended, RunPainted;
    RunIsDabs(cells, width, run, clip, render, i);
    DabsArePictures(run, render, pictures, i % width, i / width, |run.glyphs|);
  }
}
