/**
 * Where the lines and the text of one block end up on the finished page: lines under
 * one another across the content box, glyphs on their line's baseline.
 */
module LineGeometry {
  import opened AppUnits
  import opened Geometry
  import opened Styles
  import opened Wrappers
  import opened BoxTrees
  import opened LayoutContext
  import opened Fragments
  import opened FragmentShape
  import opened RelativePosition

  /** How tall the first `n` lines are together. */
  function HeightOf(lines: seq<LineBox>, n: nat): int
    requires n <= |lines|
  {
    if n == 0 then 0 else HeightOf(lines, n - 1) + lines[n - 1].height
  }

  function Advances(glyphs: seq<Glyph>): int {
    if glyphs == [] then 0 else glyphs[0].advance + Advances(glyphs[1..])
  }

  /** From the first run's start to where the last run's glyphs end. */
  function ExtentOf(runs: seq<GlyphRun>): int {
    if runs == [] then 0
    else
      var last := runs[|runs| - 1];
      last.origin.x + Advances(last.glyphs) - runs[0].origin.x
  }

  // ----- what is said about a finished page -----

  /** How far a subtree has been moved away from its static place. */
  datatype Shift = Shift(dx: int, dy: int)

  /** The same rectangle three times: inline fragments have no edges. */
  predicate Edgeless(f: Fragment) {
    f.paddingBox == f.borderBox && f.contentBox == f.borderBox
  }

  /**
   * A piece's fragment: as wide as its glyphs reach and as tall as its line, under its
   * text node and style. The glyphs stand on the baseline, where they would be without `s`.
   */
  ghost predicate TextAt(a: Arena, id: FragmentId, piece: TextPiece, line: LineBox, x: int, top: int,
                         style: LayoutStyle, s: Shift)
  {
    && id < |a.fragments| && a.fragments[id].kind.Text?
    && var f := a.fragments[id];
    var runs := f.kind.runs;
    && f.style < |a.styles|
    && (if piece.source.Some?
        then f.node == Some(piece.source.value.node) && a.styles[f.style] == piece.source.value.style
        else f.node.None? && a.styles[f.style] == style)
    && f.children == [] && Edgeless(f)
    && f.borderBox.origin.x == x + (if piece.runs == [] then 0 else piece.runs[0].origin.x)
    && f.borderBox.origin.y == top
    && f.borderBox.size.w == ExtentOf(piece.runs) && f.borderBox.size.h == line.height
    && |runs| == |piece.runs|
    && forall i :: 0 <= i < |runs| ==>
         && runs[i] == piece.runs[i].(origin := runs[i].origin)
         && runs[i].origin.x + s.dx == x + piece.runs[i].origin.x
         && runs[i].origin.y + s.dy == top + line.baseline + piece.runs[i].origin.y
  }

  /** A line's fragment, as wide as the content box, over one text fragment per piece. */
  ghost predicate LineAt(a: Arena, id: FragmentId, line: LineBox, x: int, top: int, width: Au, style: LayoutStyle,
                         s: Shift)
  {
    && id < |a.fragments| && a.fragments[id].kind.Line?
    && var f := a.fragments[id];
    && f.node.None? && f.style < |a.styles| && a.styles[f.style] == style && Edgeless(f)
    && f.borderBox.origin.x == x && f.borderBox.origin.y == top && f.borderBox.size == Size(width, line.height)
    && |f.children| == |line.pieces|
    && forall j :: 0 <= j < |line.pieces| ==>
         f.children[j] < id && TextAt(a, f.children[j], line.pieces[j], line, x, top, style, s)
  }

  /** The lines fill the content box from its top down, each as wide as the box. */
  ghost predicate LinesAt(a: Arena, ids: seq<FragmentId>, lines: seq<LineBox>, x: int, top: int, width: Au,
                          style: LayoutStyle, s: Shift)
  {
    && |ids| == |lines|
    && forall k :: 0 <= k < |lines| ==> LineAt(a, ids[k], lines[k], x, top + HeightOf(lines, k), width, style, s)
  }

  // ----- when nothing saturates -----

  ghost predicate PieceFits(piece: TextPiece, x: Au, y: int) {
    && Fits(y) && Fits(ExtentOf(piece.runs))
    && (forall i :: 0 <= i < |piece.runs| ==> Fits(x + piece.runs[i].origin.x) && Fits(y + piece.runs[i].origin.y))
    && (piece.runs != [] ==>
          var last := piece.runs[|piece.runs| - 1];
          forall n :: 0 <= n <= |last.glyphs| ==> Fits(x + last.origin.x + Advances(last.glyphs[..n])))
  }

  ghost predicate LineFits(line: LineBox, x: Au, top: int) {
    Fits(top) && forall j :: 0 <= j < |line.pieces| ==> PieceFits(line.pieces[j], x, top + line.baseline)
  }

  ghost predicate LinesFit(lines: seq<LineBox>, origin: Point) {
    && (forall n :: 0 <= n <= |lines| ==> Fits(HeightOf(lines, n)))
    && (forall k :: 0 <= k < |lines| ==> LineFits(lines[k], origin.x, origin.y + HeightOf(lines, k)))
  }

  // ----- one line -----

  lemma {:induction false} AdvanceIsSum(x: Au, glyphs: seq<Glyph>)
    requires forall n :: 0 <= n <= |glyphs| ==> Fits(x + Advances(glyphs[..n]))
    ensures AdvanceFrom(x, glyphs) == x + Advances(glyphs)
    decreases |glyphs|
  {
    if glyphs != [] {
      assert glyphs[..1][1..] == [];
      assert Advances(glyphs[..1]) == glyphs[0].advance;
      forall n | 0 <= n <= |glyphs[1..]| ensures Fits(x + glyphs[0].advance + Advances(glyphs[1..][..n])) {
        assert glyphs[..n + 1][1..] == glyphs[1..][..n];
        assert Advances(glyphs[..n + 1]) == glyphs[0].advance + Advances(glyphs[1..][..n]);
      }
      AdvanceIsSum(x + glyphs[0].advance, glyphs[1..]);
    }
  }

  lemma ExtentIsSum(piece: TextPiece, x: Au, y: Au)
    requires PieceFits(piece, x, y)
    ensures RunsWidth(TranslateAll(piece.runs, x, y)) == ExtentOf(piece.runs)
  {
    if piece.runs != [] {
      var last := piece.runs[|piece.runs| - 1];
      AdvanceIsSum(x + last.origin.x, last.glyphs);
    }
  }

  lemma TextPlaced(a: Arena, piece: TextPiece, line: LineBox, x: Au, top: Au, style: LayoutStyle)
    requires Indexed(a) && PieceFits(piece, x, top + line.baseline)
    ensures var runs := TranslateAll(piece.runs, x, SatAdd(top, line.baseline));
            var rect := Rect(Point(if runs == [] then x else runs[0].origin.x, top),
                             Size(RunsWidth(runs), line.height));
            TextAt(Push(a, piece.StyleIn(style), piece.Node(), Text(runs), rect, rect, rect, []), |a.fragments|, piece,
                   line, x, top, style, Shift(0, 0))
  {
    hide ExtentOf, RunsWidth;
    ExtentIsSum(piece, x, top + line.baseline);
  }

  /** What is in `a` stays as it is, whatever comes after it. */
  predicate Keeps(a: Arena, b: Arena) {
    a.fragments <= b.fragments && a.styles <= b.styles
  }

  lemma ExtendsKeeps(a: Arena, b: Arena)
    requires Extends(a, b)
    ensures Keeps(a, b)
  {
  }

  lemma TextKept(a: Arena, b: Arena, id: FragmentId, piece: TextPiece, line: LineBox, x: int, top: int,
                 style: LayoutStyle, s: Shift)
    requires Keeps(a, b) && TextAt(a, id, piece, line, x, top, style, s)
    ensures TextAt(b, id, piece, line, x, top, style, s)
  {
  }

  lemma {:induction false} PiecesPlaced(a: Arena, line: LineBox, origin: Point, top: Au, style: LayoutStyle, n: nat)
    requires Indexed(a) && n <= |line.pieces| && LineFits(line, origin.x, top)
    ensures var r := WithPieces(a, line, origin, top, style, n);
            && Extends(a, r)
            && forall j :: 0 <= j < n ==>
                 TextAt(r, |a.fragments| + j, line.pieces[j], line, origin.x, top, style, Shift(0, 0))
  {
    hide TextAt, PieceFits, RunsWidth, TranslateAll, Extends, Push, Keeps;
    if n == 0 {
      ExtendsRefl(a, a.error);
    } else {
      PiecesPlaced(a, line, origin, top, style, n - 1);
      var before := WithPieces(a, line, origin, top, style, n - 1);
      var r := WithPieces(a, line, origin, top, style, n);
      var piece := line.pieces[n - 1];
      ExtendsIndexed(a, before);
      TextPlaced(before, piece, line, origin.x, top, style);
      var runs := TranslateAll(piece.runs, origin.x, SatAdd(top, line.baseline));
      var rect := Rect(Point(if runs == [] then origin.x else runs[0].origin.x, top),
                       Size(RunsWidth(runs), line.height));
      PushExtends(a, before, piece.StyleIn(style), piece.Node(), Text(runs), rect, rect, rect, []);
      PushExtends(before, before, piece.StyleIn(style), piece.Node(), Text(runs), rect, rect, rect, []);
      ExtendsKeeps(before, r);
      forall j | 0 <= j < n
        ensures TextAt(r, |a.fragments| + j, line.pieces[j], line, origin.x, top, style, Shift(0, 0))
      {
        if j < n - 1 {
          TextKept(before, r, |a.fragments| + j, line.pieces[j], line, origin.x, top, style, Shift(0, 0));
        }
      }
    }
  }

  lemma LinePlaced(a: Arena, line: LineBox, origin: Point, width: Au, style: LayoutStyle, cursor: Au)
    requires Indexed(a) && Fits(origin.y + cursor) && LineFits(line, origin.x, origin.y + cursor)
    ensures var r := WithLine(a, line, origin, width, style, cursor);
            && Extends(a, r)
            && LineAt(r, |r.fragments| - 1, line, origin.x, origin.y + cursor, width, style, Shift(0, 0))
  {
    hide TextAt, LineFits, Extends, WithPieces, Continues;
    var top := SatAdd(origin.y, cursor);
    PiecesPlaced(a, line, origin, top, style, |line.pieces|);
    var before := WithPieces(a, line, origin, top, style, |line.pieces|);
    var r := WithLine(a, line, origin, width, style, cursor);
    var rect := Rect(Point(origin.x, top), Size(width, line.height));
    ExtendsIndexed(a, before);
    PushExtends(a, before, style, None, Line, rect, rect, rect, Range(|a.fragments|, |line.pieces|));
    ExtendsRefl(before, before.error);
    PushExtends(before, before, style, None, Line, rect, rect, rect, []);
    LineOver(before, |a.fragments|, line, origin.x, top, width, style);
  }

  lemma LineOver(a: Arena, base: nat, line: LineBox, x: Au, top: Au, width: Au, style: LayoutStyle)
    requires Indexed(a) && base + |line.pieces| == |a.fragments|
    requires forall j :: 0 <= j < |line.pieces| ==>
               TextAt(a, base + j, line.pieces[j], line, x, top, style, Shift(0, 0))
    ensures var rect := Rect(Point(x, top), Size(width, line.height));
            LineAt(Push(a, style, None, Line, rect, rect, rect, Range(base, |line.pieces|)), |a.fragments|, line, x,
                   top, width, style, Shift(0, 0))
  {
  }

  lemma LineKept(a: Arena, b: Arena, id: FragmentId, line: LineBox, x: int, top: int, width: Au, style: LayoutStyle,
                 s: Shift)
    requires Keeps(a, b) && LineAt(a, id, line, x, top, width, style, s)
    ensures LineAt(b, id, line, x, top, width, style, s)
  {
    hide TextAt;
    forall j | 0 <= j < |line.pieces|
      ensures TextAt(b, a.fragments[id].children[j], line.pieces[j], line, x, top, style, s)
    {
      TextKept(a, b, a.fragments[id].children[j], line.pieces[j], line, x, top, style, s);
    }
  }

  // ----- all lines of a block -----

  lemma {:induction false} LinesPlaced(a: Arena, lines: seq<LineBox>, origin: Point, width: Au, style: LayoutStyle,
                                       n: nat)
    requires Indexed(a) && n <= |lines| && LinesFit(lines, origin)
    ensures var r := WithLines(a, lines, origin, width, style, n);
            && Extends(a, r.arena) && r.height == HeightOf(lines, n)
            && forall k :: 0 <= k < n ==>
                 LineAt(r.arena, r.ids[k], lines[k], origin.x, origin.y + HeightOf(lines, k), width, style, Shift(0, 0))
  {
    hide LineAt, LinesFit, WithLine, Extends, WithLines, HeightOf, Keeps;
    LinesNext(a, lines, origin, width, style, n);
    if n == 0 {
      ExtendsRefl(a, a.error);
    } else {
      LinesPlaced(a, lines, origin, width, style, n - 1);
      var before := WithLines(a, lines, origin, width, style, n - 1);
      var r := WithLines(a, lines, origin, width, style, n);
      ExtendsIndexed(a, before.arena);
      TopFits(lines, origin, n - 1);
      LinePlaced(before.arena, lines[n - 1], origin, width, style, before.height);
      ExtendsTrans(a, before.arena, r.arena);
      ExtendsKeeps(before.arena, r.arena);
      forall k | 0 <= k < n
        ensures LineAt(r.arena, r.ids[k], lines[k], origin.x, origin.y + HeightOf(lines, k), width, style, Shift(0, 0))
      {
        if k < n - 1 {
          LineKept(before.arena, r.arena, before.ids[k], lines[k], origin.x, origin.y + HeightOf(lines, k), width,
                   style, Shift(0, 0));
        }
      }
    }
  }

  lemma LinesNext(a: Arena, lines: seq<LineBox>, origin: Point, width: Au, style: LayoutStyle, n: nat)
    requires n <= |lines|
    ensures var r := WithLines(a, lines, origin, width, style, n);
            if n == 0 then r == Lines(a, [], 0) && HeightOf(lines, n) == 0
            else
              var before := WithLines(a, lines, origin, width, style, n - 1);
              && r.arena == WithLine(before.arena, lines[n - 1], origin, width, style, before.height)
              && r.ids == before.ids + [|r.arena.fragments| - 1]
              && r.height == SatAdd(before.height, lines[n - 1].height)
              && HeightOf(lines, n) == HeightOf(lines, n - 1) + lines[n - 1].height
  {
    hide WithLine;
  }

  lemma TopFits(lines: seq<LineBox>, origin: Point, k: nat)
    requires LinesFit(lines, origin) && k < |lines|
    ensures Fits(origin.y + HeightOf(lines, k)) && Fits(HeightOf(lines, k + 1))
    ensures LineFits(lines[k], origin.x, origin.y + HeightOf(lines, k))
  {
  }

  /** `LinesAt` in one call. */
  lemma AllLinesPlaced(a: Arena, lines: seq<LineBox>, origin: Point, width: Au, style: LayoutStyle)
    requires Indexed(a) && LinesFit(lines, origin)
    ensures var r := WithLines(a, lines, origin, width, style, |lines|);
            && Extends(a, r.arena) && r.height == HeightOf(lines, |lines|)
            && LinesAt(r.arena, r.ids, lines, origin.x, origin.y, width, style, Shift(0, 0))
  {
    hide LineAt, LinesFit, WithLines, Extends;
    LinesPlaced(a, lines, origin, width, style, |lines|);
  }

  lemma AllLinesKept(a: Arena, b: Arena, ids: seq<FragmentId>, lines: seq<LineBox>, x: int, top: int, width: Au,
                     style: LayoutStyle, s: Shift)
    requires Keeps(a, b) && LinesAt(a, ids, lines, x, top, width, style, s)
    ensures LinesAt(b, ids, lines, x, top, width, style, s)
  {
    hide LineAt, Keeps, HeightOf;
    forall k | 0 <= k < |lines| ensures LineAt(b, ids[k], lines[k], x, top + HeightOf(lines, k), width, style, s) {
      LineKept(a, b, ids[k], lines[k], x, top + HeightOf(lines, k), width, style, s);
    }
  }

  // ----- an exact shift moves everything -----

  /** `b` is `a` with everything from `start` on moved by exactly `d`. */
  predicate MovedFrom(a: Arena, b: Arena, start: nat, d: Point) {
    && |b.fragments| == |a.fragments| && b.styles == a.styles
    && (forall i :: 0 <= i < start && i < |a.fragments| ==> b.fragments[i] == a.fragments[i])
    && (forall i :: start <= i < |a.fragments| ==> FragmentMoved(a.fragments[i], b.fragments[i], d.x, d.y))
  }

  /** Everything from `start` on only lists what comes from `start` on. */
  predicate ClosedFrom(a: Arena, start: nat) {
    forall i, k :: start <= i < |a.fragments| && 0 <= k < |a.fragments[i].children| ==>
                     start <= a.fragments[i].children[k] < |a.fragments|
  }

  function Plus(s: Shift, d: Point): Shift {
    Shift(s.dx + d.x, s.dy + d.y)
  }

  lemma LineMoved(a: Arena, b: Arena, start: nat, d: Point, id: FragmentId, line: LineBox, x: int, top: int, width: Au,
                  style: LayoutStyle, s: Shift)
    requires MovedFrom(a, b, start, d) && ClosedFrom(a, start) && start <= id
    requires LineAt(a, id, line, x, top, width, style, s)
    ensures LineAt(b, id, line, x + d.x, top + d.y, width, style, Plus(s, d))
  {
    hide TextAt, Edgeless, MovedFrom, ClosedFrom;
    var ids := a.fragments[id].children;
    LineRectMoved(a, b, start, d, id);
    ListedFrom(a, start, id);
    forall j | 0 <= j < |line.pieces|
      ensures TextAt(b, ids[j], line.pieces[j], line, x + d.x, top + d.y, style, Plus(s, d))
    {
      TextMoved(a, b, start, d, ids[j], line.pieces[j], line, x, top, style, s);
    }
  }

  lemma LineRectMoved(a: Arena, b: Arena, start: nat, d: Point, id: FragmentId)
    requires MovedFrom(a, b, start, d) && start <= id < |a.fragments|
    ensures |b.fragments| == |a.fragments| && b.styles == a.styles
    ensures FragmentMoved(a.fragments[id], b.fragments[id], d.x, d.y)
    ensures Edgeless(a.fragments[id]) ==> Edgeless(b.fragments[id])
  {
  }

  lemma TextMoved(a: Arena, b: Arena, start: nat, d: Point, id: FragmentId, piece: TextPiece, line: LineBox, x: int,
                  top: int, style: LayoutStyle, s: Shift)
    requires MovedFrom(a, b, start, d) && start <= id && TextAt(a, id, piece, line, x, top, style, s)
    ensures TextAt(b, id, piece, line, x + d.x, top + d.y, style, Plus(s, d))
  {
    hide ExtentOf;
  }

  lemma ListedFrom(a: Arena, start: nat, id: FragmentId)
    requires ClosedFrom(a, start) && start <= id < |a.fragments|
    ensures forall k :: 0 <= k < |a.fragments[id].children| ==> start <= a.fragments[id].children[k] < |a.fragments|
  {
  }

  lemma AllLinesMoved(a: Arena, b: Arena, start: nat, d: Point, ids: seq<FragmentId>, lines: seq<LineBox>, x: int,
                      top: int, width: Au, style: LayoutStyle, s: Shift)
    requires MovedFrom(a, b, start, d) && ClosedFrom(a, start) && forall k :: 0 <= k < |ids| ==> start <= ids[k]
    requires LinesAt(a, ids, lines, x, top, width, style, s)
    ensures LinesAt(b, ids, lines, x + d.x, top + d.y, width, style, Plus(s, d))
  {
    hide LineAt, MovedFrom, ClosedFrom, HeightOf;
    forall k | 0 <= k < |lines|
      ensures LineAt(b, ids[k], lines[k], x + d.x, top + d.y + HeightOf(lines, k), width, style, Plus(s, d))
    {
      LineMoved(a, b, start, d, ids[k], lines[k], x, top + HeightOf(lines, k), width, style, s);
    }
  }
}
