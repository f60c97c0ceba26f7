/**
 * Fragments and the arena layout appends them to, the relative-positioning
 * shift, and the line and text fragments of one block's inline content.
 */
module Fragments {
  import opened AppUnits
  import opened Geometry
  import opened Styles
  import opened Wrappers
  import opened BoxTrees
  import opened LayoutContext

  type FragmentId = nat
  type StyleId = nat

  datatype FragmentKind = Block | AnonymousBlock | Line | Text(runs: seq<GlyphRun>)

  datatype Fragment = Fragment(
    node: Option<NodeId>,
    kind: FragmentKind,
    borderBox: Rect,
    paddingBox: Rect,
    contentBox: Rect,
    style: StyleId,
    children: seq<FragmentId>)

  /** Everything a layout pass has produced so far. */
  datatype Arena = Arena(fragments: seq<Fragment>, styles: seq<LayoutStyle>, error: Option<LayoutError>)

  /** A finished layout; an id that names no style falls back to the initial one. */
  datatype FragmentTree = FragmentTree(fragments: seq<Fragment>, styles: seq<LayoutStyle>, root: FragmentId,
                                       viewport: Size) {
    function Bounds(): Rect {
      Rect(ORIGIN, viewport)
    }

    function StyleOf(f: Fragment): LayoutStyle {
      if f.style < |styles| then styles[f.style] else INITIAL
    }
  }

  function ShiftRect(r: Rect, d: Point): Rect {
    Rect(Point(SatAdd(r.origin.x, d.x), SatAdd(r.origin.y, d.y)), r.size)
  }

  /** Moves the three rects; the glyph runs of a text fragment keep their origins. */
  function ShiftFragment(f: Fragment, d: Point): Fragment {
    f.(borderBox := ShiftRect(f.borderBox, d),
       paddingBox := ShiftRect(f.paddingBox, d),
       contentBox := ShiftRect(f.contentBox, d))
  }

  /** The fragments from `start` on moved by `d`, the ones before it untouched. */
  function ShiftFrom(fragments: seq<Fragment>, start: nat, d: Point): (r: seq<Fragment>)
    ensures |r| == |fragments|
    ensures forall i :: 0 <= i < |r| ==> r[i] == if i < start then fragments[i] else ShiftFragment(fragments[i], d)
  {
    seq(|fragments|, i requires 0 <= i < |fragments| => if i < start then fragments[i]
        else ShiftFragment(fragments[i], d))
  }

  /** The shift happens only for a relatively positioned box. */
  function Positioned(a: Arena, start: nat, style: LayoutStyle, d: Point): Arena {
    if style.position.Relative? then a.(fragments := ShiftFrom(a.fragments, start, d)) else a
  }

  function Push(a: Arena, style: LayoutStyle, node: Option<NodeId>, kind: FragmentKind,
                border: Rect, padding: Rect, content: Rect, children: seq<FragmentId>): Arena {
    Arena(a.fragments + [Fragment(node, kind, border, padding, content, |a.styles|, children)], a.styles + [style],
          a.error)
  }

  // ----- inline content -----

  function Translate(run: GlyphRun, x: Au, y: Au): GlyphRun {
    run.(origin := Point(SatAdd(x, run.origin.x), SatAdd(y, run.origin.y)))
  }

  function TranslateAll(runs: seq<GlyphRun>, x: Au, y: Au): (r: seq<GlyphRun>)
    ensures |r| == |runs|
  {
    seq(|runs|, i requires 0 <= i < |runs| => Translate(runs[i], x, y))
  }

  function AdvanceFrom(x: Au, glyphs: seq<Glyph>): Au
    decreases |glyphs|
  {
    if glyphs == [] then x else AdvanceFrom(SatAdd(x, glyphs[0].advance), glyphs[1..])
  }

  /** From the first run's origin to the end of the last run's last glyph. */
  function RunsWidth(runs: seq<GlyphRun>): Au {
    if runs == [] then 0
    else
      var last := runs[|runs| - 1];
      SatSub(AdvanceFrom(last.origin.x, last.glyphs), runs[0].origin.x)
  }

  /** One text fragment per piece of the line, in order. */
  function WithPieces(a: Arena, line: LineBox, origin: Point, lineTop: Au, style: LayoutStyle, n: nat): (r: Arena)
    requires n <= |line.pieces|
    ensures |r.fragments| == |a.fragments| + n && |r.styles| == |a.styles| + n && r.error == a.error
  {
    if n == 0 then a
    else
      var piece := line.pieces[n - 1];
      var runs := TranslateAll(piece.runs, origin.x, SatAdd(lineTop, line.baseline));
      var rect := Rect(Point(if runs == [] then origin.x else runs[0].origin.x, lineTop),
                       Size(RunsWidth(runs), line.height));
      Push(WithPieces(a, line, origin, lineTop, style, n - 1), piece.StyleIn(style), piece.Node(), Text(runs),
           rect, rect, rect, [])
  }

  function Range(lo: nat, n: nat): (r: seq<nat>)
    ensures |r| == n && forall i :: 0 <= i < n ==> r[i] == lo + i
  {
    seq(n, i => lo + i)
  }

  /** A line's text fragments followed by the line's own, full-width fragment. */
  function WithLine(a: Arena, line: LineBox, origin: Point, width: Au, style: LayoutStyle, cursor: Au): (r: Arena)
    ensures |r.fragments| == |a.fragments| + |line.pieces| + 1
    ensures |r.styles| == |a.styles| + |line.pieces| + 1 && r.error == a.error
  {
    var lineTop := SatAdd(origin.y, cursor);
    var rect := Rect(Point(origin.x, lineTop), Size(width, line.height));
    Push(WithPieces(a, line, origin, lineTop, style, |line.pieces|), style, None, Line, rect, rect, rect,
         Range(|a.fragments|, |line.pieces|))
  }

  datatype Lines = Lines(arena: Arena, ids: seq<FragmentId>, height: Au)

  /** The first `n` lines stacked under one another. */
  function WithLines(a: Arena, lines: seq<LineBox>, origin: Point, width: Au, style: LayoutStyle, n: nat): (r: Lines)
    requires n <= |lines|
    ensures |r.arena.fragments| >= |a.fragments| && |r.ids| == n
    ensures |r.arena.fragments| - |a.fragments| == |r.arena.styles| - |a.styles| && r.arena.error == a.error
  {
    if n == 0 then Lines(a, [], 0)
    else
      var before := WithLines(a, lines, origin, width, style, n - 1);
      var arena := WithLine(before.arena, lines[n - 1], origin, width, style, before.height);
      Lines(arena, before.ids + [|arena.fragments| - 1], SatAdd(before.height, lines[n - 1].height))
  }

  method RunsExtent(runs: seq<GlyphRun>) returns (w: Au)
    ensures w == RunsWidth(runs)
  {
    if runs == [] {
      return 0;
    }
    var last := runs[|runs| - 1];
    var end := last.origin.x;
    for i := 0 to |last.glyphs|
      invariant AdvanceFrom(end, last.glyphs[i..]) == AdvanceFrom(last.origin.x, last.glyphs)
    {
      end := SatAdd(end, last.glyphs[i].advance);
      assert last.glyphs[i..][1..] == last.glyphs[i + 1..];
    }
    w := SatSub(end, runs[0].origin.x);
  }

  /** The text fragments of one line, with their ids. */
  method AppendPieces(a: Arena, line: LineBox, origin: Point, lineTop: Au, style: LayoutStyle)
    returns (arena: Arena, children: seq<FragmentId>)
    ensures arena == WithPieces(a, line, origin, lineTop, style, |line.pieces|)
    ensures children == Range(|a.fragments|, |line.pieces|)
  {
    hide RunsWidth, TranslateAll;
    arena, children := a, [];
    for k := 0 to |line.pieces|
      invariant arena == WithPieces(a, line, origin, lineTop, style, k)
      invariant children == Range(|a.fragments|, k)
    {
      var piece := line.pieces[k];
      var runs := TranslateAll(piece.runs, origin.x, SatAdd(lineTop, line.baseline));
      var extent := RunsExtent(runs);
      var rect := Rect(Point(if runs == [] then origin.x else runs[0].origin.x, lineTop), Size(extent, line.height));
      children := children + [|arena.fragments|];
      arena := Push(arena, piece.StyleIn(style), piece.Node(), Text(runs), rect, rect, rect, []);
    }
  }

  /** Turns shaped lines into line fragments with text children, positioned absolutely. */
  method BuildFragments(a: Arena, lines: seq<LineBox>, origin: Point, width: Au, style: LayoutStyle)
    returns (r: Lines)
    ensures r == WithLines(a, lines, origin, width, style, |lines|)
  {
    hide WithPieces;
    var arena, ids: seq<FragmentId>, cursor: Au := a, [], 0;
    for n := 0 to |lines|
      invariant Lines(arena, ids, cursor) == WithLines(a, lines, origin, width, style, n)
    {
      var line := lines[n];
      var lineTop := SatAdd(origin.y, cursor);
      var children;
      arena, children := AppendPieces(arena, line, origin, lineTop, style);
      var rect := Rect(Point(origin.x, lineTop), Size(width, line.height));
      ids := ids + [|arena.fragments|];
      arena := Push(arena, style, None, Line, rect, rect, rect, children);
      cursor := SatAdd(cursor, line.height);
    }
    r := Lines(arena, ids, cursor);
  }
}
