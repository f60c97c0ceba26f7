/**
 * What a painted list contains, fragment by fragment and for the canvas, told from the
 * fragments' own boxes and styles.
 */
module PaintItems {
  import opened AppUnits
  import opened Geometry
  import opened Styles
  import opened Wrappers
  import opened BoxTrees
  import opened LayoutContext
  import opened Fragments
  import opened BlockFlow
  import opened FragmentOrder
  import opened DisplayLists
  import opened PaintBuild
  import opened PaintOrder
  import opened PaintLayout

  // ----- what the builder lets through -----

  /** A coordinate of both half-open spans. */
  predicate InBoth(v: Au, lo: Au, hi: Au, min: Au, max: Au) {
    lo <= v < hi && min <= v < max
  }

  /**
   * A span with extent overlaps a region exactly when they share a coordinate; one without must lie in it, edges
   * included.
   */
  lemma AxisOverlapsExactly(lo: Au, hi: Au, min: Au, max: Au)
    requires min < max
    ensures lo < hi ==> (AxisOverlaps(lo, hi, min, max) <==> exists v :: InBoth(v, lo, hi, min, max))
    ensures lo == hi ==> (AxisOverlaps(lo, hi, min, max) <==> min <= lo <= max)
  {
    if lo < hi && AxisOverlaps(lo, hi, min, max) {
      assert InBoth(Max(lo, min), lo, hi, min, max);
    }
  }

  /** The rect and the region share a point. */
  ghost predicate SharePoint(region: Region, r: Rect) {
    exists p: Point :: r.Contains(p) && region.low.x <= p.x < region.high.x && region.low.y <= p.y < region.high.y
  }

  /** A rect with extent is let through exactly when it shares a point with the region. */
  lemma IntersectsExactly(region: Region, r: Rect)
    requires region.low.x < region.high.x && region.low.y < region.high.y
    requires r.origin.x < r.Right() && r.origin.y < r.Bottom()
    ensures region.IntersectsRect(r) <==> SharePoint(region, r)
  {
    hide AxisOverlaps;
    if p: Point :| r.Contains(p) && region.low.x <= p.x < region.high.x && region.low.y <= p.y < region.high.y {
      assert InBoth(p.x, r.origin.x, r.Right(), region.low.x, region.high.x);
      assert InBoth(p.y, r.origin.y, r.Bottom(), region.low.y, region.high.y);
    }
    AxisOverlapsExactly(r.origin.x, r.Right(), region.low.x, region.high.x);
    AxisOverlapsExactly(r.origin.y, r.Bottom(), region.low.y, region.high.y);
    if region.IntersectsRect(r) {
      var x :| InBoth(x, r.origin.x, r.Right(), region.low.x, region.high.x);
      var y :| InBoth(y, r.origin.y, r.Bottom(), region.low.y, region.high.y);
      assert r.Contains(Point(x, y));
    }
  }

  /** `p` is at most `d` away from `q` on each axis. */
  predicate WithinReach(p: Point, q: Point, d: int) {
    -d <= p.x - q.x <= d && -d <= p.y - q.y <= d
  }

  /** The widened region is everything at most 4096 pixels, of 60 units each, from the bounds. */
  lemma RegionReach(bounds: Rect, p: Point)
    requires bounds.Representable()
    requires Fits(bounds.origin.x - 4096 * 60) && Fits(bounds.origin.y - 4096 * 60)
    requires Fits(bounds.origin.x + bounds.size.w + 4096 * 60) && Fits(bounds.origin.y + bounds.size.h + 4096 * 60)
    ensures Inflate(bounds).ContainsPoint(p)
            <==> exists q: Point ::
                   && bounds.origin.x <= q.x <= bounds.Right() && bounds.origin.y <= q.y <= bounds.Bottom()
                   && WithinReach(p, q, 4096 * 60)
  {
    if Inflate(bounds).ContainsPoint(p) {
      var q := Point(Max(bounds.origin.x, Min(p.x, bounds.Right())), Max(bounds.origin.y, Min(p.y, bounds.Bottom())));
      assert WithinReach(p, q, 4096 * 60);
    }
  }

  // ----- one fragment -----

  /** The width a side is painted with: its own when it is solid and positive, else none. */
  predicate PaintedSide(painted: Au, width: Au, solid: bool) {
    painted == if solid && width > 0 then width else 0
  }

  predicate SideShows(width: Au, solid: bool) {
    solid && width > 0
  }

  /** Some side of the border is to be seen. */
  predicate BorderShows(style: LayoutStyle) {
    || SideShows(style.borderWidth.top, style.borderSolid.top)
    || SideShows(style.borderWidth.right, style.borderSolid.right)
    || SideShows(style.borderWidth.bottom, style.borderSolid.bottom)
    || SideShows(style.borderWidth.left, style.borderSolid.left)
  }

  /** Every side is painted with its own width; nothing is painted when no side shows. */
  lemma BorderSides(style: LayoutStyle)
    ensures var r := SolidBorderWidths(style);
            && (r.Some? <==> BorderShows(style))
            && (r.Some? ==>
                  && PaintedSide(r.value.top, style.borderWidth.top, style.borderSolid.top)
                  && PaintedSide(r.value.right, style.borderWidth.right, style.borderSolid.right)
                  && PaintedSide(r.value.bottom, style.borderWidth.bottom, style.borderSolid.bottom)
                  && PaintedSide(r.value.left, style.borderWidth.left, style.borderSolid.left))
  {
  }

  /** The block's own background is to be seen. */
  predicate BackgroundShows(f: Fragment, style: LayoutStyle) {
    f.kind.Block? && style.background.a > 0 && f.borderBox.size.w > 0 && f.borderBox.size.h > 0
  }

  /** The item for a fragment's border, every side in its own width and colour around the border box. */
  predicate IsBorderOf(item: DisplayItem, f: Fragment, style: LayoutStyle) {
    && item.Border? && item.rect == f.borderBox && item.colors == style.borderColor
    && PaintedSide(item.widths.top, style.borderWidth.top, style.borderSolid.top)
    && PaintedSide(item.widths.right, style.borderWidth.right, style.borderSolid.right)
    && PaintedSide(item.widths.bottom, style.borderWidth.bottom, style.borderSolid.bottom)
    && PaintedSide(item.widths.left, style.borderWidth.left, style.borderSolid.left)
  }

  function IfShown(shown: bool, item: DisplayItem): seq<DisplayItem> {
    if shown then [item] else []
  }

  /** The clip a fragment opens, if it hides its overflow: its padding box as the builder trims it. */
  function ClipOf(f: Fragment, style: LayoutStyle, lens: Lens): seq<DisplayItem> {
    IfShown(style.overflow == Hidden, PushClip(lens.Trim(f.paddingBox)))
  }

  /**
   * A block that can be seen fills its border box with its background unless that went to
   * the canvas, then draws its border over it, then opens its clip. A block that cannot be
   * seen only opens its clip.
   */
  lemma BlockPaints(tree: FragmentTree, suppressed: Option<FragmentId>, lens: Lens, id: FragmentId)
    requires id < |tree.fragments| && tree.fragments[id].kind.Block?
    ensures var f := tree.fragments[id];
            var style := tree.StyleOf(f);
            var fill := lens.Shows(f.borderBox) && BackgroundShows(f, style) && suppressed != Some(id);
            var border := lens.Shows(f.borderBox) && BorderShows(style);
            var items := EnterItems(tree, suppressed, lens, id);
            && |items| == (if fill then 1 else 0) + (if border then 1 else 0)
                          + (if style.overflow == Hidden then 1 else 0)
            && (fill ==> items[0] == Fill(f.borderBox, style.background))
            && (border ==> IsBorderOf(items[if fill then 1 else 0], f, style))
            && (style.overflow == Hidden ==> items[|items| - 1] == PushClip(lens.Trim(f.paddingBox)))
  {
    hide Lens.Shows, Lens.Trim;
    BorderSides(tree.StyleOf(tree.fragments[id]));
  }

  /** Lines and anonymous blocks paint nothing of their own. */
  lemma PlainPaintsNothing(tree: FragmentTree, suppressed: Option<FragmentId>, lens: Lens, id: FragmentId)
    requires id < |tree.fragments| && (tree.fragments[id].kind.Line? || tree.fragments[id].kind.AnonymousBlock?)
    ensures EnterItems(tree, suppressed, lens, id)
            == ClipOf(tree.fragments[id], tree.StyleOf(tree.fragments[id]), lens)
  {
  }

  predicate RunShows(run: GlyphRun, lens: Lens) {
    run.glyphs != [] && lens.ShowsPoint(run.origin)
  }

  /** How many of the first `n` runs are painted. */
  function RunsShown(runs: seq<GlyphRun>, lens: Lens, n: nat): nat
    requires n <= |runs|
  {
    if n == 0 then 0 else RunsShown(runs, lens, n - 1) + if RunShows(runs[n - 1], lens) then 1 else 0
  }

  lemma {:induction false} RunsListed(runs: seq<GlyphRun>, lens: Lens)
    ensures var items := RunItems(runs, lens);
            && |items| == RunsShown(runs, lens, |runs|)
            && forall k :: 0 <= k < |runs| && RunShows(runs[k], lens) ==>
                 RunsShown(runs, lens, k) < |items| && items[RunsShown(runs, lens, k)] == Glyphs(runs[k])
  {
    hide RunShows;
    if runs != [] {
      var front := runs[..|runs| - 1];
      RunsListed(front, lens);
      forall k | 0 <= k <= |front| ensures RunsShown(front, lens, k) == RunsShown(runs, lens, k) {
        SameShown(front, runs, lens, k);
      }
      LastListed(runs, lens);
    }
  }

  lemma LastListed(runs: seq<GlyphRun>, lens: Lens)
    requires runs != []
    ensures var run := runs[|runs| - 1];
            RunItems(runs, lens) == RunItems(runs[..|runs| - 1], lens) + IfShown(RunShows(run, lens), Glyphs(run))
  {
  }

  lemma {:induction false} SameShown(a: seq<GlyphRun>, b: seq<GlyphRun>, lens: Lens, n: nat)
    requires n <= |a| <= |b| && a == b[..|a|]
    ensures RunsShown(a, lens, n) == RunsShown(b, lens, n)
  {
    hide RunShows;
    if n > 0 {
      SameShown(a, b, lens, n - 1);
    }
  }

  /** A text fragment paints exactly its runs that have glyphs and start in sight, in order. */
  lemma TextPaints(tree: FragmentTree, suppressed: Option<FragmentId>, lens: Lens, id: FragmentId)
    requires id < |tree.fragments| && tree.fragments[id].kind.Text?
    requires tree.StyleOf(tree.fragments[id]).overflow == Visible
    ensures var runs := tree.fragments[id].kind.runs;
            var items := EnterItems(tree, suppressed, lens, id);
            && |items| == RunsShown(runs, lens, |runs|)
            && forall k :: 0 <= k < |runs| && RunShows(runs[k], lens) ==>
                 RunsShown(runs, lens, k) < |items| && items[RunsShown(runs, lens, k)] == Glyphs(runs[k])
  {
    hide RunShows, RunItems, RunsShown;
    RunsListed(tree.fragments[id].kind.runs, lens);
  }

  // ----- the canvas -----

  /** The first fragment of an element of that name in document order, if there is one. */
  predicate IsFirst(tree: FragmentTree, names: Names, local: string, order: seq<FragmentId>, r: Option<FragmentId>)
    requires forall i :: 0 <= i < |order| ==> order[i] < |tree.fragments|
  {
    if r.None? then forall i :: 0 <= i < |order| ==> !IsElement(tree, names, local, order[i])
    else exists i :: 0 <= i < |order| && order[i] == r.value && IsElement(tree, names, local, order[i])
                     && forall j :: 0 <= j < i ==> !IsElement(tree, names, local, order[j])
  }

  predicate IsElement(tree: FragmentTree, names: Names, local: string, id: FragmentId)
    requires id < |tree.fragments|
  {
    var node := tree.fragments[id].node;
    node.Some? && names(node.value) == Some(local)
  }

  lemma {:induction false} FirstIsFirst(tree: FragmentTree, names: Names, local: string, order: seq<FragmentId>)
    requires forall i :: 0 <= i < |order| ==> order[i] < |tree.fragments|
    ensures IsFirst(tree, names, local, order, FirstNamed(tree, names, local, order))
  {
    hide IsElement;
    if order != [] {
      NamedIsElement(tree, names, local, order[0]);
      FirstIsFirst(tree, names, local, order[1..]);
      var r := FirstNamed(tree, names, local, order[1..]);
      if !IsElement(tree, names, local, order[0]) {
        if r.Some? {
          var i :| 0 <= i < |order[1..]| && order[1..][i] == r.value && IsElement(tree, names, local, order[1..][i])
                   && forall j :: 0 <= j < i ==> !IsElement(tree, names, local, order[1..][j]);
          forall j | 0 <= j < i + 1 ensures !IsElement(tree, names, local, order[j]) {
            assert j > 0 ==> order[j] == order[1..][j - 1];
          }
          assert order[i + 1] == r.value;
        } else {
          forall i | 0 <= i < |order| ensures !IsElement(tree, names, local, order[i]) {
            assert i > 0 ==> order[i] == order[1..][i - 1];
          }
        }
      }
    }
  }

  lemma NamedIsElement(tree: FragmentTree, names: Names, local: string, id: FragmentId)
    requires id < |tree.fragments|
    ensures Named(tree.fragments[id], names, local) == IsElement(tree, names, local, id)
  {
  }

  /** A fragment whose element gives a background that is not transparent. */
  predicate Gives(tree: FragmentTree, id: Option<FragmentId>) {
    id.Some? && id.value < |tree.fragments| && tree.StyleOf(tree.fragments[id.value]).background.a > 0
  }

  /** `from` gives the canvas its background: the first `html`, or failing that the first `body`, or nothing does. */
  ghost predicate GivesCanvas(tree: FragmentTree, names: Names, order: seq<FragmentId>, from: Option<FragmentId>)
    requires forall i :: 0 <= i < |order| ==> order[i] < |tree.fragments|
  {
    exists html, body ::
      && IsFirst(tree, names, "html", order, html) && IsFirst(tree, names, "body", order, body)
      && from == if Gives(tree, html) then html else if Gives(tree, body) then body else None
  }

  /**
   * The painted list: the viewport filled with the canvas background first, if an element
   * gives one and the viewport is not empty, then the tree in document order. The fragment
   * that gave it fills no box of its own; every other fragment paints as it would without
   * a canvas, so with none to give it no background is lost.
   */
  lemma CanvasExactly(tree: FragmentTree, names: Names)
    requires PostOrdered(tree.fragments) && tree.root < |tree.fragments|
    ensures forall i :: 0 <= i < |Order(tree.fragments, tree.root)| ==>
              Order(tree.fragments, tree.root)[i] < |tree.fragments|
    ensures exists from :: IsPaintedOver(tree, names, from)
  {
    hide Order, FindFrom, FirstNamed, WalkFrom, PaintTree, Inflate, IsFirst, EnterItems, Low;
    var order := Order(tree.fragments, tree.root);
    OrderInArena(tree.fragments, tree.root);
    FindIsFirstInOrder(tree, names, "html");
    FindIsFirstInOrder(tree, names, "body");
    FirstIsFirst(tree, names, "html", order);
    FirstIsFirst(tree, names, "body", order);
    var html, body := FirstNamed(tree, names, "html", order), FirstNamed(tree, names, "body", order);
    var from := if Gives(tree, html) then html else if Gives(tree, body) then body else None;
    var lens := Widened(Inflate(tree.Bounds()));
    WalkIsPaintOrder(tree, from, lens);
    SuppressedOnly(tree, from, lens);
    assert GivesCanvas(tree, names, order, from);
    assert IsPaintedOver(tree, names, from);
  }

  /** The builder's list is the canvas fill and the tree painted with `from` giving the canvas. */
  ghost predicate IsPaintedOver(tree: FragmentTree, names: Names, from: Option<FragmentId>)
    requires ChildrenFirst(tree.fragments) && tree.root < |tree.fragments|
    requires forall i :: 0 <= i < |Order(tree.fragments, tree.root)| ==>
               Order(tree.fragments, tree.root)[i] < |tree.fragments|
  {
    var lens := Widened(Inflate(tree.Bounds()));
    var shown := Gives(tree, from) && tree.viewport.w > 0 && tree.viewport.h > 0;
    && GivesCanvas(tree, names, Order(tree.fragments, tree.root), from)
    && BuiltItems(tree, names)
       == (if shown then [Fill(tree.Bounds(), tree.StyleOf(tree.fragments[from.value]).background)] else [])
          + PaintTree(tree, from, lens, tree.root)
    && PaintsWithout(tree, from, lens)
  }

  /** Only `from` paints differently for it, and it fills nothing. */
  ghost predicate PaintsWithout(tree: FragmentTree, from: Option<FragmentId>, lens: Lens) {
    forall id :: 0 <= id < |tree.fragments| ==>
      if from == Some(id) then forall k :: 0 <= k < |EnterItems(tree, from, lens, id)| ==>
                                 !EnterItems(tree, from, lens, id)[k].Fill?
      else EnterItems(tree, from, lens, id) == EnterItems(tree, None, lens, id)
  }

  lemma SuppressedOnly(tree: FragmentTree, from: Option<FragmentId>, lens: Lens)
    ensures PaintsWithout(tree, from, lens)
  {
    hide Lens.Shows, Lens.Trim, BorderItems;
    forall id | 0 <= id < |tree.fragments|
      ensures if from == Some(id) then forall k :: 0 <= k < |EnterItems(tree, from, lens, id)| ==>
                                         !EnterItems(tree, from, lens, id)[k].Fill?
              else EnterItems(tree, from, lens, id) == EnterItems(tree, None, lens, id)
    {
      BordersOnly(tree.fragments[id], tree.StyleOf(tree.fragments[id]));
      if tree.fragments[id].kind.Text? {
        RunsOnly(tree.fragments[id].kind.runs, lens);
      }
    }
  }

  /** The same for every laid-out page. */
  lemma PageCanvasExactly(env: Env, names: Names)
    requires WellFormed(env.tree)
    ensures var tree := Painted(env, LayRoot(env));
            && ChildrenFirst(tree.fragments) && tree.root < |tree.fragments|
            && (forall i :: 0 <= i < |Order(tree.fragments, tree.root)| ==>
                  Order(tree.fragments, tree.root)[i] < |tree.fragments|)
            && exists from :: IsPaintedOver(tree, names, from)
  {
    hide WellFormed, LayRoot, IsPaintedOver, Order, Low, Packed, PostOrdered;
    LayoutPacked(env);
    PackedIsPostOrdered(LayRoot(env).arena.fragments);
    var tree := Painted(env, LayRoot(env));
    CanvasExactly(tree, names);
  }
}
