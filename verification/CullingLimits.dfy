/**
 * What culling loses: borders whose strips stick out of a box too far down or right to
 * have edges, and text whose glyphs reach the viewport from an origin beyond the
 * margin. Told from the fragments, at a point for borders and at a pixel for text.
 */
module CullingLimits {
  import opened AppUnits
  import opened Geometry
  import opened Styles
  import opened Wrappers
  import opened BoxTrees
  import opened LayoutContext
  import opened Fragments
  import opened BlockFlow
  import opened FragmentOrder
  import opened DisplayLists
  import opened PaintBuild
  import opened PaintOrder
  import opened PaintLayout
  import opened Raster
  import opened Blit
  import opened GlyphMarks
  import opened Culling
  import opened SmallPages

  // ----- one border -----

  /**
   * A strip lies outside its own rect at `p`. A strip is measured back from the far
   * edge, so it starts too early when that edge saturated: the bottom strip above the
   * rect, the right strip to the left of it.
   */
  predicate Escapes(rect: Rect, widths: Sides<Au>, colors: Sides<Rgba>, p: Point) {
    var top, bottom := ClampWidth(widths.top, rect.size.h), ClampWidth(widths.bottom, rect.size.h);
    var right := ClampWidth(widths.right, rect.size.w);
    || (colors.bottom.a > 0 && rect.origin.y + rect.size.h > AU_MAX
        && rect.origin.x <= p.x < rect.Right() && AU_MAX - bottom <= p.y < rect.origin.y)
    || (colors.right.a > 0 && rect.origin.x + rect.size.w > AU_MAX && top + bottom < rect.size.h
        && AU_MAX - right <= p.x < rect.origin.x
        && rect.origin.y + top <= p.y < rect.origin.y + rect.size.h - bottom)
  }

  lemma {:induction false} StripMarksExactly(strips: seq<Strip>, p: Point)
    ensures StripMarks(strips, p) != [] <==>
              exists k :: 0 <= k < |strips| && strips[k].rect.Contains(p) && strips[k].color.a > 0
  {
    hide Rect.Contains;
    if strips != [] {
      var n := |strips| - 1;
      StripMarksExactly(strips[..n], p);
      forall k | 0 <= k < n ensures strips[..n][k] == strips[k] {
      }
      if k :| 0 <= k < |strips| && strips[k].rect.Contains(p) && strips[k].color.a > 0 {
        assert k < n ==> strips[..n][k].rect.Contains(p);
      }
    }
  }

  lemma TopAndLeftStay(rect: Rect, widths: Sides<Au>, colors: Sides<Rgba>, p: Point)
    requires !rect.Contains(p)
    ensures var strips := Strips(rect, widths, colors);
            !strips[0].rect.Contains(p) && (|strips| == 4 ==> !strips[2].rect.Contains(p))
  {
  }

  lemma BottomEscapes(rect: Rect, widths: Sides<Au>, colors: Sides<Rgba>, p: Point)
    requires !rect.Contains(p) && p.x < AU_MAX && p.y < AU_MAX
    ensures Strips(rect, widths, colors)[1].rect.Contains(p) <==>
            && rect.origin.y + rect.size.h > AU_MAX && rect.origin.x <= p.x < rect.Right()
            && AU_MAX - ClampWidth(widths.bottom, rect.size.h) <= p.y < rect.origin.y
  {
  }

  lemma RightEscapes(rect: Rect, widths: Sides<Au>, colors: Sides<Rgba>, p: Point)
    requires !rect.Contains(p) && p.x < AU_MAX && p.y < AU_MAX
    ensures var strips := Strips(rect, widths, colors);
            var top, bottom := ClampWidth(widths.top, rect.size.h), ClampWidth(widths.bottom, rect.size.h);
            && (|strips| == 4 <==> top + bottom < rect.size.h)
            && (|strips| == 4 ==>
                  (strips[3].rect.Contains(p) <==>
                    && rect.origin.x + rect.size.w > AU_MAX
                    && AU_MAX - ClampWidth(widths.right, rect.size.w) <= p.x < rect.origin.x
                    && rect.origin.y + top <= p.y < rect.origin.y + rect.size.h - bottom))
  {
  }

  /** A border marks a point outside its rect exactly where a strip escapes, which takes a rect the check refuses. */
  lemma EscapesExactly(rect: Rect, widths: Sides<Au>, colors: Sides<Rgba>, p: Point)
    requires !rect.Contains(p) && p.x < AU_MAX && p.y < AU_MAX
    ensures StripMarks(Strips(rect, widths, colors), p) != [] <==> Escapes(rect, widths, colors, p)
    ensures Escapes(rect, widths, colors, p) ==> !rect.Representable()
  {
    TopAndLeftStay(rect, widths, colors, p);
    BottomEscapes(rect, widths, colors, p);
    RightEscapes(rect, widths, colors, p);
    StripMarksExactly(Strips(rect, widths, colors), p);
    var strips := Strips(rect, widths, colors);
    StripColors(rect, widths, colors);
    hide Rect.Contains, Strips, ClampWidth, Rect.Right, StripMarks;
    if Escapes(rect, widths, colors, p) {
      assert || (strips[1].rect.Contains(p) && strips[1].color.a > 0)
             || (|strips| == 4 && strips[3].rect.Contains(p) && strips[3].color.a > 0);
    }
  }

  lemma StripColors(rect: Rect, widths: Sides<Au>, colors: Sides<Rgba>)
    ensures var strips := Strips(rect, widths, colors);
            && (|strips| == 2 || |strips| == 4) && strips[1].color == colors.bottom
               && (|strips| == 4 ==> strips[3].color == colors.right)
  {
  }

  // ----- lists -----

  /** Where the picture is watched: a point, for boxes, or a pixel, for text. */
  datatype Watch = AtPoint(p: Point) | AtPixel(x: Index, y: Index, render: Render) {
    function First(): Point {
      match this
      case AtPoint(p) => p
      case AtPixel(x, y, _) => Near(x, y)
    }

    function Last(): Point {
      match this
      case AtPoint(p) => p
      case AtPixel(x, y, _) => Far(x, y)
    }

    predicate In(r: Rect) {
      r.Contains(First()) && r.Contains(Last())
    }

    predicate Admitted(canvas: Rect, open: seq<Rect>) {
      Raster.Admitted(canvas, open, First()) && Raster.Admitted(canvas, open, Last())
    }

    /** Culling drops the item although it leaves something here: a border at a point, a run at a pixel. */
    predicate Lost(item: DisplayItem, region: Region) {
      match this
      case AtPoint(p) => item.Border? && !region.IntersectsRect(item.rect) && ItemMarks(item, p) != []
      case AtPixel(x, y, render) =>
        item.Glyphs? && !region.ContainsPoint(item.run.origin) && RunDabs(item.run, render, x, y) != []
    }

    /**
     * The same told from a fragment: its border is culled and escapes to the point, or
     * one of its runs starts outside the region with a glyph on the pixel.
     */
    predicate OwnLost(f: Fragment, style: LayoutStyle, region: Region) {
      match this
      case AtPoint(p) =>
        && f.kind.Block? && !region.IntersectsRect(f.borderBox) && SolidBorderWidths(style).Some?
        && Escapes(f.borderBox, SolidBorderWidths(style).value, style.borderColor, p)
      case AtPixel(x, y, render) =>
        f.kind.Text? &&
        exists k :: 0 <= k < |f.kind.runs| && !region.ContainsPoint(f.kind.runs[k].origin)
                    && RunDabs(f.kind.runs[k], render, x, y) != []
    }
  }

  /** The clips open after `items` when `open` were open before. */
  function OpenFrom(open: seq<Rect>, items: seq<DisplayItem>): seq<Rect>
    decreases |items|
  {
    if items == [] then open else OpenFrom(OpenStep(open, items[0]), items[1..])
  }

  /** Some item is lost at a moment when the clips admit where `w` watches. */
  predicate LostIn(items: seq<DisplayItem>, open: seq<Rect>, region: Region, canvas: Rect, w: Watch) {
    items != [] &&
    ((w.Lost(items[0], region) && w.Admitted(canvas, open))
     || LostIn(items[1..], OpenStep(open, items[0]), region, canvas, w))
  }

  lemma {:induction false} OpenJoin(open: seq<Rect>, a: seq<DisplayItem>, b: seq<DisplayItem>)
    ensures OpenFrom(open, a + b) == OpenFrom(OpenFrom(open, a), b)
    decreases |a|
  {
    hide OpenStep;
    if a == [] {
      assert a + b == b;
    } else {
      assert (a + b)[1..] == a[1..] + b;
      OpenJoin(OpenStep(open, a[0]), a[1..], b);
    }
  }

  lemma {:induction false} LostJoin(a: seq<DisplayItem>, b: seq<DisplayItem>, open: seq<Rect>, region: Region,
                                    canvas: Rect, w: Watch)
    ensures LostIn(a + b, open, region, canvas, w) <==>
            LostIn(a, open, region, canvas, w) || LostIn(b, OpenFrom(open, a), region, canvas, w)
  {
    hide OpenStep, Watch.Lost, Watch.Admitted;
    if a == [] {
      assert a + b == b;
    } else {
      assert (a + b)[1..] == a[1..] + b;
      LostJoin(a[1..], b, OpenStep(open, a[0]), region, canvas, w);
    }
  }

  lemma OneLost(item: DisplayItem, open: seq<Rect>, region: Region, canvas: Rect, w: Watch)
    ensures LostIn([item], open, region, canvas, w) <==> w.Lost(item, region) && w.Admitted(canvas, open)
    ensures OpenFrom(open, [item]) == OpenStep(open, item)
  {
    hide OpenStep, Watch.Lost, Watch.Admitted;
    assert [item][1..] == [];
    assert !LostIn([], OpenStep(open, item), region, canvas, w);
  }

  lemma {:induction false} OpenIsOpenFrom(items: seq<DisplayItem>)
    ensures OpenClips(items) == OpenFrom([], items)
  {
    hide OpenStep;
    if items != [] {
      var before, last := items[..|items| - 1], items[|items| - 1];
      OpenIsOpenFrom(before);
      assert items == before + [last];
      OpenJoin([], before, [last]);
      assert [last][1..] == [];
    }
  }

  lemma {:induction false} InksJoin(a: seq<Mark>, b: seq<Mark>)
    ensures Inks(a + b) == Inks(a) + Inks(b)
    decreases |b|
  {
    if b == [] {
      assert a + b == a;
    } else {
      InksJoin(a, b[..|b| - 1]);
      assert (a + b)[..|a + b| - 1] == a + b[..|b| - 1];
    }
  }

  lemma {:induction false} AllInks(marks: seq<Mark>)
    requires forall k :: 0 <= k < |marks| ==> marks[k].Ink?
    ensures |Inks(marks)| == |marks|
  {
    if marks != [] {
      AllInks(marks[..|marks| - 1]);
    }
  }

  /** One item: culling loses its marks, or keeps all but a run that starts outside. */
  lemma CulledItem(item: DisplayItem, region: Region, p: Point)
    requires region.Upright() && Inside(region, p)
    ensures AtPoint(p).Lost(item, region) ==> CulledMarks(item, region, p) == [] && |Inks(ItemMarks(item, p))| > 0
    ensures !AtPoint(p).Lost(item, region) ==> CulledMarks(item, region, p) == Onstage(ItemMarks(item, p), region)
  {
    hide Region.Upright, Region.IntersectsRect, Region.ContainsPoint, Rect.Contains, Inside, ClampRect, Strips,
         EdgesFit, Inks;
    if item.Border? {
      var strips := Strips(item.rect, item.widths, item.colors);
      StripInks(strips, p);
      AllInks(StripMarks(strips, p));
      InkStays(StripMarks(strips, p), region);
    } else {
      CulledItemMarks(item, region, p);
    }
  }

  /** A list loses a colour at a point exactly when a border is lost there; otherwise only off-stage runs go. */
  lemma {:induction false} ListLoses(items: seq<DisplayItem>, region: Region, canvas: Rect, p: Point)
    requires region.Upright() && Inside(region, p)
    ensures var full, culled := Marks(items, canvas, p), Marks(Cull(items, region), canvas, p);
            && |Inks(culled)| <= |Inks(full)|
            && (LostIn(items, [], region, canvas, AtPoint(p)) ==> |Inks(culled)| < |Inks(full)|)
            && (!LostIn(items, [], region, canvas, AtPoint(p)) ==> culled == Onstage(full, region))
  {
    hide Region.Upright, InRegion, Rect.Contains, Inside, ClampRect, ItemMarks, EdgesFit, Watch.Lost, Admitted,
         CullItem, LostIn, OpenFrom, Inks, Onstage, OpenClips;
    if items == [] {
      NothingLost(region, canvas, p);
    } else {
      var before, last := items[..|items| - 1], items[|items| - 1];
      ListLoses(before, region, canvas, p);
      CulledClips(before, region, p);
      CullAtMostOne(last, region);
      MarksOfCulled(Cull(before, region), CullItem(last, region), canvas, p);
      assert Admitted(canvas, OpenClips(Cull(before, region)), p) <==> Admitted(canvas, OpenClips(before), p) by {
        SameAdmitted(OpenClips(before), OpenClips(Cull(before, region)), canvas, p);
      }
      assert items == before + [last];
      LostJoin(before, [last], [], region, canvas, AtPoint(p));
      OpenIsOpenFrom(before);
      OneLost(last, OpenClips(before), region, canvas, AtPoint(p));
      CulledItem(last, region, p);
      OnstageInks(ItemMarks(last, p), region);
      InksJoin(Marks(before, canvas, p), ItemMarks(last, p));
      InksJoin(Marks(Cull(before, region), canvas, p), CulledMarks(last, region, p));
      OnstageJoin(Marks(before, canvas, p), ItemMarks(last, p), region);
      assert Marks(before, canvas, p) + [] == Marks(before, canvas, p);
      assert Marks(Cull(before, region), canvas, p) + [] == Marks(Cull(before, region), canvas, p);
    }
  }

  lemma NothingLost(region: Region, canvas: Rect, p: Point)
    requires region.Upright()
    ensures Marks([], canvas, p) == [] && Cull([], region) == []
    ensures Onstage([], region) == [] && !LostIn([], [], region, canvas, AtPoint(p))
  {
  }

  predicate InsideAt(region: Region, w: Watch) {
    Inside(region, w.First()) && Inside(region, w.Last())
  }

  /** One item's text: culling drops it, or keeps it. */
  lemma CulledRun(item: DisplayItem, region: Region, w: Watch)
    requires region.Upright() && w.AtPixel?
    ensures var kept := CullItem(item, region);
            var dabs := if item.Glyphs? then RunDabs(item.run, w.render, w.x, w.y) else [];
            && |kept| <= 1
            && (w.Lost(item, region) ==> dabs != [] && kept == [])
            && (!w.Lost(item, region) ==>
                  dabs == if kept != [] && kept[0].Glyphs? then RunDabs(kept[0].run, w.render, w.x, w.y) else [])
  {
    hide Region.ContainsPoint, Region.IntersectsRect, RunDabs, ClampRect;
  }

  /** The text of a list loses a blend at a pixel exactly when a run is lost there, and otherwise stays as it is. */
  lemma {:induction false} ListLosesText(items: seq<DisplayItem>, region: Region, canvas: Rect, w: Watch)
    requires region.Upright() && w.AtPixel? && InsideAt(region, w)
    ensures var full, culled := TextMarks(items, canvas, w.render, w.x, w.y),
                                TextMarks(Cull(items, region), canvas, w.render, w.x, w.y);
            && |culled| <= |full|
            && (LostIn(items, [], region, canvas, w) ==> |culled| < |full|)
            && (!LostIn(items, [], region, canvas, w) ==> culled == full)
  {
    hide Region.Upright, Inside, CullItem, LostIn, OpenFrom, OpenClips, RunDabs, Watch.Lost, Admitted;
    if items == [] {
      NoTextLost(region, canvas, w);
    } else {
      var before, last := items[..|items| - 1], items[|items| - 1];
      ListLosesText(before, region, canvas, w);
      CulledClips(before, region, w.First());
      CulledClips(before, region, w.Last());
      SameAdmitted(OpenClips(before), OpenClips(Cull(before, region)), canvas, w.First());
      SameAdmitted(OpenClips(before), OpenClips(Cull(before, region)), canvas, w.Last());
      CulledRun(last, region, w);
      TextOfCulled(Cull(before, region), CullItem(last, region), canvas, w);
      assert items == before + [last];
      LostJoin(before, [last], [], region, canvas, w);
      OpenIsOpenFrom(before);
      OneLost(last, OpenClips(before), region, canvas, w);
      assert TextMarks(before, canvas, w.render, w.x, w.y) + [] == TextMarks(before, canvas, w.render, w.x, w.y);
    }
  }

  lemma NoTextLost(region: Region, canvas: Rect, w: Watch)
    requires region.Upright() && w.AtPixel?
    ensures TextMarks([], canvas, w.render, w.x, w.y) == [] && Cull([], region) == []
    ensures !LostIn([], [], region, canvas, w)
  {
  }

  lemma TextOfCulled(items: seq<DisplayItem>, added: seq<DisplayItem>, canvas: Rect, w: Watch)
    requires |added| <= 1 && w.AtPixel?
    ensures TextMarks(items + added, canvas, w.render, w.x, w.y) ==
            TextMarks(items, canvas, w.render, w.x, w.y) +
            if added != [] && added[0].Glyphs? && w.Admitted(canvas, OpenClips(items))
            then RunDabs(added[0].run, w.render, w.x, w.y) else []
  {
    hide RunDabs, Admitted;
    if added == [] {
      assert items + added == items;
    } else {
      assert (items + added)[..|items|] == items;
    }
  }

  lemma SameAdmitted(a: seq<Rect>, b: seq<Rect>, canvas: Rect, p: Point)
    requires SameClips(a, b, p)
    ensures Admitted(canvas, a, p) <==> Admitted(canvas, b, p)
  {
    hide Rect.Contains;
  }

  // ----- trees -----

  /** Some fragment at or below `id`, under clips that all hold where `w` watches, loses something there. */
  predicate Loses(tree: FragmentTree, region: Region, id: FragmentId, w: Watch)
    requires ChildrenFirst(tree.fragments) && id < |tree.fragments|
    decreases id, 1, 0
  {
    var f := tree.fragments[id];
    || w.OwnLost(f, tree.StyleOf(f), region)
    || ((Clips(tree.StyleOf(f)) ==> w.In(f.paddingBox)) && LosesBelow(tree, region, id, 0, w))
  }

  predicate LosesBelow(tree: FragmentTree, region: Region, id: FragmentId, k: nat, w: Watch)
    requires ChildrenFirst(tree.fragments) && id < |tree.fragments|
    decreases id, 0, |tree.fragments[id].children| - k
  {
    k < |tree.fragments[id].children| &&
    (Loses(tree, region, tree.fragments[id].children[k], w) || LosesBelow(tree, region, id, k + 1, w))
  }

  lemma {:induction false} PlainLost(items: seq<DisplayItem>, open: seq<Rect>, region: Region, canvas: Rect, w: Watch)
    requires ClipFree(items)
    ensures OpenFrom(open, items) == open
    ensures LostIn(items, open, region, canvas, w) <==>
            w.Admitted(canvas, open) && exists i :: 0 <= i < |items| && w.Lost(items[i], region)
  {
    hide Watch.Lost, Watch.Admitted;
    if items != [] {
      PlainLost(items[1..], open, region, canvas, w);
      assert OpenStep(open, items[0]) == open;
      if i :| 0 <= i < |items| && w.Lost(items[i], region) {
        assert i > 0 ==> items[1..][i - 1] == items[i];
      }
    }
  }

  /** The runs of a fragment, one by one. */
  lemma {:induction false} RunsLost(runs: seq<GlyphRun>, region: Region, w: Watch)
    ensures var items := RunItems(runs, Everything);
            (exists i :: 0 <= i < |items| && w.Lost(items[i], region)) <==>
            w.AtPixel? && exists k :: 0 <= k < |runs| && !region.ContainsPoint(runs[k].origin)
                                      && RunDabs(runs[k], w.render, w.x, w.y) != []
  {
    hide Region.ContainsPoint, GlyphDabs;
    if runs != [] {
      var before, last := runs[..|runs| - 1], runs[|runs| - 1];
      RunsLost(before, region, w);
      LastRun(before, last, region, w);
      assert before + [last] == runs;
      assert forall k :: 0 <= k < |before| ==> runs[k] == before[k];
    }
  }

  lemma LastItem(before: seq<GlyphRun>, last: GlyphRun)
    ensures RunItems(before + [last], Everything)
            == RunItems(before, Everything) + if last.glyphs == [] then [] else [Glyphs(last)]
  {
    assert (before + [last])[..|before|] == before;
  }

  lemma NothingToLose(run: GlyphRun, region: Region, w: Watch)
    requires run.glyphs == []
    ensures !w.Lost(Glyphs(run), region)
  {
  }

  lemma LastRun(before: seq<GlyphRun>, last: GlyphRun, region: Region, w: Watch)
    ensures var was, now := RunItems(before, Everything), RunItems(before + [last], Everything);
            (exists i :: 0 <= i < |now| && w.Lost(now[i], region)) <==>
            (exists i :: 0 <= i < |was| && w.Lost(was[i], region)) || w.Lost(Glyphs(last), region)
  {
    hide Watch.Lost, RunItems;
    LastItem(before, last);
    var was := RunItems(before, Everything);
    if last.glyphs == [] {
      assert was + [] == was;
      NothingToLose(last, region, w);
    } else {
      OneMore(was, Glyphs(last), region, w);
    }
  }

  lemma OneMore(items: seq<DisplayItem>, item: DisplayItem, region: Region, w: Watch)
    ensures (exists i :: 0 <= i < |items + [item]| && w.Lost((items + [item])[i], region)) <==>
            (exists i :: 0 <= i < |items| && w.Lost(items[i], region)) || w.Lost(item, region)
  {
    hide Watch.Lost;
    var now := items + [item];
    if i :| 0 <= i < |items| && w.Lost(items[i], region) {
      assert w.Lost(now[i], region);
    }
    if w.Lost(item, region) {
      assert w.Lost(now[|items|], region);
    }
  }

  lemma BoxLost(f: Fragment, style: LayoutStyle, suppressed: bool, region: Region, w: Watch)
    requires InsideAt(region, w) && f.kind.Block?
    ensures var items := Background(f, style, suppressed) + BorderItems(f, style);
            (exists i :: 0 <= i < |items| && w.Lost(items[i], region)) <==> w.OwnLost(f, style, region)
  {
    hide Rect.Contains, Region.IntersectsRect, Strips, StripMarks, Escapes, Inside;
    var back, border := Background(f, style, suppressed), BorderItems(f, style);
    var items := back + border;
    assert forall i :: 0 <= i < |back| ==> items[i] == back[i] && !w.Lost(back[i], region);
    assert forall i :: 0 <= i < |border| ==> items[|back| + i] == border[i];
    if border != [] && w.AtPoint? && !region.IntersectsRect(f.borderBox) {
      UnseenRect(region, f.borderBox, w.p);
      InsideFits(region, w.p);
      EscapesExactly(f.borderBox, SolidBorderWidths(style).value, style.borderColor, w.p);
      assert w.Lost(border[0], region) <==> w.OwnLost(f, style, region);
      assert w.Lost(border[0], region) ==> w.Lost(items[|back|], region);
    }
  }

  lemma TextLost(f: Fragment, style: LayoutStyle, region: Region, w: Watch)
    requires f.kind.Text?
    ensures var items := RunItems(f.kind.runs, Everything);
            (exists i :: 0 <= i < |items| && w.Lost(items[i], region)) <==> w.OwnLost(f, style, region)
  {
    hide Watch.Lost, RunDabs, Region.ContainsPoint, RunItems;
    RunsLost(f.kind.runs, region, w);
  }

  lemma OwnItemsLost(f: Fragment, style: LayoutStyle, suppressed: bool, region: Region, w: Watch)
    requires InsideAt(region, w)
    ensures var items := OwnItems(f, style, suppressed, Everything);
            (exists i :: 0 <= i < |items| && w.Lost(items[i], region)) <==> w.OwnLost(f, style, region)
  {
    hide Watch.Lost, Watch.OwnLost, Background, BorderItems, RunItems;
    match f.kind {
      case Block => BoxLost(f, style, suppressed, region, w);
      case AnonymousBlock => NothingOwn(f, style, region, w);
      case Line => NothingOwn(f, style, region, w);
      case Text(runs) =>
        TextLost(f, style, region, w);
        assert OwnItems(f, style, suppressed, Everything) == RunItems(f.kind.runs, Everything);
    }
  }

  lemma NothingOwn(f: Fragment, style: LayoutStyle, region: Region, w: Watch)
    requires !f.kind.Block? && !f.kind.Text?
    ensures !w.OwnLost(f, style, region)
  {
  }

  lemma InsideFits(region: Region, p: Point)
    requires Inside(region, p)
    ensures p.x < AU_MAX && p.y < AU_MAX
  {
  }

  lemma EnterLost(tree: FragmentTree, suppressed: Option<FragmentId>, id: FragmentId, open: seq<Rect>,
                  region: Region, canvas: Rect, w: Watch)
    requires id < |tree.fragments| && InsideAt(region, w)
    ensures var f := tree.fragments[id];
            var items := EnterItems(tree, suppressed, Everything, id);
            && OpenFrom(open, items) == (if Clips(tree.StyleOf(f)) then open + [f.paddingBox] else open)
            && (LostIn(items, open, region, canvas, w) <==>
                  w.Admitted(canvas, open) && w.OwnLost(f, tree.StyleOf(f), region))
  {
    hide OwnItems, Watch.Lost, Watch.Admitted, Watch.OwnLost, LostIn, OpenFrom, Inside;
    var f := tree.fragments[id];
    var style := tree.StyleOf(f);
    var own := OwnItems(f, style, suppressed == Some(id), Everything);
    OwnClipFree(f, style, suppressed == Some(id), Everything);
    OwnItemsLost(f, style, suppressed == Some(id), region, w);
    PlainLost(own, open, region, canvas, w);
    if Clips(style) {
      var push := PushClip(f.paddingBox);
      LostJoin(own, [push], open, region, canvas, w);
      OpenJoin(open, own, [push]);
      OneLost(push, open, region, canvas, w);
      PushNotLost(f.paddingBox, region, w);
    } else {
      assert EnterItems(tree, suppressed, Everything, id) == own;
    }
  }

  lemma PushNotLost(rect: Rect, region: Region, w: Watch)
    ensures !w.Lost(PushClip(rect), region) && !w.Lost(PopClip, region)
  {
  }

  lemma AdmittedUnder(canvas: Rect, open: seq<Rect>, rect: Rect, w: Watch)
    ensures w.Admitted(canvas, open + [rect]) <==> w.Admitted(canvas, open) && w.In(rect)
  {
    hide Rect.Contains, Admitted;
    AdmittedThroughOneMore(canvas, open, rect, w.First());
    AdmittedThroughOneMore(canvas, open, rect, w.Last());
  }

  /** A subtree's items leave the open clips as they were, and lose what its fragments lose. */
  lemma {:induction false} TreeLoses(tree: FragmentTree, suppressed: Option<FragmentId>, id: FragmentId,
                                     open: seq<Rect>,
                                     region: Region, canvas: Rect, w: Watch)
    requires ChildrenFirst(tree.fragments) && id < |tree.fragments| && InsideAt(region, w)
    ensures var items := PaintTree(tree, suppressed, Everything, id);
            && OpenFrom(open, items) == open
            && (LostIn(items, open, region, canvas, w) <==> w.Admitted(canvas, open) && Loses(tree, region, id, w))
    decreases id, 1, 0
  {
    hide EnterItems, Watch.Lost, Watch.Admitted, Watch.OwnLost, Watch.In, LostIn, OpenFrom, Inside, ChildrenFirst;
    var f := tree.fragments[id];
    var within := if Clips(tree.StyleOf(f)) then open + [f.paddingBox] else open;
    var enter := EnterItems(tree, suppressed, Everything, id);
    var children := PaintChildren(tree, suppressed, Everything, id, 0);
    var pop: seq<DisplayItem> := if Clips(tree.StyleOf(f)) then [PopClip] else [];
    EnterLost(tree, suppressed, id, open, region, canvas, w);
    ChildrenLose(tree, suppressed, id, 0, within, region, canvas, w);
    AdmittedUnder(canvas, open, f.paddingBox, w);
    LostJoin(enter, children, open, region, canvas, w);
    LostJoin(enter + children, pop, open, region, canvas, w);
    OpenJoin(open, enter, children);
    OpenJoin(open, enter + children, pop);
    PopLost(pop, within, open, f.paddingBox, region, canvas, w);
  }

  lemma PopLost(pop: seq<DisplayItem>, within: seq<Rect>, open: seq<Rect>, rect: Rect, region: Region,
                canvas: Rect, w: Watch)
    requires if pop == [] then within == open else pop == [PopClip] && within == open + [rect]
    ensures OpenFrom(within, pop) == open && !LostIn(pop, within, region, canvas, w)
  {
    if pop != [] {
      OneLost(PopClip, within, region, canvas, w);
    }
  }

  lemma {:induction false} ChildrenLose(tree: FragmentTree, suppressed: Option<FragmentId>, id: FragmentId, k: nat,
                                        open: seq<Rect>, region: Region, canvas: Rect, w: Watch)
    requires ChildrenFirst(tree.fragments) && id < |tree.fragments| && InsideAt(region, w)
    ensures var items := PaintChildren(tree, suppressed, Everything, id, k);
            && OpenFrom(open, items) == open
            && (LostIn(items, open, region, canvas, w) <==>
                  w.Admitted(canvas, open) && LosesBelow(tree, region, id, k, w))
    decreases id, 0, |tree.fragments[id].children| - k
  {
    hide PaintTree, Watch.Lost, Watch.Admitted, Loses, Inside;
    var list := tree.fragments[id].children;
    if k < |list| {
      var first := PaintTree(tree, suppressed, Everything, list[k]);
      var rest := PaintChildren(tree, suppressed, Everything, id, k + 1);
      TreeLoses(tree, suppressed, list[k], open, region, canvas, w);
      ChildrenLose(tree, suppressed, id, k + 1, open, region, canvas, w);
      LostJoin(first, rest, open, region, canvas, w);
      OpenJoin(open, first, rest);
    }
  }

  /**
   * When culling keeps the boxes, told from the fragments: at a point of the viewport
   * the built list paints what the full list paints, minus runs that start outside the
   * widened viewport, exactly when no culled border escapes to it.
   */
  lemma CullingKeepsExactly(tree: FragmentTree, names: Names, p: Point)
    requires PostOrdered(tree.fragments) && tree.root < |tree.fragments| && tree.Bounds().Contains(p)
    ensures var region := Inflate(tree.Bounds());
            var full := DrawMarks(Drawn(Items(tree, names, Everything), tree.Bounds()), p);
            var built := DrawMarks(Drawn(BuiltItems(tree, names), tree.Bounds()), p);
            && (built == Onstage(full, region) <==> !Loses(tree, region, tree.root, AtPoint(p)))
            && (Inks(built) == Inks(full) <==> !Loses(tree, region, tree.root, AtPoint(p)))
  {
    hide Items, BuiltItems, Inflate, Drawn, DrawMarks, Marks, Loses, LostIn, Low, Inks, Onstage, PostOrdered;
    var region, bounds := Inflate(tree.Bounds()), tree.Bounds();
    var all := Items(tree, names, Everything);
    SeenIsUpright(tree, p);
    ItemsClose(tree, names, Everything);
    BuiltBalance(tree, names);
    DrawnIsMeant(all, bounds, p);
    DrawnIsMeant(BuiltItems(tree, names), bounds, p);
    BuiltIsCulled(tree, names);
    ListLoses(all, region, bounds, p);
    OnstageInks(Marks(all, bounds, p), region);
    FullLoses(tree, names, AtPoint(p));
  }

  /**
   * When culling keeps the text, told from the fragments: at a pixel of the viewport the
   * built list blends the same glyphs in the same order as the full list exactly when no
   * run that starts outside the widened viewport has a glyph there.
   */
  lemma CullingKeepsText(tree: FragmentTree, names: Names, render: Render, x: Index, y: Index)
    requires PostOrdered(tree.fragments) && tree.root < |tree.fragments| && WhollyInside(tree.Bounds(), x, y)
    ensures var full := DrawnText(Drawn(Items(tree, names, Everything), tree.Bounds()), render, x, y);
            var built := DrawnText(Drawn(BuiltItems(tree, names), tree.Bounds()), render, x, y);
            built == full <==> !Loses(tree, Inflate(tree.Bounds()), tree.root, AtPixel(x, y, render))
  {
    hide Items, BuiltItems, Inflate, Drawn, DrawnText, TextMarks, Loses, LostIn, Low, PostOrdered, WhollyInside;
    var region, bounds := Inflate(tree.Bounds()), tree.Bounds();
    var w := AtPixel(x, y, render);
    var all := Items(tree, names, Everything);
    WhollyByCorners(bounds, x, y);
    SeenIsUpright(tree, w.First());
    SeenIsUpright(tree, w.Last());
    ItemsClose(tree, names, Everything);
    BuiltBalance(tree, names);
    DrawnTextIsMeant(all, bounds, render, x, y);
    DrawnTextIsMeant(BuiltItems(tree, names), bounds, render, x, y);
    BuiltIsCulled(tree, names);
    ListLosesText(all, region, bounds, w);
    FullLoses(tree, names, w);
  }

  lemma SeenIsUpright(tree: FragmentTree, p: Point)
    requires tree.Bounds().Contains(p)
    ensures Inflate(tree.Bounds()).Upright() && Inside(Inflate(tree.Bounds()), p)
  {
  }

  lemma FullLoses(tree: FragmentTree, names: Names, w: Watch)
    requires PostOrdered(tree.fragments) && tree.root < |tree.fragments| && w.In(tree.Bounds())
    ensures var region := Inflate(tree.Bounds());
            LostIn(Items(tree, names, Everything), [], region, tree.Bounds(), w) <==> Loses(tree, region, tree.root, w)
  {
    hide WalkFrom, PaintTree, CanvasBackground, Inflate, Loses, LostIn, OpenFrom, Low, PostOrdered, Rect.Contains;
    var canvas := CanvasBackground(tree, names);
    var region := Inflate(tree.Bounds());
    SeenIsUpright(tree, w.First());
    SeenIsUpright(tree, w.Last());
    PostIsFirst(tree.fragments);
    WalkIsPaintOrder(tree, canvas.suppressed, Everything);
    var fill := CanvasItems(tree, canvas);
    PlainLost(fill, [], region, tree.Bounds(), w);
    assert forall i :: 0 <= i < |fill| ==> !w.Lost(fill[i], region);
    LostJoin(fill, PaintTree(tree, canvas.suppressed, Everything, tree.root), [], region, tree.Bounds(), w);
    TreeLoses(tree, canvas.suppressed, tree.root, [], region, tree.Bounds(), w);
  }

  lemma PostIsFirst(fragments: seq<Fragment>)
    requires PostOrdered(fragments)
    ensures ChildrenFirst(fragments)
  {
  }

  // ----- a page that loses a border -----

  /** A box far below the viewport under a bottom border as thick as numbers go. */
  const FAR := INITIAL.(
    display := Display.Block, margin := Sides(Px(1000000), Px(0), Px(0), Px(0)),
    borderSolid := Sides(false, false, true, false), borderWidth := Sides(0, 0, AU_MAX, 0))

  lemma FarBox(env: Env)
    requires env.tree == OneBox(FAR) && env.viewport == Size(48000, 36000)
    ensures OwnBox(env) == Rect(Point(0, 1000000), Size(48000, AU_MAX))
  {
  }

  /** That box is culled, and its border, left in, would paint the top left corner of the viewport. */
  lemma FarBorderIsLost(env: Env, names: Names)
    requires env.tree == OneBox(FAR) && env.viewport == Size(48000, 36000)
    ensures WellFormed(env.tree)
    ensures var tree := Painted(env, LayRoot(env));
            var full := DrawMarks(Drawn(Items(tree, names, Everything), tree.Bounds()), ORIGIN);
            var built := DrawMarks(Drawn(BuiltItems(tree, names), tree.Bounds()), ORIGIN);
            tree.Bounds().Contains(ORIGIN) && Inks(built) != Inks(full)
  {
    hide LayRoot, WellFormed, BuiltItems, OwnBox, Items, Drawn, DrawMarks, Inks, Onstage;
    OneBoxLaid(env, FAR);
    FarBox(env);
    var tree := Painted(env, LayRoot(env));
    assert PostOrdered(tree.fragments);
    CullingKeepsExactly(tree, names, ORIGIN);
    FarEscapes();
    assert AtPoint(ORIGIN).OwnLost(tree.fragments[0], tree.StyleOf(tree.fragments[0]), Inflate(tree.Bounds()));
  }

  lemma FarEscapes()
    ensures var box := Rect(Point(0, 1000000), Size(48000, AU_MAX));
            && SolidBorderWidths(FAR) == Some(Sides(0, 0, AU_MAX, 0))
            && Escapes(box, Sides(0, 0, AU_MAX, 0), FAR.borderColor, ORIGIN)
            && !Inflate(Rect(ORIGIN, Size(48000, 36000))).IntersectsRect(box)
  {
  }
}
