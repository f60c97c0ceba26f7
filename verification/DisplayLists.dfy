/**
 * Display lists and the check a list must pass before it is painted: every
 * number in it is usable, nothing lies wholly outside the widened bounds, and
 * its clips balance.
 */
module DisplayLists {
  import opened AppUnits
  import opened Geometry
  import opened Styles
  import opened Wrappers
  import opened LayoutContext

  datatype DisplayItem =
    | Fill(rect: Rect, color: Rgba)
    | Border(rect: Rect, widths: Sides<Au>, colors: Sides<Rgba>)
    | Glyphs(run: GlyphRun)
    | PushClip(rect: Rect)
    | PopClip

  datatype DisplayListError =
    | TooManyItems(count: nat)
    | TooManyGlyphs(index: nat)
    | InvalidRect(index: nat)
    | OutOfBounds(index: nat)
    | PopWithoutPush(index: nat)
    | TooDeepClip(index: nat)
    | UnbalancedClip(depthAtEnd: nat)
    | InvalidBounds

  const MAX_ITEMS: nat := 1_000_000
  const MAX_GLYPHS_PER_RUN: nat := 65_536
  const MAX_CLIP_DEPTH: nat := 256

  /** 4096 CSS pixels. */
  const OFFSCREEN_MARGIN: Au := 4096 * 60

  // ----- the widened region -----

  /** Corners of a region; `low` is inside, and so is `high` for single points. */
  datatype Region = Region(low: Point, high: Point) {
    predicate IntersectsRect(r: Rect) {
      AxisOverlaps(r.origin.x, r.Right(), low.x, high.x) && AxisOverlaps(r.origin.y, r.Bottom(), low.y, high.y)
    }

    predicate ContainsPoint(p: Point) {
      low.x <= p.x <= high.x && low.y <= p.y <= high.y
    }

    predicate Upright() {
      low.x <= high.x && low.y <= high.y
    }
  }

  /** A span with extent overlaps half-open; a degenerate one is tested as a point of the closed region. */
  predicate AxisOverlaps(lo: Au, hi: Au, min: Au, max: Au) {
    if lo == hi then min <= lo <= max else hi > min && lo < max
  }

  function Inflate(bounds: Rect): Region {
    Region(Point(SatSub(bounds.origin.x, OFFSCREEN_MARGIN), SatSub(bounds.origin.y, OFFSCREEN_MARGIN)),
           Point(SatAdd(bounds.Right(), OFFSCREEN_MARGIN), SatAdd(bounds.Bottom(), OFFSCREEN_MARGIN)))
  }

  // ----- what can be wrong with one item -----

  predicate BoundsValid(bounds: Rect) {
    !bounds.IsEmpty() && bounds.Representable()
  }

  predicate BorderWidthsValid(rect: Rect, widths: Sides<Au>) {
    && 0 <= widths.top <= rect.size.h && 0 <= widths.bottom <= rect.size.h
    && 0 <= widths.left <= rect.size.w && 0 <= widths.right <= rect.size.w
  }

  predicate GlyphFits(origin: Point, g: Glyph) {
    Fits(origin.x + g.x) && Fits(origin.y + g.y)
  }

  function RectFault(rect: Rect, index: nat, region: Region): Option<DisplayListError> {
    if !rect.Representable() then Some(InvalidRect(index))
    else if !region.IntersectsRect(rect) then Some(OutOfBounds(index))
    else None
  }

  function RunFault(run: GlyphRun, index: nat, region: Region): Option<DisplayListError> {
    if |run.glyphs| > MAX_GLYPHS_PER_RUN then Some(TooManyGlyphs(index))
    else if !region.ContainsPoint(run.origin) then Some(OutOfBounds(index))
    else if exists k :: 0 <= k < |run.glyphs| && !GlyphFits(run.origin, run.glyphs[k]) then Some(InvalidRect(index))
    else None
  }

  /** Clips opened minus clips closed. */
  function Balance(items: seq<DisplayItem>): int {
    if items == [] then 0
    else
      Balance(items[..|items| - 1]) +
      match items[|items| - 1]
      case PushClip(_) => 1
      case PopClip => -1
      case _ => 0
  }

  /** What is wrong with item `i`, judged by it and by the clips open before it. */
  function Fault(items: seq<DisplayItem>, i: nat, region: Region): Option<DisplayListError>
    requires i < |items|
  {
    match items[i]
    case Fill(rect, _) => RectFault(rect, i, region)
    case Border(rect, widths, _) =>
      if RectFault(rect, i, region).Some? then RectFault(rect, i, region)
      else if !BorderWidthsValid(rect, widths) then Some(InvalidRect(i))
      else None
    case Glyphs(run) => RunFault(run, i, region)
    case PushClip(rect) =>
      if RectFault(rect, i, region).Some? then RectFault(rect, i, region)
      else if Balance(items[..i]) >= MAX_CLIP_DEPTH then Some(TooDeepClip(i))
      else None
    case PopClip => if Balance(items[..i]) == 0 then Some(PopWithoutPush(i)) else None
  }

  ghost predicate FaultlessBefore(items: seq<DisplayItem>, n: nat, region: Region)
    requires n <= |items|
  {
    forall i :: 0 <= i < n ==> Fault(items, i, region).None?
  }

  /** The list is accepted: usable bounds, bounded length, no faulty item, and every clip closed. */
  ghost predicate Accepted(items: seq<DisplayItem>, bounds: Rect) {
    && BoundsValid(bounds) && |items| <= MAX_ITEMS
    && FaultlessBefore(items, |items|, Inflate(bounds)) && Balance(items) == 0
  }

  lemma FaultKinds(items: seq<DisplayItem>, i: nat, region: Region)
    requires i < |items|
    ensures Fault(items, i, region) != Some(InvalidBounds)
    ensures forall n ::
              Fault(items, i, region) != Some(TooManyItems(n)) && Fault(items, i, region) != Some(UnbalancedClip(n))
  {
  }

  /** The rect an item is checked by, if it has one. */
  function RectOf(item: DisplayItem): Option<Rect> {
    match item
    case Fill(rect, _) => Some(rect)
    case Border(rect, _, _) => Some(rect)
    case Glyphs(_) => None
    case PushClip(rect) => Some(rect)
    case PopClip => None
  }

  /** A rect with an extent below zero, or a far edge that is not representable. */
  predicate RectBroken(rect: Rect) {
    || rect.size.w < 0 || rect.size.h < 0
    || !Fits(rect.origin.x + rect.size.w) || !Fits(rect.origin.y + rect.size.h)
  }

  /** Some side thinner than nothing or thicker than the box it surrounds. */
  predicate WidthsBroken(rect: Rect, widths: Sides<Au>) {
    || widths.top < 0 || rect.size.h < widths.top || widths.bottom < 0 || rect.size.h < widths.bottom
    || widths.left < 0 || rect.size.w < widths.left || widths.right < 0 || rect.size.w < widths.right
  }

  /** Some glyph of the run would stand at a position that is not representable. */
  ghost predicate GlyphsBroken(run: GlyphRun) {
    exists k :: 0 <= k < |run.glyphs| && !GlyphFits(run.origin, run.glyphs[k])
  }

  /**
   * Which fault an item has. A rect must be sound before it can be out of bounds, and both
   * come before border widths and clip depth; a run is first counted, then placed, then
   * its glyphs are looked at.
   */
  lemma FaultExactly(items: seq<DisplayItem>, i: nat, region: Region)
    requires i < |items|
    ensures var item, rect, fault := items[i], RectOf(items[i]), Fault(items, i, region);
            var sound := rect.Some? && !RectBroken(rect.value) && region.IntersectsRect(rect.value);
            && (rect.Some? && RectBroken(rect.value) ==> fault == Some(InvalidRect(i)))
            && (rect.Some? && !RectBroken(rect.value) && !sound ==> fault == Some(OutOfBounds(i)))
            && (sound && item.Fill? ==> fault == None)
            && (sound && item.Border? ==>
                  fault == if WidthsBroken(item.rect, item.widths) then Some(InvalidRect(i)) else None)
            && (sound && item.PushClip? ==> fault == if Balance(items[..i]) >= 256 then Some(TooDeepClip(i)) else None)
            && (item.PopClip? ==> fault == if Balance(items[..i]) == 0 then Some(PopWithoutPush(i)) else None)
            && (item.Glyphs? ==>
                  fault == if |item.run.glyphs| > 65536 then Some(TooManyGlyphs(i))
                           else if !region.ContainsPoint(item.run.origin) then Some(OutOfBounds(i))
                           else if GlyphsBroken(item.run) then Some(InvalidRect(i))
                           else None)
  {
    hide GlyphFits, Balance, AxisOverlaps;
  }

  method CheckRun(run: GlyphRun, index: nat, region: Region) returns (fault: Option<DisplayListError>)
    ensures fault == RunFault(run, index, region)
  {
    if |run.glyphs| > MAX_GLYPHS_PER_RUN {
      return Some(TooManyGlyphs(index));
    }
    if !region.ContainsPoint(run.origin) {
      return Some(OutOfBounds(index));
    }
    for k := 0 to |run.glyphs|
      invariant forall j :: 0 <= j < k ==> GlyphFits(run.origin, run.glyphs[j])
    {
      if !GlyphFits(run.origin, run.glyphs[k]) {
        return Some(InvalidRect(index));
      }
    }
    fault := None;
  }

  /**
   * One pass with a depth counter. The verdict is `Accepted`, or the bounds, or
   * the length, or the first faulty item, or the clips left open, in that order.
   */
  method Validate(items: seq<DisplayItem>, bounds: Rect) returns (r: Result<(), DisplayListError>)
    ensures r.Ok? <==> Accepted(items, bounds)
    ensures r == Err(InvalidBounds) <==> !BoundsValid(bounds)
    ensures forall n :: r == Err(TooManyItems(n)) <==> BoundsValid(bounds) && n == |items| > MAX_ITEMS
    ensures forall n :: r == Err(UnbalancedClip(n)) <==>
              && BoundsValid(bounds) && |items| <= MAX_ITEMS
              && FaultlessBefore(items, |items|, Inflate(bounds)) && n == Balance(items) != 0
    ensures r.Err? && BoundsValid(bounds) && |items| <= MAX_ITEMS && !r.error.UnbalancedClip? ==>
              exists i :: 0 <= i < |items| && FaultlessBefore(items, i, Inflate(bounds)) &&
                          Fault(items, i, Inflate(bounds)) == Some(r.error)
  {
    hide RectFault, RunFault, BorderWidthsValid, Inflate;
    if !BoundsValid(bounds) {
      return Err(InvalidBounds);
    }
    if |items| > MAX_ITEMS {
      return Err(TooManyItems(|items|));
    }
    var region := Inflate(bounds);
    var depth: nat := 0;
    for i := 0 to |items|
      invariant FaultlessBefore(items, i, region)
      invariant depth == Balance(items[..i])
    {
      FaultKinds(items, i, region);
      assert items[..i + 1][..i] == items[..i];
      match items[i] {
        case Fill(rect, _) =>
          var fault := RectFault(rect, i, region);
          if fault.Some? { return Err(fault.value); }
        case Border(rect, widths, _) =>
          var fault := RectFault(rect, i, region);
          if fault.Some? { return Err(fault.value); }
          if !BorderWidthsValid(rect, widths) { return Err(InvalidRect(i)); }
        case Glyphs(run) =>
          var fault := CheckRun(run, i, region);
          if fault.Some? { return Err(fault.value); }
        case PushClip(rect) =>
          var fault := RectFault(rect, i, region);
          if fault.Some? { return Err(fault.value); }
          depth := depth + 1;
          if depth > MAX_CLIP_DEPTH { return Err(TooDeepClip(i)); }
        case PopClip =>
          if depth == 0 { return Err(PopWithoutPush(i)); }
          depth := depth - 1;
      }
    }
    assert items[..|items|] == items;
    r := if depth != 0 then Err(UnbalancedClip(depth)) else Ok(());
  }
}
