/**
 * The builder: a bounded stack walk over the fragments that emits backgrounds,
 * borders, text and clips, leaving out what lies wholly outside the widened
 * viewport and trimming clips into it.
 */
module PaintBuild {
  import opened AppUnits
  import opened Geometry
  import opened Styles
  import opened Wrappers
  import opened Sequences
  import opened BoxTrees
  import opened LayoutContext
  import opened Fragments
  import opened DisplayLists

  /** The element name a document gives a node, if the node is an element. */
  type Names = NodeId -> Option<string>

  // ----- what the builder lets through -----

  /** The source's clamp panics when `low` is above `high`; `Build` says when that happens. */
  function Clamp(x: Au, low: Au, high: Au): (r: Au)
    ensures low <= high ==> low <= r <= high
  {
    if x < low then low else if x > high then high else x
  }

  /** Trims a rect into the region; one with no overlap collapses onto its edge. */
  function ClampRect(region: Region, r: Rect): Rect {
    var left, top := Clamp(r.origin.x, region.low.x, region.high.x), Clamp(r.origin.y, region.low.y, region.high.y);
    var right := Max(Clamp(r.Right(), region.low.x, region.high.x), left);
    var bottom := Max(Clamp(r.Bottom(), region.low.y, region.high.y), top);
    Rect(Point(left, top), Size(SatSub(right, left), SatSub(bottom, top)))
  }

  /** The builder sees a widened viewport; `Everything` is the list with no culling and no trimming. */
  datatype Lens = Everything | Widened(region: Region) {
    /** Whether trimming is defined: no corner has passed the other. */
    predicate Ok() {
      Widened? ==> region.Upright()
    }

    predicate Shows(r: Rect) {
      Widened? ==> region.IntersectsRect(r)
    }

    predicate ShowsPoint(p: Point) {
      Widened? ==> region.ContainsPoint(p)
    }

    function Trim(r: Rect): Rect {
      if Widened? then ClampRect(region, r) else r
    }
  }

  // ----- one fragment -----

  function SolidWidth(solid: bool, width: Au): Au {
    if solid && width > 0 then width else 0
  }

  /** The widths to paint: solid, positive sides; the others are zero. None when nothing is left. */
  function SolidBorderWidths(style: LayoutStyle): (r: Option<Sides<Au>>)
    ensures r.Some? ==> r.value.top >= 0 && r.value.right >= 0 && r.value.bottom >= 0 && r.value.left >= 0
  {
    var widths := Sides(SolidWidth(style.borderSolid.top, style.borderWidth.top),
                        SolidWidth(style.borderSolid.right, style.borderWidth.right),
                        SolidWidth(style.borderSolid.bottom, style.borderWidth.bottom),
                        SolidWidth(style.borderSolid.left, style.borderWidth.left));
    if widths.top > 0 || widths.right > 0 || widths.bottom > 0 || widths.left > 0 then Some(widths) else None
  }

  function Background(f: Fragment, style: LayoutStyle, suppressed: bool): seq<DisplayItem> {
    if !suppressed && style.background.a > 0 && !f.borderBox.IsEmpty() then [Fill(f.borderBox, style.background)]
        else []
  }

  function BorderItems(f: Fragment, style: LayoutStyle): seq<DisplayItem> {
    var widths := SolidBorderWidths(style);
    if widths.Some? then [DisplayItem.Border(f.borderBox, widths.value, style.borderColor)] else []
  }

  function RunItems(runs: seq<GlyphRun>, lens: Lens): seq<DisplayItem> {
    if runs == [] then []
    else
      var run := runs[|runs| - 1];
      RunItems(runs[..|runs| - 1], lens) +
      if run.glyphs != [] && lens.ShowsPoint(run.origin) then [Glyphs(run)] else []
  }

  function OwnItems(f: Fragment, style: LayoutStyle, suppressed: bool, lens: Lens): seq<DisplayItem> {
    match f.kind
    case Block => if lens.Shows(f.borderBox) then Background(f, style, suppressed) + BorderItems(f, style) else []
    case AnonymousBlock => []
    case Line => []
    case Text(runs) => RunItems(runs, lens)
  }

  method PaintFragment(f: Fragment, style: LayoutStyle, suppressed: bool, lens: Lens, before: seq<DisplayItem>)
    returns (items: seq<DisplayItem>)
    ensures items == before + OwnItems(f, style, suppressed, lens)
  {
    items := before;
    match f.kind {
      case Block =>
        if !lens.Shows(f.borderBox) {
          return;
        }
        if !suppressed && style.background.a > 0 && !f.borderBox.IsEmpty() {
          items := items + [Fill(f.borderBox, style.background)];
        }
        var widths := SolidBorderWidths(style);
        if widths.Some? {
          items := items + [DisplayItem.Border(f.borderBox, widths.value, style.borderColor)];
        }
      case AnonymousBlock =>
      case Line =>
      case Text(runs) =>
        for k := 0 to |runs|
          invariant items == before + RunItems(runs[..k], lens)
        {
          assert runs[..k + 1][..k] == runs[..k];
          if runs[k].glyphs == [] {
            continue;
          }
          if lens.ShowsPoint(runs[k].origin) {
            items := items + [Glyphs(runs[k])];
          }
        }
        assert runs[..|runs|] == runs;
    }
  }

  // ----- the walk -----

  datatype Step = Visit(id: FragmentId) | Close

  /** The steps for a child list, first child on top. */
  function Visits(children: seq<FragmentId>): (r: seq<Step>)
    ensures |r| == |children|
    ensures forall i :: 0 <= i < |r| ==> r[i] == Visit(children[|children| - 1 - i])
  {
    seq(|children|, i requires 0 <= i < |children| => Visit(children[|children| - 1 - i]))
  }

  function Clips(style: LayoutStyle): bool {
    style.overflow == Hidden
  }

  /** What a fragment emits before its children. */
  function EnterItems(tree: FragmentTree, suppressed: Option<FragmentId>, lens: Lens, id: FragmentId): seq<DisplayItem>
    requires id < |tree.fragments|
  {
    var f := tree.fragments[id];
    var style := tree.StyleOf(f);
    OwnItems(f, style, suppressed == Some(id), lens) + if Clips(style) then [PushClip(lens.Trim(f.paddingBox))] else []
  }

  function EnterSteps(tree: FragmentTree, id: FragmentId): seq<Step>
    requires id < |tree.fragments|
  {
    var f := tree.fragments[id];
    (if Clips(tree.StyleOf(f)) then [Close] else []) + Visits(f.children)
  }

  /** One pop per clip still pending, innermost first. */
  function Drain(stack: seq<Step>): seq<DisplayItem> {
    if stack == [] then []
    else (if stack[|stack| - 1].Close? then [PopClip] else []) + Drain(stack[..|stack| - 1])
  }

  /** Everything the walk still emits with this stack, its top at the end, and this many visits left. */
  function WalkFrom(tree: FragmentTree, suppressed: Option<FragmentId>, lens: Lens, stack: seq<Step>,
                    remaining: nat): seq<DisplayItem>
    decreases remaining, |stack|
  {
    if stack == [] then []
    else
      var rest := stack[..|stack| - 1];
      match stack[|stack| - 1]
      case Close => [PopClip] + WalkFrom(tree, suppressed, lens, rest, remaining)
      case Visit(id) =>
        if remaining == 0 then Drain(rest)
        else if id >= |tree.fragments| then WalkFrom(tree, suppressed, lens, rest, remaining - 1)
        else EnterItems(tree, suppressed, lens, id) +
             WalkFrom(tree, suppressed, lens, rest + EnterSteps(tree, id), remaining - 1)
  }

  method DrainPending(stack: seq<Step>, before: seq<DisplayItem>) returns (items: seq<DisplayItem>)
    ensures items == before + Drain(stack)
  {
    items := before;
    var k: nat := |stack|;
    assert stack[..k] == stack;
    while k > 0
      invariant k <= |stack|
      invariant items + Drain(stack[..k]) == before + Drain(stack)
    {
      k := k - 1;
      assert stack[..k + 1][..k] == stack[..k];
      if stack[k].Close? {
        items := items + [PopClip];
      }
    }
  }

  predicate OpensClip(items: seq<DisplayItem>) {
    exists i :: 0 <= i < |items| && items[i].PushClip?
  }

  lemma OpensClipJoin(a: seq<DisplayItem>, b: seq<DisplayItem>)
    ensures OpensClip(a + b) <==> OpensClip(a) || OpensClip(b)
  {
    if i :| 0 <= i < |a| && a[i].PushClip? {
      assert (a + b)[i].PushClip?;
    }
    if i :| 0 <= i < |b| && b[i].PushClip? {
      assert (a + b)[|a| + i].PushClip?;
    }
  }

  lemma {:induction false} RunsOpenNoClip(runs: seq<GlyphRun>, lens: Lens)
    ensures !OpensClip(RunItems(runs, lens))
  {
    if runs != [] {
      RunsOpenNoClip(runs[..|runs| - 1], lens);
    }
  }

  lemma EnterOpensClip(tree: FragmentTree, suppressed: Option<FragmentId>, lens: Lens, id: FragmentId)
    requires id < |tree.fragments|
    ensures OpensClip(EnterItems(tree, suppressed, lens, id)) <==> Clips(tree.StyleOf(tree.fragments[id]))
  {
    var f := tree.fragments[id];
    var style := tree.StyleOf(f);
    var own := OwnItems(f, style, suppressed == Some(id), lens);
    if f.kind.Text? {
      RunsOpenNoClip(f.kind.runs, lens);
    }
    if Clips(style) {
      assert EnterItems(tree, suppressed, lens, id)[|own|].PushClip?;
    }
  }

  lemma {:induction false} DrainOpensNoClip(stack: seq<Step>)
    ensures !OpensClip(Drain(stack))
  {
    if stack != [] {
      DrainOpensNoClip(stack[..|stack| - 1]);
    }
  }

  /**
   * Paints one fragment, opens its clip, and schedules its children and the close; trimming to a
   * crossed region panics.
   */
  method EnterFragment(tree: FragmentTree, suppressed: Option<FragmentId>, lens: Lens, id: FragmentId,
                       below: seq<Step>, before: seq<DisplayItem>)
    returns (items: seq<DisplayItem>, stack: seq<Step>, panicked: bool)
    requires id < |tree.fragments|
    ensures panicked <==> !lens.Ok() && Clips(tree.StyleOf(tree.fragments[id]))
    ensures !panicked ==> items == before + EnterItems(tree, suppressed, lens, id)
    ensures !panicked ==> stack == below + EnterSteps(tree, id)
  {
    hide OwnItems, Lens.Trim;
    var f := tree.fragments[id];
    var style := tree.StyleOf(f);
    items := PaintFragment(f, style, suppressed == Some(id), lens, before);
    stack := below;
    if Clips(style) {
      if !lens.Ok() {
        return items, stack, true;
      }
      items := items + [PushClip(lens.Trim(f.paddingBox))];
      stack := stack + [Close];
    }
    stack := stack + Visits(f.children);
    panicked := false;
  }

  /**
   * Ends on every tree: a visit uses up one of `remaining`, a close shortens the
   * stack. It panics (`None`) exactly when it meets a clip it cannot trim.
   */
  method Walk(tree: FragmentTree, suppressed: Option<FragmentId>, lens: Lens, before: seq<DisplayItem>)
    returns (r: Option<seq<DisplayItem>>)
    ensures r.None? <==> !lens.Ok() && OpensClip(WalkFrom(tree, suppressed, lens, [Visit(tree.root)], |tree.fragments|))
    ensures r.Some? ==> r.value == before + WalkFrom(tree, suppressed, lens, [Visit(tree.root)], |tree.fragments|)
  {
    hide EnterItems, EnterSteps, Drain, Lens.Ok, OpensClip;
    var stack: seq<Step> := [Visit(tree.root)];
    var remaining: nat := |tree.fragments|;
    var items := before;
    ghost var whole := WalkFrom(tree, suppressed, lens, stack, remaining);
    NothingOpens();
    while stack != []
      invariant items + WalkFrom(tree, suppressed, lens, stack, remaining) == before + whole
      invariant !lens.Ok() ==> OpensClip(WalkFrom(tree, suppressed, lens, stack, remaining)) == OpensClip(whole)
      decreases remaining, |stack|
    {
      var top := stack[|stack| - 1];
      stack := stack[..|stack| - 1];
      match top {
        case Close =>
          OpensClipJoin([PopClip], WalkFrom(tree, suppressed, lens, stack, remaining));
          items := items + [PopClip];
        case Visit(id) =>
          if remaining == 0 {
            DrainOpensNoClip(stack);
            items := DrainPending(stack, items);
            return Some(items);
          }
          remaining := remaining - 1;
          if id >= |tree.fragments| {
            continue;
          }
          EnterOpensClip(tree, suppressed, lens, id);
          OpensClipJoin(EnterItems(tree, suppressed, lens, id),
                        WalkFrom(tree, suppressed, lens, stack + EnterSteps(tree, id), remaining));
          var panicked;
          items, stack, panicked := EnterFragment(tree, suppressed, lens, id, stack, items);
          if panicked {
            return None;
          }
      }
    }
    r := Some(items);
  }

  lemma NothingOpens()
    ensures !OpensClip([]) && !OpensClip([PopClip])
  {
  }

  // ----- the canvas background -----

  /** The first element of that name a bounded walk from this stack meets. */
  function FindFrom(tree: FragmentTree, names: Names, local: string, stack: seq<FragmentId>,
                    remaining: nat): (r: Option<FragmentId>)
    ensures r.Some? ==> r.value < |tree.fragments| && Named(tree.fragments[r.value], names, local)
    decreases remaining, |stack|
  {
    if stack == [] || remaining == 0 then None
    else
      var id, rest := stack[|stack| - 1], stack[..|stack| - 1];
      if id >= |tree.fragments| then FindFrom(tree, names, local, rest, remaining - 1)
      else if Named(tree.fragments[id], names, local) then Some(id)
      else FindFrom(tree, names, local, rest + Reversed(tree.fragments[id].children), remaining - 1)
  }

  predicate Named(f: Fragment, names: Names, local: string) {
    f.node.Some? && names(f.node.value) == Some(local)
  }

  method FindElementFragment(tree: FragmentTree, names: Names, local: string) returns (r: Option<FragmentId>)
    ensures r == FindFrom(tree, names, local, [tree.root], |tree.fragments|)
  {
    var stack: seq<FragmentId> := [tree.root];
    var remaining: nat := |tree.fragments|;
    while stack != []
      invariant FindFrom(tree, names, local, stack, remaining)
                == FindFrom(tree, names, local, [tree.root], |tree.fragments|)
      decreases remaining, |stack|
    {
      var id := stack[|stack| - 1];
      if remaining == 0 {
        break;
      }
      stack, remaining := stack[..|stack| - 1], remaining - 1;
      if id >= |tree.fragments| {
        continue;
      }
      if Named(tree.fragments[id], names, local) {
        return Some(id);
      }
      stack := stack + Reversed(tree.fragments[id].children);
    }
    r := None;
  }

  /** The canvas colour, and the fragment whose own background it replaces. */
  datatype Canvas = Canvas(color: Option<Rgba>, suppressed: Option<FragmentId>)

  function BackgroundOf(tree: FragmentTree, id: FragmentId): Rgba {
    if id < |tree.fragments| then tree.StyleOf(tree.fragments[id]).background else TRANSPARENT
  }

  predicate Opaque(tree: FragmentTree, id: Option<FragmentId>) {
    id.Some? && BackgroundOf(tree, id.value).a > 0
  }

  /** The `html` element's background if it has one, else the `body` element's, else none. */
  function CanvasBackground(tree: FragmentTree, names: Names): Canvas {
    var html := FindFrom(tree, names, "html", [tree.root], |tree.fragments|);
    var body := FindFrom(tree, names, "body", [tree.root], |tree.fragments|);
    if Opaque(tree, html) then Canvas(Some(BackgroundOf(tree, html.value)), html)
    else if Opaque(tree, body) then Canvas(Some(BackgroundOf(tree, body.value)), body)
    else Canvas(None, None)
  }

  function CanvasItems(tree: FragmentTree, canvas: Canvas): seq<DisplayItem> {
    if canvas.color.Some? && !tree.Bounds().IsEmpty() then [Fill(tree.Bounds(), canvas.color.value)] else []
  }

  function Items(tree: FragmentTree, names: Names, lens: Lens): seq<DisplayItem> {
    var canvas := CanvasBackground(tree, names);
    CanvasItems(tree, canvas) + WalkFrom(tree, canvas.suppressed, lens, [Visit(tree.root)], |tree.fragments|)
  }

  /** The list the repository builds. */
  function BuiltItems(tree: FragmentTree, names: Names): seq<DisplayItem> {
    Items(tree, names, Widened(Inflate(tree.Bounds())))
  }

  /** The viewport for which trimming is defined: not narrower or shorter than minus twice the margin. */
  lemma UprightExactly(tree: FragmentTree)
    ensures Inflate(tree.Bounds()).Upright() <==>
            tree.viewport.w >= -2 * OFFSCREEN_MARGIN && tree.viewport.h >= -2 * OFFSCREEN_MARGIN
  {
  }
}
