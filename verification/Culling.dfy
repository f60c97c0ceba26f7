/**
 * What the builder promises the painter: on every fragment tree, cyclic or
 * dangling included, its lists balance and stay in bounds, and leaving items out
 * and trimming clips changes nothing inside the viewport.
 */
module Culling {
  import opened AppUnits
  import opened Geometry
  import opened Styles
  import opened Wrappers
  import opened BoxTrees
  import opened LayoutContext
  import opened Fragments
  import opened DisplayLists
  import opened PaintBuild
  import opened Raster

  // ----- balance -----

  /** From `depth` open clips, the list never closes too many and ends with none open. */
  predicate Closes(items: seq<DisplayItem>, depth: nat) {
    if items == [] then depth == 0
    else match items[0]
         case PushClip(_) => Closes(items[1..], depth + 1)
         case PopClip => depth > 0 && Closes(items[1..], depth - 1)
         case _ => Closes(items[1..], depth)
  }

  lemma BalanceOne(item: DisplayItem)
    ensures Balance([item]) == if item.PushClip? then 1 else if item.PopClip? then -1 else 0
  {
    assert [item][..0] == [];
  }

  lemma {:induction false} BalanceCons(item: DisplayItem, items: seq<DisplayItem>)
    ensures Balance([item] + items) == Balance([item]) + Balance(items)
  {
    if items == [] {
      assert [item] + items == [item];
    } else {
      BalanceCons(item, items[..|items| - 1]);
      assert ([item] + items)[..|items|] == [item] + items[..|items| - 1];
    }
  }

  /**
   * The same said with counts: no prefix closes more than `depth` and its own pushes, and all are
   * closed at the end.
   */
  lemma {:induction false} ClosesMeansBalanced(items: seq<DisplayItem>, depth: nat)
    requires Closes(items, depth)
    ensures Balance(items) + depth == 0
    ensures forall i :: 0 <= i < |items| && items[i].PopClip? ==> Balance(items[..i]) + depth > 0
  {
    if items != [] {
      var first, rest := items[0], items[1..];
      BalanceOne(first);
      var next := depth + Balance([first]);
      ClosesMeansBalanced(rest, next);
      assert items == [first] + rest;
      BalanceCons(first, rest);
      forall i | 0 <= i < |items| && items[i].PopClip? ensures Balance(items[..i]) + depth > 0 {
        if i > 0 {
          assert items[..i] == [first] + rest[..i - 1];
          BalanceCons(first, rest[..i - 1]);
          assert rest[i - 1].PopClip?;
        }
      }
    }
  }

  predicate ClipFree(items: seq<DisplayItem>) {
    forall i :: 0 <= i < |items| ==> !items[i].PushClip? && !items[i].PopClip?
  }

  lemma {:induction false} ClipFreePrefix(a: seq<DisplayItem>, b: seq<DisplayItem>, depth: nat)
    requires ClipFree(a) && Closes(b, depth)
    ensures Closes(a + b, depth)
  {
    if a == [] {
      assert a + b == b;
    } else {
      ClipFreePrefix(a[1..], b, depth);
      assert (a + b)[1..] == a[1..] + b;
    }
  }

  lemma {:induction false} RunsClipFree(runs: seq<GlyphRun>, lens: Lens)
    ensures ClipFree(RunItems(runs, lens))
  {
    if runs != [] {
      RunsClipFree(runs[..|runs| - 1], lens);
    }
  }

  lemma OwnClipFree(f: Fragment, style: LayoutStyle, suppressed: bool, lens: Lens)
    ensures ClipFree(OwnItems(f, style, suppressed, lens))
  {
    if f.kind.Text? {
      RunsClipFree(f.kind.runs, lens);
    }
  }

  function Pending(stack: seq<Step>): nat {
    if stack == [] then 0 else Pending(stack[..|stack| - 1]) + if stack[|stack| - 1].Close? then 1 else 0
  }

  lemma {:induction false} DrainCloses(stack: seq<Step>)
    ensures Closes(Drain(stack), Pending(stack))
  {
    if stack != [] {
      DrainCloses(stack[..|stack| - 1]);
      if stack[|stack| - 1].Close? {
        assert ([PopClip] + Drain(stack[..|stack| - 1]))[1..] == Drain(stack[..|stack| - 1]);
      } else {
        assert Drain(stack) == Drain(stack[..|stack| - 1]);
      }
    }
  }

  lemma {:induction false} PendingVisits(stack: seq<Step>, visits: seq<Step>)
    requires forall i :: 0 <= i < |visits| ==> visits[i].Visit?
    ensures Pending(stack + visits) == Pending(stack)
    decreases |visits|
  {
    if visits == [] {
      assert stack + visits == stack;
    } else {
      PendingVisits(stack, visits[..|visits| - 1]);
      assert (stack + visits)[..|stack + visits| - 1] == stack + visits[..|visits| - 1];
    }
  }

  lemma PendingAfterEnter(tree: FragmentTree, id: FragmentId, rest: seq<Step>)
    requires id < |tree.fragments|
    ensures Pending(rest + EnterSteps(tree, id)) ==
            Pending(rest) + if Clips(tree.StyleOf(tree.fragments[id])) then 1 else 0
  {
    var f := tree.fragments[id];
    if Clips(tree.StyleOf(f)) {
      assert (rest + [Close])[..|rest|] == rest;
      assert rest + EnterSteps(tree, id) == (rest + [Close]) + Visits(f.children);
      PendingVisits(rest + [Close], Visits(f.children));
    } else {
      assert rest + EnterSteps(tree, id) == rest + Visits(f.children);
      PendingVisits(rest, Visits(f.children));
    }
  }

  lemma EnterCloses(tree: FragmentTree, suppressed: Option<FragmentId>, lens: Lens, id: FragmentId,
                    after: seq<DisplayItem>, depth: nat)
    requires id < |tree.fragments|
    requires Closes(after, depth + if Clips(tree.StyleOf(tree.fragments[id])) then 1 else 0)
    ensures Closes(EnterItems(tree, suppressed, lens, id) + after, depth)
  {
    hide OwnItems, Lens.Trim;
    var f := tree.fragments[id];
    var style := tree.StyleOf(f);
    var own := OwnItems(f, style, suppressed == Some(id), lens);
    OwnClipFree(f, style, suppressed == Some(id), lens);
    if Clips(style) {
      var push := PushClip(lens.Trim(f.paddingBox));
      assert ([push] + after)[1..] == after;
      ClipFreePrefix(own, [push] + after, depth);
      assert (own + [push]) + after == own + ([push] + after);
    } else {
      ClipFreePrefix(own, after, depth);
      assert EnterItems(tree, suppressed, lens, id) == own;
    }
  }

  /**
   * Wherever the walk stands, and however it ends, what it still emits closes exactly the clips
   * pending on its stack.
   */
  lemma {:induction false} WalkCloses(tree: FragmentTree, suppressed: Option<FragmentId>, lens: Lens,
                                      stack: seq<Step>, remaining: nat)
    ensures Closes(WalkFrom(tree, suppressed, lens, stack, remaining), Pending(stack))
    decreases remaining, |stack|
  {
    hide EnterItems, EnterSteps, Drain;
    if stack != [] {
      var rest := stack[..|stack| - 1];
      match stack[|stack| - 1] {
        case Close =>
          WalkCloses(tree, suppressed, lens, rest, remaining);
          var tail := WalkFrom(tree, suppressed, lens, rest, remaining);
          assert ([PopClip] + tail)[1..] == tail;
        case Visit(id) =>
          if remaining == 0 {
            DrainCloses(rest);
          } else if id >= |tree.fragments| {
            WalkCloses(tree, suppressed, lens, rest, remaining - 1);
          } else {
            WalkCloses(tree, suppressed, lens, rest + EnterSteps(tree, id), remaining - 1);
            PendingAfterEnter(tree, id, rest);
            EnterCloses(tree, suppressed, lens, id,
                        WalkFrom(tree, suppressed, lens, rest + EnterSteps(tree, id), remaining - 1), Pending(rest));
          }
      }
    }
  }

  /** The finished list, with any lens, on any tree. */
  lemma ItemsClose(tree: FragmentTree, names: Names, lens: Lens)
    ensures Closes(Items(tree, names, lens), 0)
    ensures Guarded(Items(tree, names, lens)) && Balance(Items(tree, names, lens)) == 0
  {
    hide WalkFrom, CanvasBackground;
    var canvas := CanvasBackground(tree, names);
    WalkCloses(tree, canvas.suppressed, lens, [Visit(tree.root)], |tree.fragments|);
    assert [Visit(tree.root)][..0] == [];
    ClipFreePrefix(CanvasItems(tree, canvas),
                   WalkFrom(tree, canvas.suppressed, lens, [Visit(tree.root)], |tree.fragments|), 0);
    ClosesMeansBalanced(Items(tree, names, lens), 0);
  }

  // ----- in bounds -----

  /** The item passes its bounds check; a clip, being trimmed, passes the whole rect check. */
  predicate InRegion(item: DisplayItem, region: Region) {
    match item
    case Fill(rect, _) => region.IntersectsRect(rect)
    case Border(rect, _, _) => region.IntersectsRect(rect)
    case Glyphs(run) => region.ContainsPoint(run.origin)
    case PushClip(rect) => region.IntersectsRect(rect) && rect.Representable()
    case PopClip => true
  }

  predicate AllInRegion(items: seq<DisplayItem>, region: Region) {
    forall i :: 0 <= i < |items| ==> InRegion(items[i], region)
  }

  /** A trimmed clip is never outside, and never malformed, whatever rect it came from. */
  lemma TrimmedInRegion(region: Region, r: Rect)
    requires region.Upright()
    ensures region.IntersectsRect(ClampRect(region, r)) && ClampRect(region, r).Representable()
  {
  }

  lemma {:induction false} RunsInRegion(runs: seq<GlyphRun>, region: Region)
    ensures AllInRegion(RunItems(runs, Widened(region)), region)
  {
    hide Region.ContainsPoint, Region.IntersectsRect;
    if runs != [] {
      RunsInRegion(runs[..|runs| - 1], region);
    }
  }

  lemma EnterInRegion(tree: FragmentTree, suppressed: Option<FragmentId>, region: Region, id: FragmentId)
    requires region.Upright() && id < |tree.fragments|
    ensures AllInRegion(EnterItems(tree, suppressed, Widened(region), id), region)
  {
    hide Region.ContainsPoint, Region.IntersectsRect, ClampRect, Region.Upright, Rect.Representable;
    var f := tree.fragments[id];
    TrimmedInRegion(region, f.paddingBox);
    if f.kind.Text? {
      RunsInRegion(f.kind.runs, region);
    }
  }

  lemma {:induction false} DrainInRegion(stack: seq<Step>, region: Region)
    ensures AllInRegion(Drain(stack), region)
  {
    if stack != [] {
      DrainInRegion(stack[..|stack| - 1], region);
    }
  }

  lemma JoinInRegion(a: seq<DisplayItem>, b: seq<DisplayItem>, region: Region)
    requires AllInRegion(a, region) && AllInRegion(b, region)
    ensures AllInRegion(a + b, region)
  {
  }

  lemma {:induction false} WalkInRegion(tree: FragmentTree, suppressed: Option<FragmentId>, region: Region,
                                        stack: seq<Step>, remaining: nat)
    requires region.Upright()
    ensures AllInRegion(WalkFrom(tree, suppressed, Widened(region), stack, remaining), region)
    decreases remaining, |stack|
  {
    hide EnterItems, EnterSteps, Drain, Region.Upright;
    if stack != [] {
      var rest := stack[..|stack| - 1];
      match stack[|stack| - 1] {
        case Close => WalkInRegion(tree, suppressed, region, rest, remaining);
        case Visit(id) =>
          if remaining == 0 {
            DrainInRegion(rest, region);
          } else if id >= |tree.fragments| {
            WalkInRegion(tree, suppressed, region, rest, remaining - 1);
          } else {
            EnterInRegion(tree, suppressed, region, id);
            WalkInRegion(tree, suppressed, region, rest + EnterSteps(tree, id), remaining - 1);
            JoinInRegion(EnterItems(tree, suppressed, Widened(region), id),
                         WalkFrom(tree, suppressed, Widened(region), rest + EnterSteps(tree, id), remaining - 1),
                             region);
          }
      }
    }
  }

  lemma CanvasInRegion(tree: FragmentTree, canvas: Canvas)
    ensures AllInRegion(CanvasItems(tree, canvas), Inflate(tree.Bounds()))
  {
  }

  /** The numbers of one item are usable, wherever it lies. */
  predicate Usable(item: DisplayItem) {
    match item
    case Fill(rect, _) => rect.Representable()
    case Border(rect, widths, _) => rect.Representable() && BorderWidthsValid(rect, widths)
    case Glyphs(run) =>
      |run.glyphs| <= MAX_GLYPHS_PER_RUN && forall k :: 0 <= k < |run.glyphs| ==> GlyphFits(run.origin, run.glyphs[k])
    case PushClip(_) => true
    case PopClip => true
  }

  /** No item of a built list is ever out of bounds or an unmatched pop, on any tree; and no clip stays open. */
  lemma BuiltFaults(tree: FragmentTree, names: Names, i: nat)
    requires Inflate(tree.Bounds()).Upright() && i < |BuiltItems(tree, names)|
    ensures var items := BuiltItems(tree, names);
            var fault := Fault(items, i, Inflate(tree.Bounds()));
            && Balance(items) == 0
            && (forall n :: fault != Some(OutOfBounds(n)) && fault != Some(PopWithoutPush(n)))
            && (fault.None? <==> Usable(items[i]) && (items[i].PushClip? ==> Balance(items[..i]) < MAX_CLIP_DEPTH))
  {
    hide WalkFrom, Inflate, CanvasItems, CanvasBackground, Closes;
    var region := Inflate(tree.Bounds());
    var items := BuiltItems(tree, names);
    var canvas := CanvasBackground(tree, names);
    ItemsClose(tree, names, Widened(region));
    CanvasInRegion(tree, canvas);
    WalkInRegion(tree, canvas.suppressed, region, [Visit(tree.root)], |tree.fragments|);
    JoinInRegion(CanvasItems(tree, canvas),
                 WalkFrom(tree, canvas.suppressed, Widened(region), [Visit(tree.root)], |tree.fragments|), region);
    FaultInRegion(items, i, region);
  }

  lemma FaultInRegion(items: seq<DisplayItem>, i: nat, region: Region)
    requires i < |items| && InRegion(items[i], region)
    requires items[i].PopClip? ==> Balance(items[..i]) > 0
    ensures var fault := Fault(items, i, region);
            && (forall n :: fault != Some(OutOfBounds(n)) && fault != Some(PopWithoutPush(n)))
            && (fault.None? <==> Usable(items[i]) && (items[i].PushClip? ==> Balance(items[..i]) < MAX_CLIP_DEPTH))
  {
    hide Region.ContainsPoint, Region.IntersectsRect, Rect.Representable, BorderWidthsValid, Balance, GlyphFits;
  }

  /** A built list is accepted exactly when its own numbers are usable and its clips not too deep. */
  lemma BuiltAcceptedExactly(tree: FragmentTree, names: Names)
    requires Inflate(tree.Bounds()).Upright()
    ensures var items := BuiltItems(tree, names);
            Accepted(items, tree.Bounds()) <==>
            && BoundsValid(tree.Bounds()) && |items| <= MAX_ITEMS
            && forall i :: 0 <= i < |items| ==>
                 Usable(items[i]) && (items[i].PushClip? ==> Balance(items[..i]) < MAX_CLIP_DEPTH)
  {
    hide Fault, Usable, BuiltItems, Balance, BoundsValid, Inflate;
    var items := BuiltItems(tree, names);
    ItemsClose(tree, names, Widened(Inflate(tree.Bounds())));
    forall i | 0 <= i < |items|
      ensures Fault(items, i, Inflate(tree.Bounds())).None? <==>
              Usable(items[i]) && (items[i].PushClip? ==> Balance(items[..i]) < MAX_CLIP_DEPTH)
    {
      BuiltFaults(tree, names, i);
    }
    BuiltBalance(tree, names);
  }

  lemma BuiltBalance(tree: FragmentTree, names: Names)
    requires Inflate(tree.Bounds()).Upright()
    ensures Balance(BuiltItems(tree, names)) == 0 && Guarded(BuiltItems(tree, names))
  {
    hide Items, Inflate;
    ItemsClose(tree, names, Widened(Inflate(tree.Bounds())));
  }

  // ----- culling item by item -----

  function CullItem(item: DisplayItem, region: Region): seq<DisplayItem>
    requires region.Upright()
  {
    if item.PushClip? then [PushClip(ClampRect(region, item.rect))]
    else if InRegion(item, region) then [item]
    else []
  }

  function Cull(items: seq<DisplayItem>, region: Region): seq<DisplayItem>
    requires region.Upright()
  {
    if items == [] then [] else Cull(items[..|items| - 1], region) + CullItem(items[|items| - 1], region)
  }

  lemma {:induction false} CullJoin(a: seq<DisplayItem>, b: seq<DisplayItem>, region: Region)
    requires region.Upright()
    ensures Cull(a + b, region) == Cull(a, region) + Cull(b, region)
    decreases |b|
  {
    hide CullItem, Region.Upright;
    if b == [] {
      assert a + b == a;
    } else {
      CullJoin(a, b[..|b| - 1], region);
      assert (a + b)[..|a + b| - 1] == a + b[..|b| - 1];
    }
  }

  lemma CullOne(item: DisplayItem, region: Region)
    requires region.Upright()
    ensures Cull([item], region) == CullItem(item, region)
  {
    assert [item][..0] == [];
  }

  lemma {:induction false} CullRuns(runs: seq<GlyphRun>, region: Region)
    requires region.Upright()
    ensures RunItems(runs, Widened(region)) == Cull(RunItems(runs, Everything), region)
  {
    hide Region.Upright, Region.ContainsPoint;
    if runs != [] {
      var before, run := runs[..|runs| - 1], runs[|runs| - 1];
      CullRuns(before, region);
      if run.glyphs != [] {
        CullOne(Glyphs(run), region);
        CullJoin(RunItems(before, Everything), [Glyphs(run)], region);
      } else {
        assert RunItems(runs, Everything) == RunItems(before, Everything);
        assert RunItems(runs, Widened(region)) == RunItems(before, Widened(region));
      }
    }
  }

  /** A background and a border share their fragment's border box, and so its fate. */
  lemma CullBox(f: Fragment, style: LayoutStyle, suppressed: bool, region: Region)
    requires region.Upright()
    ensures Cull(Background(f, style, suppressed) + BorderItems(f, style), region) ==
            if Widened(region).Shows(f.borderBox) then Background(f, style, suppressed) + BorderItems(f, style) else []
  {
    hide Region.Upright, Region.IntersectsRect, SolidBorderWidths, Cull;
    var back, border := Background(f, style, suppressed), BorderItems(f, style);
    CullJoin(back, border, region);
    CullNothing(region);
    if back != [] {
      CullOne(Fill(f.borderBox, style.background), region);
    }
    if border != [] {
      CullOne(border[0], region);
    }
  }

  lemma CullOwn(f: Fragment, style: LayoutStyle, suppressed: bool, region: Region)
    requires region.Upright()
    ensures OwnItems(f, style, suppressed, Widened(region)) == Cull(OwnItems(f, style, suppressed, Everything), region)
  {
    hide Region.Upright, RunItems, Background, BorderItems, Region.IntersectsRect;
    match f.kind {
      case Block => CullBox(f, style, suppressed, region);
      case AnonymousBlock =>
      case Line =>
      case Text(runs) => CullRuns(runs, region);
    }
  }

  lemma CullEnter(tree: FragmentTree, suppressed: Option<FragmentId>, region: Region, id: FragmentId)
    requires region.Upright() && id < |tree.fragments|
    ensures EnterItems(tree, suppressed, Widened(region), id)
            == Cull(EnterItems(tree, suppressed, Everything, id), region)
  {
    hide Region.Upright, OwnItems, ClampRect;
    var f := tree.fragments[id];
    var style := tree.StyleOf(f);
    CullOwn(f, style, suppressed == Some(id), region);
    if Clips(style) {
      CullOne(PushClip(f.paddingBox), region);
      CullJoin(OwnItems(f, style, suppressed == Some(id), Everything), [PushClip(f.paddingBox)], region);
    } else {
      assert EnterItems(tree, suppressed, Everything, id) == OwnItems(f, style, suppressed == Some(id), Everything);
    }
  }

  lemma {:induction false} CullDrain(stack: seq<Step>, region: Region)
    requires region.Upright()
    ensures Cull(Drain(stack), region) == Drain(stack)
  {
    hide Region.Upright;
    if stack != [] {
      var rest := stack[..|stack| - 1];
      CullDrain(rest, region);
      if stack[|stack| - 1].Close? {
        CullOne(PopClip, region);
        CullJoin([PopClip], Drain(rest), region);
      } else {
        assert Drain(stack) == Drain(rest);
      }
    }
  }

  /** The culling walk and the plain walk run in lockstep; one's output is the other's, culled item by item. */
  lemma {:induction false} CullWalk(tree: FragmentTree, suppressed: Option<FragmentId>, region: Region,
                                    stack: seq<Step>, remaining: nat)
    requires region.Upright()
    ensures WalkFrom(tree, suppressed, Widened(region), stack, remaining) ==
            Cull(WalkFrom(tree, suppressed, Everything, stack, remaining), region)
    decreases remaining, |stack|
  {
    hide Region.Upright, EnterItems, EnterSteps, Drain, Cull;
    if stack == [] {
      CullNothing(region);
    } else {
      var rest := stack[..|stack| - 1];
      match stack[|stack| - 1] {
        case Close =>
          CullWalk(tree, suppressed, region, rest, remaining);
          CullOne(PopClip, region);
          CullJoin([PopClip], WalkFrom(tree, suppressed, Everything, rest, remaining), region);
        case Visit(id) =>
          if remaining == 0 {
            CullDrain(rest, region);
          } else if id >= |tree.fragments| {
            CullWalk(tree, suppressed, region, rest, remaining - 1);
          } else {
            CullEnter(tree, suppressed, region, id);
            CullWalk(tree, suppressed, region, rest + EnterSteps(tree, id), remaining - 1);
            CullJoin(EnterItems(tree, suppressed, Everything, id),
                     WalkFrom(tree, suppressed, Everything, rest + EnterSteps(tree, id), remaining - 1), region);
          }
      }
    }
  }

  lemma CullNothing(region: Region)
    requires region.Upright()
    ensures Cull([], region) == []
  {
  }

  lemma BuiltIsCulled(tree: FragmentTree, names: Names)
    requires Inflate(tree.Bounds()).Upright()
    ensures BuiltItems(tree, names) == Cull(Items(tree, names, Everything), Inflate(tree.Bounds()))
  {
    hide Inflate, WalkFrom, CanvasBackground, Cull;
    var region := Inflate(tree.Bounds());
    var canvas := CanvasBackground(tree, names);
    CullWalk(tree, canvas.suppressed, region, [Visit(tree.root)], |tree.fragments|);
    CullCanvas(tree, canvas);
    CullJoin(CanvasItems(tree, canvas),
             WalkFrom(tree, canvas.suppressed, Everything, [Visit(tree.root)], |tree.fragments|), region);
  }

  lemma CullCanvas(tree: FragmentTree, canvas: Canvas)
    requires Inflate(tree.Bounds()).Upright()
    ensures Cull(CanvasItems(tree, canvas), Inflate(tree.Bounds())) == CanvasItems(tree, canvas)
  {
    hide Inflate;
    CanvasInRegion(tree, canvas);
    if CanvasItems(tree, canvas) == [] {
      CullNothing(Inflate(tree.Bounds()));
    } else {
      CullOne(CanvasItems(tree, canvas)[0], Inflate(tree.Bounds()));
    }
  }

  // ----- culling and what is seen -----

  /** The far edges are representable; the size may be anything. */
  predicate EdgesFit(r: Rect) {
    Fits(r.origin.x + r.size.w) && Fits(r.origin.y + r.size.h)
  }

  /** Only borders need it: their strips are measured from the far edges. */
  predicate BordersFit(items: seq<DisplayItem>) {
    forall i :: 0 <= i < |items| && items[i].Border? ==> EdgesFit(items[i].rect)
  }

  lemma StripInsideRect(rect: Rect, widths: Sides<Au>, colors: Sides<Rgba>, k: nat, p: Point)
    requires EdgesFit(rect) && k < |Strips(rect, widths, colors)|
    requires Strips(rect, widths, colors)[k].rect.Contains(p)
    ensures rect.Contains(p)
  {
  }

  lemma {:induction false} StripsElsewhere(strips: seq<Strip>, p: Point)
    requires forall k :: 0 <= k < |strips| ==> !strips[k].rect.Contains(p)
    ensures StripMarks(strips, p) == []
  {
    hide Rect.Contains;
    if strips != [] {
      StripsElsewhere(strips[..|strips| - 1], p);
    }
  }

  /** Points of the viewport lie strictly inside the widened region. */
  lemma ViewportInside(bounds: Rect, p: Point)
    requires bounds.Contains(p)
    ensures Inflate(bounds).low.x <= p.x < Inflate(bounds).high.x
            && Inflate(bounds).low.y <= p.y < Inflate(bounds).high.y
  {
  }

  predicate Inside(region: Region, p: Point) {
    region.low.x <= p.x < region.high.x && region.low.y <= p.y < region.high.y
  }

  lemma UnseenRect(region: Region, rect: Rect, p: Point)
    requires Inside(region, p) && !region.IntersectsRect(rect)
    ensures !rect.Contains(p)
  {
  }

  /** Trimming a clip into the region moves none of its edges across a point of the region. */
  lemma TrimmedClipSame(region: Region, rect: Rect, p: Point)
    requires region.Upright() && Inside(region, p)
    ensures ClampRect(region, rect).Contains(p) <==> rect.Contains(p)
  {
    var left, right := Clamp(rect.origin.x, region.low.x, region.high.x),
        Clamp(rect.Right(), region.low.x, region.high.x);
    var top, bottom := Clamp(rect.origin.y, region.low.y, region.high.y),
        Clamp(rect.Bottom(), region.low.y, region.high.y);
    TrimmedEdge(rect.origin.x, rect.size.w, region.low.x, region.high.x);
    TrimmedEdge(rect.origin.y, rect.size.h, region.low.y, region.high.y);
  }

  /** A trimmed span is never longer than a size can say. */
  lemma TrimmedEdge(x: Au, w: Au, low: Au, high: Au)
    requires low <= high
    ensures var left := Clamp(x, low, high);
            var right := Max(Clamp(SatAdd(x, w), low, high), left);
            SatAdd(left, SatSub(right, left)) == right
  {
  }

  /** Runs whose origin lies outside the region go; nothing else does. */
  function Onstage(marks: seq<Mark>, region: Region): seq<Mark> {
    if marks == [] then []
    else
      var last := marks[|marks| - 1];
      Onstage(marks[..|marks| - 1], region) +
      if last.Type? && !region.ContainsPoint(last.run.origin) then [] else [last]
  }

  lemma {:induction false} OnstageJoin(a: seq<Mark>, b: seq<Mark>, region: Region)
    ensures Onstage(a + b, region) == Onstage(a, region) + Onstage(b, region)
    decreases |b|
  {
    hide Region.ContainsPoint;
    if b == [] {
      assert a + b == a;
    } else {
      OnstageJoin(a, b[..|b| - 1], region);
      assert (a + b)[..|a + b| - 1] == a + b[..|b| - 1];
    }
  }

  lemma {:induction false} InkStays(marks: seq<Mark>, region: Region)
    requires forall k :: 0 <= k < |marks| ==> marks[k].Ink?
    ensures Onstage(marks, region) == marks
  {
    hide Region.ContainsPoint;
    if marks != [] {
      InkStays(marks[..|marks| - 1], region);
      assert marks == marks[..|marks| - 1] + [marks[|marks| - 1]];
    }
  }

  lemma {:induction false} StripInks(strips: seq<Strip>, p: Point)
    ensures forall k :: 0 <= k < |StripMarks(strips, p)| ==> StripMarks(strips, p)[k].Ink?
  {
    hide Rect.Contains;
    if strips != [] {
      StripInks(strips[..|strips| - 1], p);
    }
  }

  /** The marks of a culled item at a point inside the region. */
  function CulledMarks(item: DisplayItem, region: Region, p: Point): seq<Mark>
    requires region.Upright()
  {
    if CullItem(item, region) == [] then [] else ItemMarks(CullItem(item, region)[0], p)
  }

  lemma CulledItemMarks(item: DisplayItem, region: Region, p: Point)
    requires region.Upright() && Inside(region, p) && (item.Border? ==> EdgesFit(item.rect))
    ensures CulledMarks(item, region, p) == Onstage(ItemMarks(item, p), region)
  {
    hide Region.Upright, Region.IntersectsRect, Region.ContainsPoint, Rect.Contains, Inside, ClampRect, Strips,
         EdgesFit;
    match item {
      case Fill(rect, color) =>
        InkStays(FillMarks(rect, color, p), region);
        if !region.IntersectsRect(rect) { UnseenRect(region, rect, p); }
      case Border(rect, widths, colors) =>
        var strips := Strips(rect, widths, colors);
        StripInks(strips, p);
        InkStays(StripMarks(strips, p), region);
        if !region.IntersectsRect(rect) {
          UnseenRect(region, rect, p);
          forall k | 0 <= k < |strips| ensures !strips[k].rect.Contains(p) {
            if strips[k].rect.Contains(p) { StripInsideRect(rect, widths, colors, k, p); }
          }
          StripsElsewhere(strips, p);
        }
      case Glyphs(run) =>
        assert [Type(run)][..0] == [];
      case PushClip(_) =>
      case PopClip =>
    }
  }

  /** Two clip stacks a point cannot tell apart. */
  predicate SameClips(a: seq<Rect>, b: seq<Rect>, p: Point) {
    |a| == |b| && forall k :: 0 <= k < |a| ==> (a[k].Contains(p) <==> b[k].Contains(p))
  }

  lemma CulledClipStep(open: seq<Rect>, culled: seq<Rect>, item: DisplayItem, region: Region, p: Point)
    requires region.Upright() && Inside(region, p) && SameClips(open, culled, p)
    ensures var kept := CullItem(item, region);
            SameClips(OpenStep(open, item), if kept == [] then culled else OpenStep(culled, kept[0]), p)
  {
    hide Region.Upright, InRegion, Rect.Contains, Inside, ClampRect;
    if item.PushClip? {
      TrimmedClipSame(region, item.rect, p);
    } else if item.PopClip? {
      PopsStay(region);
    }
  }

  /** Culling keeps the clips open at every moment, and a point of the region sees no difference between them. */
  lemma {:induction false} CulledClips(items: seq<DisplayItem>, region: Region, p: Point)
    requires region.Upright() && Inside(region, p)
    ensures SameClips(OpenClips(items), OpenClips(Cull(items, region)), p)
  {
    hide Region.Upright, SameClips, Inside, CullItem, OpenStep;
    if items == [] {
      assert SameClips([], [], p) by { NoClips(p); }
    } else {
      var before, last := items[..|items| - 1], items[|items| - 1];
      CulledClips(before, region, p);
      CullAtMostOne(last, region);
      OpenOfCulled(Cull(before, region), CullItem(last, region));
      CulledClipStep(OpenClips(before), OpenClips(Cull(before, region)), last, region, p);
    }
  }

  lemma NoClips(p: Point)
    ensures SameClips([], [], p)
  {
  }

  lemma CullAtMostOne(item: DisplayItem, region: Region)
    requires region.Upright()
    ensures |CullItem(item, region)| <= 1
  {
  }

  lemma PopsStay(region: Region)
    ensures InRegion(PopClip, region)
  {
  }

  lemma OpenOfCulled(items: seq<DisplayItem>, added: seq<DisplayItem>)
    requires |added| <= 1
    ensures OpenClips(items + added) == if added == [] then OpenClips(items) else OpenStep(OpenClips(items), added[0])
  {
    if added == [] {
      assert items + added == items;
    } else {
      assert (items + added)[..|items|] == items;
    }
  }

  lemma MarksOfCulled(items: seq<DisplayItem>, added: seq<DisplayItem>, canvas: Rect, p: Point)
    requires |added| <= 1
    ensures Marks(items + added, canvas, p) ==
            Marks(items, canvas, p) +
            if added == [] || !Admitted(canvas, OpenClips(items), p) then [] else ItemMarks(added[0], p)
  {
    hide ItemMarks, Admitted;
    if added == [] {
      assert items + added == items;
    } else {
      assert (items + added)[..|items|] == items;
    }
  }

  /**
   * At a point inside the region, a culled list leaves what the full one leaves, minus the runs that
   * start outside it.
   */
  lemma {:induction false} CulledMarksSame(items: seq<DisplayItem>, region: Region, canvas: Rect, p: Point)
    requires region.Upright() && Inside(region, p) && BordersFit(items)
    ensures Marks(Cull(items, region), canvas, p) == Onstage(Marks(items, canvas, p), region)
  {
    hide Region.Upright, InRegion, Rect.Contains, Inside, ClampRect, ItemMarks, EdgesFit;
    if items != [] {
      var before, last := items[..|items| - 1], items[|items| - 1];
      CulledMarksSame(before, region, canvas, p);
      CulledClips(before, region, p);
      MarksOfCulled(Cull(before, region), CullItem(last, region), canvas, p);
      assert Admitted(canvas, OpenClips(Cull(before, region)), p) <==> Admitted(canvas, OpenClips(before), p);
      CulledItemMarks(last, region, p);
      assert Marks(before, canvas, p) + [] == Marks(before, canvas, p);
      OnstageJoin(Marks(before, canvas, p), ItemMarks(last, p), region);
    }
  }

  /** The colours alone. */
  function Inks(marks: seq<Mark>): seq<Rgba> {
    if marks == [] then []
    else Inks(marks[..|marks| - 1]) + if marks[|marks| - 1].Ink? then [marks[|marks| - 1].color] else []
  }

  lemma {:induction false} OnstageInks(marks: seq<Mark>, region: Region)
    ensures Inks(Onstage(marks, region)) == Inks(marks)
  {
    hide Region.ContainsPoint;
    if marks != [] {
      var before, last := Onstage(marks[..|marks| - 1], region), marks[|marks| - 1];
      OnstageInks(marks[..|marks| - 1], region);
      assert (before + [last])[..|before|] == before;
      assert before + [] == before;
    }
  }

  /**
   * Executing the built list paints every point of the viewport with the same
   * colours in the same order as executing the list nothing was left out of and
   * no clip was trimmed in; of the runs, exactly those starting outside the
   * widened viewport are missing.
   */
  lemma CullingPreservesPicture(tree: FragmentTree, names: Names, p: Point)
    requires Inflate(tree.Bounds()).Upright() && tree.Bounds().Contains(p)
    requires BordersFit(Items(tree, names, Everything))
    ensures var full := DrawMarks(Drawn(Items(tree, names, Everything), tree.Bounds()), p);
            var built := DrawMarks(Drawn(BuiltItems(tree, names), tree.Bounds()), p);
            && built == Onstage(full, Inflate(tree.Bounds()))
            && Inks(built) == Inks(full)
  {
    hide Items, BuiltItems, Inflate, BordersFit, Rect.Contains, Drawn, DrawMarks, Marks;
    var region := Inflate(tree.Bounds());
    ItemsClose(tree, names, Everything);
    BuiltBalance(tree, names);
    DrawnIsMeant(Items(tree, names, Everything), tree.Bounds(), p);
    DrawnIsMeant(BuiltItems(tree, names), tree.Bounds(), p);
    BuiltIsCulled(tree, names);
    ViewportInside(tree.Bounds(), p);
    CulledMarksSame(Items(tree, names, Everything), region, tree.Bounds(), p);
    OnstageInks(Marks(Items(tree, names, Everything), tree.Bounds(), p), region);
  }

  // ----- one box -----

  lemma {:induction false} UnclippedMarks(items: seq<DisplayItem>, canvas: Rect, p: Point)
    requires ClipFree(items) && canvas.Contains(p)
    ensures OpenClips(items) == []
    ensures items != [] ==>
              Marks(items, canvas, p) == Marks(items[..|items| - 1], canvas, p) + ItemMarks(items[|items| - 1], p)
  {
    hide Rect.Contains, ItemMarks;
    if items != [] {
      UnclippedMarks(items[..|items| - 1], canvas, p);
    }
  }

  lemma {:induction false} StripMarksWithin(strips: seq<Strip>, p: Point)
    ensures StripMarks(strips, p) != [] ==>
              exists k :: 0 <= k < |strips| && strips[k].rect.Contains(p)
                            && Ink(strips[k].color) == StripMarks(strips, p)[|StripMarks(strips, p)| - 1]
    ensures (exists k :: 0 <= k < |strips| && strips[k].rect.Contains(p) && strips[k].color.a > 0) ==>
            StripMarks(strips, p) != []
  {
    hide Rect.Contains;
    if strips != [] {
      var before := strips[..|strips| - 1];
      StripMarksWithin(before, p);
      if k :| 0 <= k < |strips| && strips[k].rect.Contains(p) && strips[k].color.a > 0 {
        assert k < |before| ==> before[k] == strips[k];
      }
    }
  }

  /**
   * A box paints nothing outside its border box, its background alone inside
   * its borders, and on its borders a border colour over that background.
   */
  lemma BorderOverBackground(f: Fragment, style: LayoutStyle, suppressed: bool, canvas: Rect, p: Point)
    requires f.kind.Block? && f.borderBox.Representable() && canvas.Contains(p)
    requires SolidBorderWidths(style).Some? ==> BorderWidthsValid(f.borderBox, SolidBorderWidths(style).value)
    ensures var marks := Marks(OwnItems(f, style, suppressed, Everything), canvas, p);
            var under := if !suppressed && style.background.a > 0 then [Ink(style.background)] else [];
            var widths := SolidBorderWidths(style);
            if !f.borderBox.Contains(p) then marks == []
            else if widths.None? || InsideBorder(f.borderBox, widths.value, p) then marks == under
            else
              var strips := Strips(f.borderBox, widths.value, style.borderColor);
              under <= marks &&
              (marks == under ||
               exists k ::
                 0 <= k < |strips| && strips[k].rect.Contains(p) && marks[|marks| - 1] == Ink(strips[k].color))
  {
    hide Rect.Contains, Strips, SolidBorderWidths, BorderWidthsValid, InsideBorder, Rect.Representable;
    BoxMarks(f, style, suppressed, canvas, p);
    BackMarks(f, style, suppressed, canvas, p);
    hide Marks, Background, ItemMarks, OwnItems;
    var widths := SolidBorderWidths(style);
    if widths.Some? {
      var strips := Strips(f.borderBox, widths.value, style.borderColor);
      StripsFrame(f.borderBox, widths.value, style.borderColor, p);
      StripMarksWithin(strips, p);
    }
  }

  lemma BoxMarks(f: Fragment, style: LayoutStyle, suppressed: bool, canvas: Rect, p: Point)
    requires f.kind.Block? && canvas.Contains(p)
    ensures Marks(OwnItems(f, style, suppressed, Everything), canvas, p) ==
            Marks(Background(f, style, suppressed), canvas, p) +
            if SolidBorderWidths(style).None? then []
            else StripMarks(Strips(f.borderBox, SolidBorderWidths(style).value, style.borderColor), p)
  {
    hide Rect.Contains, Strips, SolidBorderWidths, Background, Marks, StripMarks;
    var back, border := Background(f, style, suppressed), BorderItems(f, style);
    OwnClipFree(f, style, suppressed, Everything);
    UnclippedMarks(back + border, canvas, p);
    if border == [] {
      assert back + border == back;
    } else {
      assert (back + border)[..|back|] == back;
    }
  }

  lemma BackMarks(f: Fragment, style: LayoutStyle, suppressed: bool, canvas: Rect, p: Point)
    requires canvas.Contains(p)
    ensures Marks(Background(f, style, suppressed), canvas, p) ==
            if !suppressed && style.background.a > 0 && f.borderBox.Contains(p) then [Ink(style.background)] else []
  {
    EmptyContainsNothing(f.borderBox, p);
    var back := Background(f, style, suppressed);
    if back != [] {
      UnclippedMarks(back, canvas, p);
      assert back[..0] == [];
    }
  }
}
