/**
 * When a built list is accepted, told from the fragments: which of them paint
 * something unusable, how deep their clips nest, and how many items they make.
 */
module ListAcceptance {
  import opened AppUnits
  import opened Geometry
  import opened Styles
  import opened Wrappers
  import opened BoxTrees
  import opened LayoutContext
  import opened Fragments
  import opened BlockFlow
  import opened FragmentOrder
  import opened DisplayLists
  import opened PaintBuild
  import opened PaintOrder
  import opened PaintLayout
  import opened Culling

  // ----- what the fragments say -----

  predicate PaintsBackground(f: Fragment, style: LayoutStyle, suppressed: bool) {
    !suppressed && style.background.a > 0 && !f.borderBox.IsEmpty()
  }

  predicate RunUsable(run: GlyphRun) {
    |run.glyphs| <= MAX_GLYPHS_PER_RUN && forall k :: 0 <= k < |run.glyphs| ==> GlyphFits(run.origin, run.glyphs[k])
  }

  predicate RunShown(run: GlyphRun, region: Region) {
    run.glyphs != [] && region.ContainsPoint(run.origin)
  }

  /**
   * The numbers a fragment paints with can be used: the border box of a block that is
   * seen and paints has representable edges, and the runs that are seen are short
   * enough, with glyphs at representable positions.
   */
  predicate NumbersUsable(f: Fragment, style: LayoutStyle, suppressed: bool, region: Region) {
    && (f.kind.Block? && region.IntersectsRect(f.borderBox)
        && (PaintsBackground(f, style, suppressed) || SolidBorderWidths(style).Some?) ==>
          f.borderBox.Representable())
    && (f.kind.Text? ==>
          forall k :: 0 <= k < |f.kind.runs| && RunShown(f.kind.runs[k], region) ==> RunUsable(f.kind.runs[k]))
  }

  /** No side of the border a box paints is thicker than the box. */
  predicate BorderInside(box: Rect, style: LayoutStyle) {
    SolidBorderWidths(style).Some? ==> BorderWidthsValid(box, SolidBorderWidths(style).value)
  }

  predicate OwnUsable(f: Fragment, style: LayoutStyle, suppressed: bool, region: Region) {
    && NumbersUsable(f, style, suppressed, region)
    && (f.kind.Block? && region.IntersectsRect(f.borderBox) ==> BorderInside(f.borderBox, style))
  }

  predicate UsableAt(tree: FragmentTree, suppressed: Option<FragmentId>, region: Region, id: FragmentId)
    requires id < |tree.fragments|
  {
    OwnUsable(tree.fragments[id], tree.StyleOf(tree.fragments[id]), suppressed == Some(id), region)
  }

  function ClipDepth(tree: FragmentTree, id: FragmentId): nat
    requires id < |tree.fragments|
  {
    if Clips(tree.StyleOf(tree.fragments[id])) then 1 else 0
  }

  /** The most clips any fragment at or below `id` lies under or opens, counted from `id`. */
  function Nest(tree: FragmentTree, id: FragmentId): nat
    requires ChildrenFirst(tree.fragments) && id < |tree.fragments|
    decreases id, 1, 0
  {
    ClipDepth(tree, id) + NestChildren(tree, id, 0)
  }

  function NestChildren(tree: FragmentTree, id: FragmentId, k: nat): nat
    requires ChildrenFirst(tree.fragments) && id < |tree.fragments|
    decreases id, 0, |tree.fragments[id].children| - k
  {
    if k >= |tree.fragments[id].children| then 0
    else Max(Nest(tree, tree.fragments[id].children[k]), NestChildren(tree, id, k + 1))
  }

  function RunsShown(runs: seq<GlyphRun>, region: Region): nat {
    if runs == [] then 0
    else RunsShown(runs[..|runs| - 1], region) + if RunShown(runs[|runs| - 1], region) then 1 else 0
  }

  /** How many items a fragment makes of itself, its clip's two included. */
  function OwnCount(f: Fragment, style: LayoutStyle, suppressed: bool, region: Region): nat {
    (if f.kind.Block? && region.IntersectsRect(f.borderBox) then
       (if PaintsBackground(f, style, suppressed) then 1 else 0) + (if SolidBorderWidths(style).Some? then 1 else 0)
     else if f.kind.Text? then RunsShown(f.kind.runs, region)
     else 0) +
    if Clips(style) then 2 else 0
  }

  /** How many items the fragments at and below `id` make. */
  function Emitted(tree: FragmentTree, suppressed: Option<FragmentId>, region: Region, id: FragmentId): nat
    requires ChildrenFirst(tree.fragments) && id < |tree.fragments|
    decreases id, 1, 0
  {
    OwnCount(tree.fragments[id], tree.StyleOf(tree.fragments[id]), suppressed == Some(id), region) +
    EmittedChildren(tree, suppressed, region, id, 0)
  }

  function EmittedChildren(tree: FragmentTree, suppressed: Option<FragmentId>, region: Region, id: FragmentId,
                           k: nat): nat
    requires ChildrenFirst(tree.fragments) && id < |tree.fragments|
    decreases id, 0, |tree.fragments[id].children| - k
  {
    if k >= |tree.fragments[id].children| then 0
    else Emitted(tree, suppressed, region, tree.fragments[id].children[k]) +
         EmittedChildren(tree, suppressed, region, id, k + 1)
  }

  // ----- what the items say -----

  /** From `depth` open clips, every item is usable and none opens one clip too many. */
  predicate Passes(items: seq<DisplayItem>, depth: int) {
    items == [] ||
    (Usable(items[0]) && (items[0].PushClip? ==> depth < MAX_CLIP_DEPTH)
     && Passes(items[1..], depth + Balance(items[..1])))
  }

  lemma {:induction false} BalanceJoin(a: seq<DisplayItem>, b: seq<DisplayItem>)
    ensures Balance(a + b) == Balance(a) + Balance(b)
  {
    if b == [] {
      assert a + b == a;
    } else {
      BalanceJoin(a, b[..|b| - 1]);
      assert (a + b)[..|a + b| - 1] == a + b[..|b| - 1];
    }
  }

  lemma {:induction false} PassesJoin(a: seq<DisplayItem>, b: seq<DisplayItem>, depth: int)
    ensures Passes(a + b, depth) <==> Passes(a, depth) && Passes(b, depth + Balance(a))
  {
    hide Usable, Balance;
    if a == [] {
      assert a + b == b;
      assert Balance(a) == 0 by { NoBalance(); }
    } else {
      PassesJoin(a[1..], b, depth + Balance(a[..1]));
      assert (a + b)[1..] == a[1..] + b && (a + b)[..1] == a[..1];
      assert a == a[..1] + a[1..];
      BalanceJoin(a[..1], a[1..]);
    }
  }

  lemma NoBalance()
    ensures Balance([]) == 0
  {
  }

  /** The same, item by item. */
  lemma {:induction false} PassesItems(items: seq<DisplayItem>, depth: int)
    ensures Passes(items, depth) <==>
            forall i :: 0 <= i < |items| ==>
              Usable(items[i]) && (items[i].PushClip? ==> Balance(items[..i]) + depth < MAX_CLIP_DEPTH)
  {
    hide Usable, Balance;
    NoBalance();
    if items != [] {
      var rest, next := items[1..], depth + Balance(items[..1]);
      PassesItems(rest, next);
      assert items[..0] == [];
      forall i | 0 < i < |items| ensures rest[i - 1] == items[i]
             && Balance(rest[..i - 1]) + next == Balance(items[..i]) + depth {
        assert items[..i] == items[..1] + rest[..i - 1];
        BalanceJoin(items[..1], rest[..i - 1]);
      }
      assert forall j :: 0 <= j < |rest| ==>
               rest[j] == items[j + 1] && Balance(rest[..j]) + next == Balance(items[..j + 1]) + depth;
    }
  }

  lemma PlainBalance(items: seq<DisplayItem>)
    requires ClipFree(items)
    ensures Balance(items) == 0
  {
    if items != [] {
      PlainBalance(items[..|items| - 1]);
    }
  }

  lemma PlainPasses(items: seq<DisplayItem>, depth: int)
    requires ClipFree(items)
    ensures Passes(items, depth) <==> forall i :: 0 <= i < |items| ==> Usable(items[i])
  {
    hide Usable, Balance;
    PassesItems(items, depth);
  }

  // ----- one fragment -----

  lemma {:induction false} RunsPass(runs: seq<GlyphRun>, region: Region)
    ensures var items := RunItems(runs, Widened(region));
            && |items| == RunsShown(runs, region)
            && ((forall i :: 0 <= i < |items| ==> Usable(items[i])) <==>
                forall k :: 0 <= k < |runs| && RunShown(runs[k], region) ==> RunUsable(runs[k]))
  {
    hide Region.ContainsPoint, GlyphFits;
    if runs != [] {
      var last := runs[|runs| - 1];
      RunsPass(runs[..|runs| - 1], region);
      var before := RunItems(runs[..|runs| - 1], Widened(region));
      var items := RunItems(runs, Widened(region));
      if RunShown(last, region) {
        assert items == before + [Glyphs(last)];
        assert forall i :: 0 <= i < |before| ==> items[i] == before[i];
        assert items[|before|] == Glyphs(last);
      } else {
        assert items == before;
      }
      assert forall k :: 0 <= k < |runs| - 1 ==> runs[k] == runs[..|runs| - 1][k];
    }
  }

  lemma BlockUsable(back: seq<DisplayItem>, border: seq<DisplayItem>)
    requires |back| <= 1 && |border| <= 1
    ensures (forall i :: 0 <= i < |back + border| ==> Usable((back + border)[i])) <==>
            (back != [] ==> Usable(back[0])) && (border != [] ==> Usable(border[0]))
  {
    hide Usable;
    if back != [] {
      assert (back + border)[0] == back[0];
    }
    if border != [] {
      assert (back + border)[|back|] == border[0];
    }
  }

  lemma OwnPasses(f: Fragment, style: LayoutStyle, suppressed: bool, region: Region, depth: int)
    ensures var items := OwnItems(f, style, suppressed, Widened(region));
            && |items| + (if Clips(style) then 2 else 0) == OwnCount(f, style, suppressed, region)
            && Balance(items) == 0
            && (Passes(items, depth) <==> OwnUsable(f, style, suppressed, region))
  {
    hide Region.ContainsPoint, Region.IntersectsRect, GlyphFits, Passes, Balance, SolidBorderWidths, BorderWidthsValid;
    var items := OwnItems(f, style, suppressed, Widened(region));
    OwnClipFree(f, style, suppressed, Widened(region));
    PlainBalance(items);
    PlainPasses(items, depth);
    if f.kind.Text? {
      RunsPass(f.kind.runs, region);
    } else if f.kind.Block? && region.IntersectsRect(f.borderBox) {
      BlockUsable(Background(f, style, suppressed), BorderItems(f, style));
    }
  }

  lemma PushPasses(rect: Rect, depth: int)
    ensures Passes([PushClip(rect)], depth) <==> depth < MAX_CLIP_DEPTH
    ensures Balance([PushClip(rect)]) == 1
  {
    BalanceOne(PushClip(rect));
    assert [PushClip(rect)][1..] == [];
  }

  lemma PopPasses(depth: int)
    ensures Passes([PopClip], depth) && Balance([PopClip]) == -1
  {
    BalanceOne(PopClip);
    assert [PopClip][1..] == [];
  }

  lemma EnterPasses(tree: FragmentTree, suppressed: Option<FragmentId>, region: Region, id: FragmentId, depth: int)
    requires id < |tree.fragments|
    ensures var items := EnterItems(tree, suppressed, Widened(region), id);
            var f := tree.fragments[id];
            && |items| + ClipDepth(tree, id) == OwnCount(f, tree.StyleOf(f), suppressed == Some(id), region)
            && Balance(items) == ClipDepth(tree, id)
            && (Passes(items, depth) <==>
                  UsableAt(tree, suppressed, region, id) && (ClipDepth(tree, id) == 1 ==> depth < MAX_CLIP_DEPTH))
  {
    hide OwnItems, OwnUsable, Passes, Balance, OwnCount, ClampRect;
    var f := tree.fragments[id];
    var style := tree.StyleOf(f);
    var own := OwnItems(f, style, suppressed == Some(id), Widened(region));
    OwnPasses(f, style, suppressed == Some(id), region, depth);
    if Clips(style) {
      var rect := Widened(region).Trim(f.paddingBox);
      PushPasses(rect, depth);
      BalanceJoin(own, [PushClip(rect)]);
      PassesJoin(own, [PushClip(rect)], depth);
    } else {
      assert EnterItems(tree, suppressed, Widened(region), id) == own;
    }
  }

  // ----- a whole subtree -----

  /** Everything at and below a fragment is usable. */
  ghost predicate AllUsable(tree: FragmentTree, suppressed: Option<FragmentId>, region: Region, id: FragmentId)
    requires ChildrenFirst(tree.fragments) && id < |tree.fragments|
  {
    forall i :: 0 <= i < |tree.fragments| && Reaches(tree.fragments, id, i) ==> UsableAt(tree, suppressed, region, i)
  }

  ghost predicate ChildrenUsable(tree: FragmentTree, suppressed: Option<FragmentId>, region: Region, id: FragmentId,
                                 k: nat)
    requires ChildrenFirst(tree.fragments) && id < |tree.fragments|
  {
    forall j :: k <= j < |tree.fragments[id].children| ==>
           AllUsable(tree, suppressed, region, tree.fragments[id].children[j])
  }

  lemma UsableBelow(tree: FragmentTree, suppressed: Option<FragmentId>, region: Region, id: FragmentId)
    requires ChildrenFirst(tree.fragments) && id < |tree.fragments|
    ensures AllUsable(tree, suppressed, region, id) <==>
            UsableAt(tree, suppressed, region, id) && ChildrenUsable(tree, suppressed, region, id, 0)
  {
    hide UsableAt;
    var children := tree.fragments[id].children;
    if AllUsable(tree, suppressed, region, id) {
      assert Reaches(tree.fragments, id, id);
      forall j, i | 0 <= j < |children| && 0 <= i < |tree.fragments| && Reaches(tree.fragments, children[j], i)
        ensures UsableAt(tree, suppressed, region, i)
      {
        assert Reaches(tree.fragments, id, i);
      }
    }
  }

  /** What a subtree paints passes from `depth` open clips exactly when its fragments are usable and nest no deeper. */
  lemma {:induction false} TreePasses(tree: FragmentTree, suppressed: Option<FragmentId>, region: Region,
                                      id: FragmentId, depth: nat)
    requires ChildrenFirst(tree.fragments) && id < |tree.fragments| && depth <= MAX_CLIP_DEPTH
    ensures var items := PaintTree(tree, suppressed, Widened(region), id);
            && |items| == Emitted(tree, suppressed, region, id) && Balance(items) == 0
            && (Passes(items, depth) <==>
                  AllUsable(tree, suppressed, region, id) && depth + Nest(tree, id) <= MAX_CLIP_DEPTH)
    decreases id, 1, 0
  {
    hide EnterItems, Passes, Balance, OwnCount, AllUsable, UsableAt, ChildrenUsable, ChildrenFirst;
    var lens := Widened(region);
    var enter := EnterItems(tree, suppressed, lens, id);
    var children := PaintChildren(tree, suppressed, lens, id, 0);
    var pop: seq<DisplayItem> := if Clips(tree.StyleOf(tree.fragments[id])) then [PopClip] else [];
    EnterPasses(tree, suppressed, region, id, depth);
    UsableBelow(tree, suppressed, region, id);
    BalanceJoin(enter, children);
    BalanceJoin(enter + children, pop);
    PassesJoin(enter, children, depth);
    PassesJoin(enter + children, pop, depth);
    ClosePasses(pop, depth + ClipDepth(tree, id));
    if depth + ClipDepth(tree, id) <= MAX_CLIP_DEPTH {
      ChildrenPass(tree, suppressed, region, id, 0, depth + ClipDepth(tree, id));
    } else {
      ChildrenPass(tree, suppressed, region, id, 0, 0);
    }
  }

  lemma ClosePasses(pop: seq<DisplayItem>, depth: int)
    requires pop == [] || pop == [PopClip]
    ensures Passes(pop, depth) && Balance(pop) == -|pop|
  {
    hide Balance;
    NoBalance();
    PopPasses(depth);
  }

  lemma {:induction false} ChildrenPass(tree: FragmentTree, suppressed: Option<FragmentId>, region: Region,
                                        id: FragmentId,
                                        k: nat, depth: nat)
    requires ChildrenFirst(tree.fragments) && id < |tree.fragments| && depth <= MAX_CLIP_DEPTH
    ensures var items := PaintChildren(tree, suppressed, Widened(region), id, k);
            && |items| == EmittedChildren(tree, suppressed, region, id, k) && Balance(items) == 0
            && (Passes(items, depth) <==>
                  ChildrenUsable(tree, suppressed, region, id, k)
                      && depth + NestChildren(tree, id, k) <= MAX_CLIP_DEPTH)
    decreases id, 0, |tree.fragments[id].children| - k
  {
    hide PaintTree, Passes, Balance, AllUsable, Nest, Emitted;
    var list := tree.fragments[id].children;
    if k < |list| {
      var first := PaintTree(tree, suppressed, Widened(region), list[k]);
      var rest := PaintChildren(tree, suppressed, Widened(region), id, k + 1);
      TreePasses(tree, suppressed, region, list[k], depth);
      ChildrenPass(tree, suppressed, region, id, k + 1, depth);
      BalanceJoin(first, rest);
      PassesJoin(first, rest, depth);
    } else {
      NoBalance();
      assert Passes([], depth) by { NothingPasses(depth); }
    }
  }

  lemma NothingPasses(depth: int)
    ensures Passes([], depth)
  {
  }

  // ----- the whole list -----

  /**
   * When the list built for a post-ordered tree is accepted, in terms of the tree:
   * the viewport is a usable rect, the items are not too many, the clips nest no
   * deeper than the limit, and everything painted is usable.
   */
  lemma AcceptedExactly(tree: FragmentTree, names: Names)
    requires PostOrdered(tree.fragments) && tree.root < |tree.fragments|
    ensures var canvas := CanvasBackground(tree, names);
            var region := Inflate(tree.Bounds());
            Accepted(BuiltItems(tree, names), tree.Bounds()) <==>
            && BoundsValid(tree.Bounds())
            && (if canvas.color.Some? then 1 else 0) + Emitted(tree, canvas.suppressed, region, tree.root)
               <= MAX_ITEMS
            && Nest(tree, tree.root) <= MAX_CLIP_DEPTH
            && AllUsable(tree, canvas.suppressed, region, tree.root)
  {
    hide BuiltItems, Fault, Balance, Passes, PaintTree, Inflate, CanvasBackground, AllUsable, Nest, Emitted, Low,
         PostOrdered;
    var canvas := CanvasBackground(tree, names);
    var region := Inflate(tree.Bounds());
    if BoundsValid(tree.Bounds()) {
      ValidIsUpright(tree);
      BuiltAcceptedExactly(tree, names);
      var items := BuiltItems(tree, names);
      PassesItems(items, 0);
      BuiltIsPainted(tree, names);
      var fill := CanvasItems(tree, canvas);
      CanvasPasses(tree, canvas);
      PassesJoin(fill, PaintTree(tree, canvas.suppressed, Widened(region), tree.root), 0);
      TreePasses(tree, canvas.suppressed, region, tree.root, 0);
    }
  }

  lemma ValidIsUpright(tree: FragmentTree)
    requires BoundsValid(tree.Bounds())
    ensures Inflate(tree.Bounds()).Upright()
  {
  }

  lemma BuiltIsPainted(tree: FragmentTree, names: Names)
    requires PostOrdered(tree.fragments) && tree.root < |tree.fragments|
    ensures var canvas := CanvasBackground(tree, names);
            && ChildrenFirst(tree.fragments)
            && BuiltItems(tree, names) ==
               CanvasItems(tree, canvas) + PaintTree(tree, canvas.suppressed, Widened(Inflate(tree.Bounds())),
                                                     tree.root)
  {
    hide WalkFrom, PaintTree, Inflate, CanvasBackground, CanvasItems, Low;
    WalkIsPaintOrder(tree, CanvasBackground(tree, names).suppressed, Widened(Inflate(tree.Bounds())));
  }

  lemma CanvasPasses(tree: FragmentTree, canvas: Canvas)
    requires BoundsValid(tree.Bounds())
    ensures var fill := CanvasItems(tree, canvas);
            Passes(fill, 0) && Balance(fill) == 0 && |fill| == if canvas.color.Some? then 1 else 0
  {
    var fill := CanvasItems(tree, canvas);
    PlainBalance(fill);
    PlainPasses(fill, 0);
  }

  /** The same for a laid-out page, where every fragment hangs below the root. */
  lemma LaidOutPageAccepted(env: Env, names: Names)
    requires WellFormed(env.tree)
    ensures var tree := Painted(env, LayRoot(env));
            var canvas := CanvasBackground(tree, names);
            var region := Inflate(tree.Bounds());
            && ChildrenFirst(tree.fragments) && tree.root < |tree.fragments|
            && (Accepted(BuiltItems(tree, names), tree.Bounds()) <==>
                  && BoundsValid(tree.Bounds())
                  && (if canvas.color.Some? then 1 else 0) + Emitted(tree, canvas.suppressed, region, tree.root)
                     <= MAX_ITEMS
                  && Nest(tree, tree.root) <= MAX_CLIP_DEPTH
                  && forall i :: 0 <= i < |tree.fragments| ==> UsableAt(tree, canvas.suppressed, region, i))
  {
    hide BuiltItems, Accepted, Inflate, CanvasBackground, UsableAt, Nest, Emitted, Low, Packed, LayRoot, BoundsValid,
         WellFormed;
    hide ChildrenFirst, Reaches, PostOrdered;
    LayoutPacked(env);
    PackedIsPostOrdered(LayRoot(env).arena.fragments);
    AcceptedExactly(Painted(env, LayRoot(env)), names);
  }
}
