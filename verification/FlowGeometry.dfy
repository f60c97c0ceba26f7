/**
 * Where block layout puts things: in-flow siblings under one another with
 * collapsed gaps, containers around their children, and the width equation.
 * "No saturation" is always spelled out as the sums that must be representable.
 */
module FlowGeometry {
  import opened AppUnits
  import opened Geometry
  import opened Styles
  import opened Wrappers
  import opened BoxTrees
  import opened BoxModels
  import opened LayoutContext
  import opened Fragments
  import opened Margins
  import opened BlockFlow

  // ----- the sibling gap against the set rule -----

  lemma {:induction false} PeakConcat(a: seq<Au>, b: seq<Au>)
    ensures Peak(a + b) == Max(Peak(a), Peak(b)) && Trough(a + b) == Min(Trough(a), Trough(b))
  {
    if a == [] {
      assert a + b == b;
    } else {
      assert (a + b)[1..] == a[1..] + b;
      PeakConcat(a[1..], b);
    }
  }

  /** One chain reaches at least as far as the other in both directions. */
  predicate Covers(peak: int, trough: int, otherPeak: int, otherTrough: int) {
    otherPeak <= peak && trough <= otherTrough
  }

  /**
   * When collapsing two already collapsed chains agrees with the rule over their
   * union. Nets of one sign: the chain with the larger net covers the other. Nets
   * of opposite signs: the smaller peak and the smaller trough cancel.
   */
  predicate GapFollowsSetRule(above: seq<Au>, below: seq<Au>) {
    var a, b := Collapsed(above), Collapsed(below);
    if 0 <= a && 0 <= b then
      || (Covers(Peak(above), Trough(above), Peak(below), Trough(below)) && b <= a)
      || (Covers(Peak(below), Trough(below), Peak(above), Trough(above)) && a <= b)
    else if a <= 0 && b <= 0 then
      || (Covers(Peak(above), Trough(above), Peak(below), Trough(below)) && a <= b)
      || (Covers(Peak(below), Trough(below), Peak(above), Trough(above)) && b <= a)
    else
      Min(Peak(above), Peak(below)) == -Max(Trough(above), Trough(below))
  }

  /** The gap between siblings is computed from two collapsed chains; this is exactly when the set rule agrees. */
  lemma SiblingGapRule(above: seq<Au>, below: seq<Au>)
    ensures Collapsed([Collapsed(above), Collapsed(below)]) == Collapsed(above + below)
            <==> GapFollowsSetRule(above, below)
  {
    PeakConcat(above, below);
    PairCollapse(Collapsed(above), Collapsed(below));
  }

  lemma PairCollapse(a: Au, b: Au)
    ensures Peak([a, b]) == Max(Max(a, 0), Max(b, 0)) && Trough([a, b]) == Min(Min(a, 0), Min(b, 0))
  {
    var s: seq<Au> := [a, b];
    var t: seq<Au> := [b];
    assert s[1..] == t && t[1..] == [];
    assert Peak(t) == Max(Max(b, 0), 0) && Trough(t) == Min(Min(b, 0), 0);
  }

  predicate NonNegative(margins: seq<Au>) {
    forall i :: 0 <= i < |margins| ==> 0 <= margins[i]
  }

  predicate NonPositive(margins: seq<Au>) {
    forall i :: 0 <= i < |margins| ==> margins[i] <= 0
  }

  /** Margins of one sign: the set rule holds, and the gap is the margin of both chains furthest from zero. */
  lemma OneSignGap(above: seq<Au>, below: seq<Au>)
    requires (NonNegative(above) && NonNegative(below)) || (NonPositive(above) && NonPositive(below))
    ensures Collapsed([Collapsed(above), Collapsed(below)]) == Collapsed(above + below)
            == if NonNegative(above) && NonNegative(below) then Max(Peak(above), Peak(below))
               else Min(Trough(above), Trough(below))
    ensures GapFollowsSetRule(above, below)
  {
    FlatTrough(above);
    FlatTrough(below);
    PeakConcat(above, below);
    PairCollapse(Collapsed(above), Collapsed(below));
  }

  lemma {:induction false} FlatTrough(margins: seq<Au>)
    ensures NonNegative(margins) ==> Trough(margins) == 0
    ensures NonPositive(margins) ==> Peak(margins) == 0
  {
    if margins != [] {
      FlatTrough(margins[1..]);
    }
  }

  /** The peak is the largest margin, where any is positive; likewise the trough. */
  lemma {:induction false} PeakIsLargest(margins: seq<Au>)
    ensures forall i :: 0 <= i < |margins| ==> Trough(margins) <= margins[i] <= Peak(margins)
    ensures Peak(margins) == 0 || Peak(margins) in margins
    ensures Trough(margins) == 0 || Trough(margins) in margins
  {
    if margins != [] {
      PeakIsLargest(margins[1..]);
      forall i | 0 <= i < |margins| ensures Trough(margins) <= margins[i] <= Peak(margins) {
        if i > 0 {
          assert margins[i] == margins[1..][i - 1];
        }
      }
    }
  }

  // ----- siblings under one another -----

  /** One laid-out child: where it was placed and how tall its border box is, before any relative shift. */
  datatype Slot = Slot(box: BoxId, place: ChildPlacement, height: Au) {
    function Top(): int {
      place.origin.y
    }

    function Bottom(): int {
      place.origin.y + height
    }
  }

  /** The children a frame still lays out, in order. */
  ghost function Slots(env: Env, id: BoxId, f: Frame, a: Arena): (r: seq<Slot>)
    requires WellFormed(env.tree) && id < |env.tree.boxes| && f.blockChildren == env.tree.boxes[id].children
    decreases |f.blockChildren| - f.nextChild
  {
    if f.nextChild >= |f.blockChildren| then []
    else
      var c := f.blockChildren[f.nextChild];
      var p := PlaceChild(env, f, c);
      var laid := LayBox(env, c, p, a);
      [Slot(c, p, laid.height)] + Slots(env, id, Receive(f.(nextChild := f.nextChild + 1), p, laid), laid.arena)
  }

  /** The gap above slot `k`: the chain below the box above it, collapsed with its own chain. */
  ghost function GapAbove(env: Env, slots: seq<Slot>, k: nat): Au
    requires WellFormed(env.tree) && 0 < k < |slots|
    requires forall i :: 0 <= i < |slots| ==> slots[i].box < |env.tree.boxes|
  {
    Collapsed([EffectiveMargin(env, Edge.Bottom, slots[k - 1].box), EffectiveMargin(env, Edge.Top, slots[k].box)])
  }

  /** The cursor sums of laying `slots` out under a content origin at `y` are all representable. */
  ghost predicate NoSaturation(env: Env, y: Au, slots: seq<Slot>)
    requires WellFormed(env.tree)
  {
    && (forall k :: 0 <= k < |slots| ==> slots[k].box < |env.tree.boxes|)
    && (forall k :: 0 <= k < |slots| ==>
          Fits(slots[k].Top() - y) && Fits(slots[k].Bottom() - y) && Fits(slots[k].Bottom()))
    && (forall k :: 0 < k < |slots| ==> Fits(slots[k - 1].Bottom() + GapAbove(env, slots, k)))
  }

  /** One slot per remaining child, in order. */
  lemma {:induction false} SlotBoxes(env: Env, id: BoxId, f: Frame, a: Arena)
    requires WellFormed(env.tree) && id < |env.tree.boxes| && f.blockChildren == env.tree.boxes[id].children
    requires f.nextChild <= |f.blockChildren|
    ensures var slots := Slots(env, id, f, a);
            && |slots| == |f.blockChildren| - f.nextChild
            && forall k :: 0 <= k < |slots| ==> slots[k].box == f.blockChildren[f.nextChild + k] < |env.tree.boxes|
    decreases |f.blockChildren| - f.nextChild
  {
    hide UniqueParents, Homogeneous, LayBox, Receive, PlaceChild;
    if f.nextChild < |f.blockChildren| {
      var c := f.blockChildren[f.nextChild];
      var p := PlaceChild(env, f, c);
      var laid := LayBox(env, c, p, a);
      Advanced(env, f, c, p, laid);
      var g := Receive(f.(nextChild := f.nextChild + 1), p, laid);
      SlotBoxes(env, id, g, laid.arena);
      forall k | 0 <= k < |Slots(env, id, f, a)|
        ensures Slots(env, id, f, a)[k].box == f.blockChildren[f.nextChild + k] < |env.tree.boxes|
      {
        if k > 0 {
          assert Slots(env, id, f, a)[k] == Slots(env, id, g, laid.arena)[k - 1];
        }
      }
    }
  }

  /** One step of the cursor: the next child starts one gap below the previous one's bottom. */
  lemma NextTop(env: Env, f: Frame, p: ChildPlacement, laid: Laid, c: BoxId)
    requires WellFormed(env.tree) && c < |env.tree.boxes|
    requires Fits(p.origin.y - f.contentOrigin.y) && Fits(p.origin.y + laid.height - f.contentOrigin.y)
    requires Fits(p.origin.y + laid.height)
    requires Fits(p.origin.y + laid.height + Collapsed([p.effectiveBottom, EffectiveMargin(env, Edge.Top, c)]))
    ensures var g := Receive(f.(nextChild := f.nextChild + 1), p, laid);
            && PlaceChild(env, g, c).origin.y
               == p.origin.y + laid.height + Collapsed([p.effectiveBottom, EffectiveMargin(env, Edge.Top, c)])
            && g.contentBottom == p.origin.y + laid.height - f.contentOrigin.y
  {
    hide EffectiveMargin, ResolveBoxModel, Collapsed, UniqueParents, Homogeneous;
  }

  /** Every sibling starts exactly one collapsed gap below the one before it, whatever the signs. */
  lemma {:induction false} SiblingsStack(env: Env, id: BoxId, f: Frame, a: Arena, k: nat)
    requires WellFormed(env.tree) && id < |env.tree.boxes| && f.blockChildren == env.tree.boxes[id].children
    requires 0 < k < |Slots(env, id, f, a)|
    requires NoSaturation(env, f.contentOrigin.y, Slots(env, id, f, a))
    ensures var slots := Slots(env, id, f, a); slots[k].Top() == slots[k - 1].Bottom() + GapAbove(env, slots, k)
    decreases k
  {
    hide EffectiveMargin, ResolveBoxModel, Collapsed, UniqueParents, Homogeneous, LayBox, Receive, PlaceChild;
    var slots := Slots(env, id, f, a);
    var c := f.blockChildren[f.nextChild];
    var p := PlaceChild(env, f, c);
    var laid := LayBox(env, c, p, a);
    var g := Receive(f.(nextChild := f.nextChild + 1), p, laid);
    Advanced(env, f, c, p, laid);
    var rest := Slots(env, id, g, laid.arena);
    assert slots == [Slot(c, p, laid.height)] + rest;
    if k == 1 {
      assert GapAbove(env, slots, 1) == Collapsed([p.effectiveBottom, EffectiveMargin(env, Edge.Top, rest[0].box)]);
      NextTop(env, f, p, laid, rest[0].box);
    } else {
      TailFits(env, f.contentOrigin.y, slots, rest);
      SiblingsStack(env, id, g, laid.arena, k - 1);
      assert GapAbove(env, slots, k) == GapAbove(env, rest, k - 1);
    }
  }

  lemma Advanced(env: Env, f: Frame, c: BoxId, p: ChildPlacement, laid: Laid)
    requires WellFormed(env.tree) && c < |env.tree.boxes| && p == PlaceChild(env, f, c)
    ensures p.effectiveBottom == EffectiveMargin(env, Edge.Bottom, c)
    ensures var g := Receive(f.(nextChild := f.nextChild + 1), p, laid);
            && g.blockChildren == f.blockChildren && g.nextChild == f.nextChild + 1
               && g.contentOrigin == f.contentOrigin
            && g.place == f.place && g.prevMarginBottom == Some(p.effectiveBottom)
               && g.bottomCollapses == f.bottomCollapses
  {
  }

  lemma TailFits(env: Env, y: Au, slots: seq<Slot>, rest: seq<Slot>)
    requires WellFormed(env.tree) && slots != [] && rest == slots[1..]
    requires NoSaturation(env, y, slots)
    ensures NoSaturation(env, y, rest)
  {
    hide EffectiveMargin, Collapsed;
    forall k | 0 < k < |rest| ensures Fits(rest[k - 1].Bottom() + GapAbove(env, rest, k)) {
      assert GapAbove(env, rest, k) == GapAbove(env, slots, k + 1);
      assert Fits(slots[k].Bottom() + GapAbove(env, slots, k + 1));
    }
  }

  // ----- no margin is negative -----

  predicate ModelNonNegative(m: BoxModel) {
    && 0 <= m.marginTop && 0 <= m.marginBottom && 0 <= m.minHeight
    && 0 <= m.padding.top && 0 <= m.padding.bottom && 0 <= m.border.top && 0 <= m.border.bottom
    && (m.knownHeight.Some? ==> 0 <= m.knownHeight.value)
  }

  ghost predicate BoxesNonNegative(env: Env)
    requires WellFormed(env.tree)
  {
    forall b :: 0 <= b < |env.tree.boxes| ==> ModelNonNegative(ModelOf(env, b))
  }

  lemma {:induction false} ChainNonNegative(env: Env, edge: Edge, id: BoxId)
    requires WellFormed(env.tree) && id < |env.tree.boxes| && BoxesNonNegative(env)
    ensures NonNegative(ChainMargins(env, edge, id))
    ensures 0 <= EffectiveMargin(env, edge, id) == Peak(ChainMargins(env, edge, id))
    decreases id
  {
    hide ModelOf, UniqueParents, Homogeneous, NextLink, PassesThrough;
    if NextLink(env, edge, id).Some? {
      ChainNonNegative(env, edge, NextLink(env, edge, id).value);
    }
    FlatTrough(ChainMargins(env, edge, id));
  }

  /** With no negative margin, the gap is the largest margin of both adjoining chains, as the set rule asks. */
  lemma GapIsLargestMargin(env: Env, slots: seq<Slot>, k: nat)
    requires WellFormed(env.tree) && BoxesNonNegative(env) && 0 < k < |slots|
    requires forall i :: 0 <= i < |slots| ==> slots[i].box < |env.tree.boxes|
    ensures var above := ChainMargins(env, Edge.Bottom, slots[k - 1].box);
            var below := ChainMargins(env, Edge.Top, slots[k].box);
            0 <= GapAbove(env, slots, k) == Collapsed(above + below) == Max(Peak(above), Peak(below))
  {
    hide UniqueParents, Homogeneous, ChainMargins, Collapsed, BoxesNonNegative;
    ChainNonNegative(env, Edge.Bottom, slots[k - 1].box);
    ChainNonNegative(env, Edge.Top, slots[k].box);
    OneSignGap(ChainMargins(env, Edge.Bottom, slots[k - 1].box), ChainMargins(env, Edge.Top, slots[k].box));
  }

  /** A used border-box height is never negative. */
  lemma HeightNonNegative(env: Env, id: BoxId, p: ChildPlacement, a: Arena)
    requires WellFormed(env.tree) && id < |env.tree.boxes| && ModelNonNegative(p.model)
    ensures 0 <= LayBox(env, id, p, a).height
  {
    hide UniqueParents, Homogeneous, Push, PushBox, Positioned, ResolveOffset, LeafContent, PassesThrough, Inset;
    var box := env.tree.boxes[id];
    if IsBlockContainer(env.tree.boxes, id) {
      var f := OpenFrame(box, p, |a.fragments|);
      ChildrenKeepPlace(env, id, f, a);
    }
  }

  lemma {:induction false} ChildrenKeepPlace(env: Env, id: BoxId, f: Frame, a: Arena)
    requires WellFormed(env.tree) && id < |env.tree.boxes| && f.blockChildren == env.tree.boxes[id].children
    ensures var r := LayChildren(env, id, f, a).frame;
            r.place == f.place && r.contentOrigin == f.contentOrigin && r.bottomCollapses == f.bottomCollapses
    decreases |f.blockChildren| - f.nextChild
  {
    hide UniqueParents, Homogeneous, LayBox, Receive, PlaceChild;
    if f.nextChild < |f.blockChildren| {
      var c := f.blockChildren[f.nextChild];
      var p := PlaceChild(env, f, c);
      var laid := LayBox(env, c, p, a);
      Advanced(env, f, c, p, laid);
      ChildrenKeepPlace(env, id, Receive(f.(nextChild := f.nextChild + 1), p, laid), laid.arena);
    }
  }

  /** The frame belongs to box `id` and was opened against its real containing block. */
  ghost predicate FrameOf(env: Env, id: BoxId, f: Frame)
    requires WellFormed(env.tree)
  {
    id < |env.tree.boxes| && f.blockChildren == env.tree.boxes[id].children && f.nextChild <= |f.blockChildren|
    && f.place.model == ModelOf(env, id)
  }

  lemma PlacedModel(env: Env, id: BoxId, f: Frame)
    requires WellFormed(env.tree) && FrameOf(env, id, f) && f.nextChild < |f.blockChildren|
    ensures PlaceChild(env, f, f.blockChildren[f.nextChild]).model == ModelOf(env, f.blockChildren[f.nextChild])
  {
    hide ResolveBoxModel, EffectiveMargin, Homogeneous;
    var c := f.blockChildren[f.nextChild];
    ParentOfChild(env.tree.boxes, id, f.nextChild);
    var m := ModelOf(env, id);
    assert ContainingBlock(env, c) == (m.contentWidth, m.knownHeight);
  }

  lemma {:induction false} SlotHeights(env: Env, id: BoxId, f: Frame, a: Arena)
    requires WellFormed(env.tree) && BoxesNonNegative(env) && FrameOf(env, id, f)
    ensures forall k :: 0 <= k < |Slots(env, id, f, a)| ==> 0 <= Slots(env, id, f, a)[k].height
    decreases |f.blockChildren| - f.nextChild
  {
    hide UniqueParents, Homogeneous, LayBox, Receive, PlaceChild, ModelNonNegative, ModelOf;
    if f.nextChild < |f.blockChildren| {
      var c := f.blockChildren[f.nextChild];
      var p := PlaceChild(env, f, c);
      var laid := LayBox(env, c, p, a);
      PlacedModel(env, id, f);
      HeightNonNegative(env, c, p, a);
      Advanced(env, f, c, p, laid);
      SlotHeights(env, id, Receive(f.(nextChild := f.nextChild + 1), p, laid), laid.arena);
    }
  }

  /** Siblings never overlap: each ends at or above where any later one starts. */
  lemma {:induction false} SiblingsInOrder(env: Env, id: BoxId, f: Frame, a: Arena, i: nat, j: nat)
    requires WellFormed(env.tree) && BoxesNonNegative(env) && FrameOf(env, id, f)
    requires i < j < |Slots(env, id, f, a)|
    requires NoSaturation(env, f.contentOrigin.y, Slots(env, id, f, a))
    ensures Slots(env, id, f, a)[i].Bottom() <= Slots(env, id, f, a)[j].Top()
    decreases j
  {
    hide UniqueParents, Homogeneous, Slots, BoxesNonNegative, ModelOf, GapAbove;
    var slots := Slots(env, id, f, a);
    SiblingsStack(env, id, f, a, j);
    GapIsLargestMargin(env, slots, j);
    SlotHeights(env, id, f, a);
    if i < j - 1 {
      SiblingsInOrder(env, id, f, a, i, j - 1);
      assert slots[j - 1].Top() <= slots[j - 1].Bottom();
    }
  }

  // ----- parents around their children -----

  lemma {:induction false} LastBottom(env: Env, id: BoxId, f: Frame, a: Arena)
    requires WellFormed(env.tree) && FrameOf(env, id, f) && f.nextChild < |f.blockChildren|
    requires NoSaturation(env, f.contentOrigin.y, Slots(env, id, f, a))
    ensures var slots := Slots(env, id, f, a);
            var done := LayChildren(env, id, f, a).frame;
            && slots != [] && done.contentBottom == slots[|slots| - 1].Bottom() - f.contentOrigin.y
            && done.prevMarginBottom == Some(EffectiveMargin(env, Edge.Bottom, slots[|slots| - 1].box))
    decreases |f.blockChildren| - f.nextChild
  {
    hide EffectiveMargin, Collapsed, UniqueParents, Homogeneous, LayBox, PlaceChild, ModelOf, GapAbove;
    var slots := Slots(env, id, f, a);
    var c := f.blockChildren[f.nextChild];
    var p := PlaceChild(env, f, c);
    var laid := LayBox(env, c, p, a);
    var g := Receive(f.(nextChild := f.nextChild + 1), p, laid);
    Advanced(env, f, c, p, laid);
    var rest := Slots(env, id, g, laid.arena);
    assert slots == [Slot(c, p, laid.height)] + rest;
    assert Fits(slots[0].Top() - f.contentOrigin.y) && Fits(slots[0].Bottom() - f.contentOrigin.y);
    if g.nextChild < |g.blockChildren| {
      TailFits(env, f.contentOrigin.y, slots, rest);
      LastBottom(env, id, g, laid.arena);
    }
  }

  /**
   * An auto-height container without a maximum is at least as tall as its children
   * reach, however its frame treats the margins at its edges.
   */
  lemma ContainerEncloses(env: Env, id: BoxId, f: Frame, a: Arena, k: nat)
    requires WellFormed(env.tree) && BoxesNonNegative(env) && FrameOf(env, id, f)
    requires f.place.model.knownHeight.None? && f.place.model.maxHeight.None?
    requires k < |Slots(env, id, f, a)| && NoSaturation(env, f.contentOrigin.y, Slots(env, id, f, a))
    ensures Slots(env, id, f, a)[k].Bottom() - f.contentOrigin.y <= ContainerHeight(LayChildren(env, id, f, a).frame)
  {
    hide UniqueParents, Homogeneous, Slots, BoxesNonNegative, ModelOf, NoSaturation, LayChildren, PassesThrough,
         EffectiveMargin;
    var slots := Slots(env, id, f, a);
    SlotBoxes(env, id, f, a);
    LastBottom(env, id, f, a);
    ChildrenKeepPlace(env, id, f, a);
    ChainNonNegative(env, Edge.Bottom, slots[|slots| - 1].box);
    SlotHeights(env, id, f, a);
    if k < |slots| - 1 {
      SiblingsInOrder(env, id, f, a, k, |slots| - 1);
      assert slots[|slots| - 1].Top() <= slots[|slots| - 1].Bottom();
    }
  }

  /** The two ways layout opens a frame: the root's, and any other container's at its placement. */
  lemma OpenedFrames(env: Env, id: BoxId, p: ChildPlacement, start: nat)
    requires WellFormed(env.tree) && id < |env.tree.boxes| && p.model == ModelOf(env, id)
    ensures FrameOf(env, env.tree.root, RootFrame(env)) && FrameOf(env, id, OpenFrame(env.tree.boxes[id], p, start))
  {
    hide ResolveBoxModel, PassesThrough, ContentOrigin, Homogeneous, UniqueParents;
    assert Parent(env.tree.boxes, env.tree.root).None?;
    assert ModelOf(env, env.tree.root) == RootPlacement(env).model;
  }

  /**
   * A top margin the parent absorbed is not spent again: the first child's border box
   * starts at the parent's own, and the parent's gap already covers the child's chain.
   */
  lemma AbsorbedTopMargin(env: Env, id: BoxId, p: ChildPlacement, a: Arena)
    requires WellFormed(env.tree) && id < |env.tree.boxes| && IsBlockContainer(env.tree.boxes, id)
    requires p.model == ModelOf(env, id) && PassesThrough(Edge.Top, env.tree.boxes[id].style, p.model)
    ensures var f := OpenFrame(env.tree.boxes[id], p, |a.fragments|);
            var c := env.tree.boxes[id].children[0];
            && PlaceChild(env, f, c).origin.y == p.origin.y
            && ChainMargins(env, Edge.Top, id) == [p.model.marginTop] + ChainMargins(env, Edge.Top, c)
            && EffectiveMargin(env, Edge.Top, id)
               == Max(Max(p.model.marginTop, 0), Peak(ChainMargins(env, Edge.Top, c)))
                  + Min(Min(p.model.marginTop, 0), Trough(ChainMargins(env, Edge.Top, c)))
  {
    hide UniqueParents, Homogeneous, ModelOf, ResolveBoxModel;
    var c := env.tree.boxes[id].children[0];
    assert NextLink(env, Edge.Top, id) == Some(c);
    assert ([p.model.marginTop] + ChainMargins(env, Edge.Top, c))[1..] == ChainMargins(env, Edge.Top, c);
  }

  /** A bottom margin that passes through is left out of the container's height and handed on by its chain. */
  lemma AbsorbedBottomMargin(env: Env, id: BoxId, p: ChildPlacement, a: Arena)
    requires WellFormed(env.tree) && id < |env.tree.boxes| && IsBlockContainer(env.tree.boxes, id)
    requires p.model == ModelOf(env, id) && PassesThrough(Edge.Bottom, env.tree.boxes[id].style, p.model)
    ensures var f := OpenFrame(env.tree.boxes[id], p, |a.fragments|);
            var c := env.tree.boxes[id].children[|env.tree.boxes[id].children| - 1];
            var done := LayChildren(env, id, f, a).frame;
            && ContainerHeight(done) == ClampAu(done.contentBottom, 0, p.model.maxHeight)
            && ChainMargins(env, Edge.Bottom, id) == [p.model.marginBottom] + ChainMargins(env, Edge.Bottom, c)
  {
    hide UniqueParents, ModelOf, ResolveBoxModel, LayChildren;
    var boxes := env.tree.boxes;
    var c := boxes[id].children[|boxes[id].children| - 1];
    assert HomogeneousAt(boxes, id);
    assert NextLink(env, Edge.Bottom, id) == Some(c);
    ChildrenKeepPlace(env, id, OpenFrame(boxes[id], p, |a.fragments|), a);
  }

  // ----- widths (CSS 2.1 sections 10.3.3 and 10.4) -----

  /** The minimum wins: the result is the value held between the minimum and the raised maximum. */
  lemma ClampMeaning(v: Au, min: Au, max: Option<Au>)
    ensures var r := ClampAu(v, min, max);
            && min <= r
            && (max.Some? && max.value <= min ==> r == min)
            && (max.Some? && min <= max.value ==> r <= max.value)
            && (min <= v && (max.Some? ==> v <= max.value) ==> r == v)
            && (r == v || r == min || (max.Some? && r == max.value))
  {
  }

  /** The terms of the width equation of one box against its containing width, none of them saturating. */
  ghost predicate WidthsFit(pct: PercentOf, style: LayoutStyle, cb: Au, padding: Sides<Au>, border: Sides<Au>) {
    var left, right := ResolveOrZero(pct, style.margin.left, cb), ResolveOrZero(pct, style.margin.right, cb);
    var w := ResolveWidths(pct, style, cb, padding, border);
    var outer := padding.left + padding.right + border.left + border.right;
    && 0 <= padding.left && 0 <= padding.right && 0 <= border.left && 0 <= border.right && Fits(outer)
    && Fits(cb - left) && Fits(cb - left - outer) && Fits(cb - left - outer - right)
    && Fits(outer + w.content) && Fits(cb - outer - w.content)
    && Fits(cb - outer - w.content - left) && Fits(cb - outer - w.content - right)
  }

  /** Whether the used width is still the automatic one, i.e. no minimum or maximum changed it. */
  predicate WidthStaysAuto(pct: PercentOf, style: LayoutStyle, cb: Au, padding: Sides<Au>, border: Sides<Au>) {
    var outer := HorizontalNonContent(padding, border);
    style.width.Auto? && ResolveWidths(pct, style, cb, padding, border).content == TentativeWidth(pct, style, cb, outer)
  }

  /** Nothing is left to give: neither the used width nor a margin is automatic. */
  predicate OverConstrained(pct: PercentOf, style: LayoutStyle, cb: Au, padding: Sides<Au>, border: Sides<Au>) {
    !WidthStaysAuto(pct, style, cb, padding, border) && !style.margin.left.Auto? && !style.margin.right.Auto?
  }

  /** The width left over for the automatic terms; for an over-constrained box, what its own terms do not fill. */
  function Room(pct: PercentOf, style: LayoutStyle, cb: Au, padding: Sides<Au>, border: Sides<Au>): int {
    var left, right := ResolveOrZero(pct, style.margin.left, cb), ResolveOrZero(pct, style.margin.right, cb);
    var outer := padding.left + padding.right + border.left + border.right;
    var content := ResolveWidths(pct, style, cb, padding, border).content;
    if WidthStaysAuto(pct, style, cb, padding, border) then cb - left - outer - right
    else if style.margin.left.Auto? && style.margin.right.Auto? then cb - outer - content
    else if style.margin.left.Auto? || style.margin.right.Auto? then 0
    else cb - left - outer - content - right
  }

  /**
   * When margins, borders, padding and content fill the containing width, for every
   * style: an over-constrained box does only if its terms add up by themselves, since
   * no margin is adjusted; any other does unless a floor at zero applies (an automatic
   * width with no room left, two automatic margins around a box that is too wide),
   * and then overflows.
   */
  lemma WidthEquation(pct: PercentOf, style: LayoutStyle, cb: Au, padding: Sides<Au>, border: Sides<Au>)
    requires WidthsFit(pct, style, cb, padding, border)
    ensures var w := ResolveWidths(pct, style, cb, padding, border);
            var used := w.left + padding.left + padding.right + border.left + border.right + w.content + w.right;
            var room := Room(pct, style, cb, padding, border);
            var over := OverConstrained(pct, style, cb, padding, border);
            && (used == cb <==> if over then room == 0 else 0 <= room)
            && (over ==> used == cb - room)
            && (!over && room < 0 ==> cb < used)
            && ((style.margin.left.Auto? && style.margin.right.Auto? && 0 <= room
                 && !WidthStaysAuto(pct, style, cb, padding, border)) ==> 0 <= w.right - w.left <= 1)
  {
    hide UsedMinWidth, UsedMaxWidth, ClampAu, UsedContentSize;
  }

  /**
   * The used margins one by one: a margin that is not automatic is used as specified; an
   * automatic one takes what the other terms leave, half of it each if both are, nothing
   * beside an automatic width and never less than nothing where both are.
   */
  lemma UsedMargins(pct: PercentOf, style: LayoutStyle, cb: Au, padding: Sides<Au>, border: Sides<Au>)
    requires WidthsFit(pct, style, cb, padding, border)
    ensures var w := ResolveWidths(pct, style, cb, padding, border);
            var left, right := style.margin.left, style.margin.right;
            var rest := cb - padding.left - padding.right - border.left - border.right - w.content;
            && (!left.Auto? ==> w.left == ResolveOrZero(pct, left, cb))
            && (!right.Auto? ==> w.right == ResolveOrZero(pct, right, cb))
            && (WidthStaysAuto(pct, style, cb, padding, border) ==>
                  (left.Auto? ==> w.left == 0) && (right.Auto? ==> w.right == 0))
            && (!WidthStaysAuto(pct, style, cb, padding, border) ==>
                  && (left.Auto? && !right.Auto? ==> w.left == rest - w.right)
                  && (right.Auto? && !left.Auto? ==> w.right == rest - w.left)
                  && (left.Auto? && right.Auto? ==> w.left + w.right == Max(rest, 0) && 0 <= w.right - w.left <= 1))
  {
    hide UsedMinWidth, UsedMaxWidth, ClampAu, UsedContentSize;
  }

  /** An over-constrained box with no margin that leaves 6000 of its containing width of 12000 empty. */
  ghost predicate HalfFilled(pct: PercentOf, style: LayoutStyle) {
    var none: Sides<Au> := Sides(0, 0, 0, 0);
    && WidthsFit(pct, style, 12000, none, none)
    && OverConstrained(pct, style, 12000, none, none) && Room(pct, style, 12000, none, none) == 6000
    && ResolveWidths(pct, style, 12000, none, none) == Widths(6000, 0, 0)
  }

  lemma FixedIsHalfFilled(pct: PercentOf)
    ensures HalfFilled(pct, INITIAL.(width := Px(6000)))
  {
  }

  lemma HeldIsHalfFilled(pct: PercentOf)
    ensures HalfFilled(pct, INITIAL.(maxWidth := Some(Px(6000))))
  {
  }

  /**
   * One box 6000 wide, one of automatic width held to a maximum of 6000: section 10.3.3
   * makes the right margin 6000, and it stays 0.
   */
  lemma RightMarginIsNotAdjusted(pct: PercentOf)
    ensures HalfFilled(pct, INITIAL.(width := Px(6000))) && HalfFilled(pct, INITIAL.(maxWidth := Some(Px(6000))))
  {
    hide HalfFilled;
    FixedIsHalfFilled(pct);
    HeldIsHalfFilled(pct);
  }

  /** Going in from the border box by border and padding returns the resolved content box. */
  lemma InsetReturnsContent(origin: Point, m: BoxModel, contentHeight: Au)
    requires 0 <= m.contentWidth && 0 <= contentHeight
    requires 0 <= m.padding.left && 0 <= m.padding.right && 0 <= m.padding.top && 0 <= m.padding.bottom
    requires 0 <= m.border.left && 0 <= m.border.right && 0 <= m.border.top && 0 <= m.border.bottom
    requires Fits(m.contentWidth + m.padding.left + m.padding.right + m.border.left + m.border.right)
    requires Fits(contentHeight + m.padding.top + m.padding.bottom + m.border.top + m.border.bottom)
    requires Fits(origin.x + m.padding.left + m.border.left) && Fits(origin.y + m.padding.top + m.border.top)
    ensures var border := Rect(origin, BorderBoxSize(m.contentWidth, contentHeight, m.padding, m.border));
            Inset(Inset(border, m.border), m.padding)
            == Rect(ContentOrigin(origin, m), Size(m.contentWidth, contentHeight))
  {
  }

  /** With `box-sizing: border-box` a specified size is the border box's, unless padding and border alone exceed it. */
  lemma BorderBoxSizing(v: Au, padding: Sides<Au>, border: Sides<Au>)
    requires 0 <= padding.left && 0 <= padding.right && 0 <= padding.top && 0 <= padding.bottom
    requires 0 <= border.left && 0 <= border.right && 0 <= border.top && 0 <= border.bottom && 0 <= v
    requires Fits(padding.left + padding.right + border.left + border.right)
    requires Fits(padding.top + padding.bottom + border.top + border.bottom)
    ensures var horizontal, vertical := HorizontalNonContent(padding, border), VerticalNonContent(padding, border);
            BorderBoxSize(UsedContentSize(v, BorderBox, horizontal), UsedContentSize(v, BorderBox, vertical),
                          padding, border)
            == Size(Max(v, padding.left + padding.right + border.left + border.right),
                    Max(v, padding.top + padding.bottom + border.top + border.bottom))
  {
  }

  /** Left beats right and top beats bottom; alone, right and bottom pull the opposite way (CSS 2.1 section 9.4.3). */
  lemma OffsetDirections(pct: PercentOf, style: LayoutStyle, cbWidth: Au, cbHeight: Option<Au>, v: Au, l: Length,
                         r: Length)
    requires !l.Auto? && v != AU_MIN
    ensures ResolveOffset(pct, style.(offset := Sides(l, r, r, l)), cbWidth, cbHeight)
            == ResolveOffset(pct, style.(offset := Sides(l, Auto, Auto, l)), cbWidth, cbHeight)
    ensures ResolveOffset(pct, style.(offset := Sides(Px(v), Auto, Auto, Px(v))), cbWidth, cbHeight) == Point(v, v)
    ensures ResolveOffset(pct, style.(offset := Sides(Auto, Px(v), Px(v), Auto)), cbWidth, cbHeight) == Point(-v, -v)
    ensures ResolveOffset(pct, style.(offset := Sides(Auto, Auto, Auto, Auto)), cbWidth, cbHeight) == ORIGIN
  {
  }

  // ----- lines -----

  lemma {:induction false} PiecesKeep(a: Arena, line: LineBox, origin: Point, lineTop: Au, style: LayoutStyle,
                                      n: nat)
    requires n <= |line.pieces|
    ensures a.fragments <= WithPieces(a, line, origin, lineTop, style, n).fragments
  {
    hide TranslateAll, RunsWidth;
    if n > 0 {
      PiecesKeep(a, line, origin, lineTop, style, n - 1);
    }
  }

  lemma LineRect(a: Arena, line: LineBox, origin: Point, width: Au, style: LayoutStyle, cursor: Au)
    ensures var r := WithLine(a, line, origin, width, style, cursor).fragments;
            && a.fragments <= r && r[|r| - 1].kind.Line?
            && r[|r| - 1].borderBox == Rect(Point(origin.x, SatAdd(origin.y, cursor)), Size(width, line.height))
            && r[|r| - 1].children == Range(|a.fragments|, |line.pieces|)
  {
    hide WithPieces;
    PiecesKeep(a, line, origin, SatAdd(origin.y, cursor), style, |line.pieces|);
  }

  /**
   * Every line box is full width and starts where the lines before it end; the height handed up is
   * where the last one ends.
   */
  lemma {:induction false} LinesStack(a: Arena, lines: seq<LineBox>, origin: Point, width: Au, style: LayoutStyle,
                                      n: nat, k: nat)
    requires k < n <= |lines|
    ensures var r := WithLines(a, lines, origin, width, style, n);
            && r.ids[k] < |r.arena.fragments| && r.arena.fragments[r.ids[k]].kind.Line?
            && r.arena.fragments[r.ids[k]].borderBox
               == Rect(Point(origin.x, SatAdd(origin.y, WithLines(a, lines, origin, width, style, k).height)),
                       Size(width, lines[k].height))
            && WithLines(a, lines, origin, width, style, k + 1).height
               == SatAdd(WithLines(a, lines, origin, width, style, k).height, lines[k].height)
    decreases n
  {
    hide WithLine;
    var before := WithLines(a, lines, origin, width, style, n - 1);
    LineRect(before.arena, lines[n - 1], origin, width, style, before.height);
    if k < n - 1 {
      LinesStack(a, lines, origin, width, style, n - 1, k);
    }
  }

  // ----- a page whose sibling gap is not the set rule's -----

  function Block(node: NodeId, style: LayoutStyle, children: seq<BoxId>): LayoutBox {
    LayoutBox(Some(node), BoxKind.Block, style.(display := Display.Block), children)
  }

  function MarginBelow(v: Au): LayoutStyle {
    INITIAL.(margin := INITIAL.margin.(bottom := Px(v)))
  }

  /** A block whose margins below adjoin as 5 and -3, above a block with a margin of 4. */
  const MIXED := BoxTree(
    [Block(3, MarginBelow(-3), []), Block(2, MarginBelow(5), [0]),
     Block(4, INITIAL.(margin := INITIAL.margin.(top := Px(4))), []), Block(1, INITIAL, [1, 2])], 3)

  lemma MixedChild(p: BoxId, i: nat)
    requires p < 4 && i < |MIXED.boxes[p].children|
    ensures (p == 1 || p == 3) && MIXED.boxes[p].children[i] == if p == 1 then 0 else i + 1
    ensures IsBlockLevel(MIXED.boxes[MIXED.boxes[p].children[i]].kind)
  {
  }

  lemma MixedIsWellFormed()
    ensures WellFormed(MIXED)
  {
    hide IsBlockLevel;
    forall p, i | 0 <= p < 4 && 0 <= i < |MIXED.boxes[p].children|
      ensures (p == 1 || p == 3) && MIXED.boxes[p].children[i] == if p == 1 then 0 else i + 1
      ensures IsBlockLevel(MIXED.boxes[MIXED.boxes[p].children[i]].kind)
    {
      MixedChild(p, i);
    }
  }

  lemma MixedChains(env: Env)
    requires env.tree == MIXED && WellFormed(env.tree)
    ensures ChainMargins(env, Edge.Bottom, 1) == [5, -3] && ChainMargins(env, Edge.Top, 2) == [4]
  {
    hide ContainingBlock, ResolveWidths, UniqueParents, Homogeneous;
    assert ChainMargins(env, Edge.Bottom, 0) == [-3];
    assert NextLink(env, Edge.Bottom, 1) == Some(0);
  }

  /** Two siblings with a gap of `gap` between them where the set rule asks for `rule`. */
  ghost predicate TwoSiblings(env: Env, slots: seq<Slot>, gap: Au, rule: Au)
    requires WellFormed(env.tree)
  {
    && |slots| == 2 && (forall i :: 0 <= i < |slots| ==> slots[i].box < |env.tree.boxes|)
    && GapAbove(env, slots, 1) == gap
    && Collapsed(ChainMargins(env, Edge.Bottom, slots[0].box) + ChainMargins(env, Edge.Top, slots[1].box)) == rule
  }

  /** On that page the set rule asks for a gap of 2 between the two blocks; layout leaves 4. */
  lemma MixedSignGap(env: Env)
    requires env.tree == MIXED
    ensures WellFormed(env.tree)
    ensures TwoSiblings(env, Slots(env, 3, RootFrame(env), EMPTY_ARENA), 4, 2)
    ensures !GapFollowsSetRule(ChainMargins(env, Edge.Bottom, 1), ChainMargins(env, Edge.Top, 2))
  {
    hide Slots, ChainMargins, WellFormed, GapFollowsSetRule;
    MixedIsWellFormed();
    MixedChains(env);
    SlotBoxes(env, 3, RootFrame(env), EMPTY_ARENA);
    MixedMargins();
  }

  lemma MixedMargins()
    ensures Collapsed([5, -3]) == 2 && Collapsed([4]) == 4 && Collapsed([2, 4]) == 4 && Collapsed([5, -3] + [4]) == 2
    ensures !GapFollowsSetRule([5, -3], [4])
  {
    SiblingGapRule([5, -3], [4]);
    PairCollapse(5, -3);
    PairCollapse(2, 4);
    PeakConcat([5, -3], [4]);
    assert Peak([4]) == 4 && Trough([4]) == 0;
  }
}
