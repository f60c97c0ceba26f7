/**
 * Margin collapsing (CSS 2.1 section 8.3.1): the set rule, the first- and
 * last-child chains it ranges over, and the per-box memo that fills every
 * suffix of a chain in one backward pass.
 */
module Margins {
  import opened AppUnits
  import opened Geometry
  import opened Styles
  import opened Wrappers
  import opened BoxTrees
  import opened BoxModels
  import opened LayoutContext

  // ----- the set rule -----

  function Peak(margins: seq<Au>): (r: Au)
    ensures r >= 0
  {
    if margins == [] then 0 else Max(Max(margins[0], 0), Peak(margins[1..]))
  }

  function Trough(margins: seq<Au>): (r: Au)
    ensures r <= 0
  {
    if margins == [] then 0 else Min(Min(margins[0], 0), Trough(margins[1..]))
  }

  /** Largest positive plus most negative, over the whole set at once. */
  function Collapsed(margins: seq<Au>): Au {
    Peak(margins) + Trough(margins)
  }

  // ----- the chains -----

  datatype Edge = Top | Bottom

  function EdgeMargin(edge: Edge, m: BoxModel): Au {
    if edge.Top? then m.marginTop else m.marginBottom
  }

  /** Whether nothing separates a box's margin on this edge from its first or last child's. */
  predicate PassesThrough(edge: Edge, style: LayoutStyle, m: BoxModel) {
    && !EstablishesBfc(style)
    && (edge.Top? ==> m.padding.top == 0 && m.border.top == 0)
    && (edge.Bottom? ==> m.knownHeight.None? && m.minHeight == 0 && m.padding.bottom == 0 && m.border.bottom == 0)
  }

  /** The first (or last) child, if it is block-level. */
  function EdgeChild(boxes: seq<LayoutBox>, edge: Edge, id: BoxId): (r: Option<BoxId>)
    requires ChildrenBelow(boxes) && id < |boxes|
    ensures r.Some? ==> r.value < id && r.value in boxes[id].children
  {
    var children := boxes[id].children;
    if children == [] then None
    else
      var c := if edge.Top? then children[0] else children[|children| - 1];
      if IsBlockLevel(boxes[c].kind) then Some(c) else None
  }

  /** The next link of the chain below `id`, if the chain goes on. */
  ghost function NextLink(env: Env, edge: Edge, id: BoxId): (r: Option<BoxId>)
    requires WellFormed(env.tree) && id < |env.tree.boxes|
    ensures r.Some? ==> r.value < id && r.value in env.tree.boxes[id].children
  {
    if PassesThrough(edge, env.tree.boxes[id].style, ModelOf(env, id))
    then EdgeChild(env.tree.boxes, edge, id) else None
  }

  /** All margins adjoining `id`'s on one edge, its own first. */
  ghost function ChainMargins(env: Env, edge: Edge, id: BoxId): (r: seq<Au>)
    requires WellFormed(env.tree) && id < |env.tree.boxes|
    ensures |r| > 0
    decreases id
  {
    [EdgeMargin(edge, ModelOf(env, id))] +
    (match NextLink(env, edge, id) case None => [] case Some(c) => ChainMargins(env, edge, c))
  }

  ghost function EffectiveMargin(env: Env, edge: Edge, id: BoxId): Au
    requires WellFormed(env.tree) && id < |env.tree.boxes|
  {
    Collapsed(ChainMargins(env, edge, id))
  }

  // ----- the memo -----

  type Memo = seq<Option<Au>>

  function Filled(memo: Memo): set<BoxId> {
    set i | 0 <= i < |memo| && memo[i].Some?
  }

  /** Every filled slot holds the collapse of that box's full chain. */
  ghost predicate MemoCorrect(env: Env, edge: Edge, memo: Memo)
    requires WellFormed(env.tree)
  {
    && |memo| == |env.tree.boxes|
    && forall c :: c in Filled(memo) ==> memo[c].value == EffectiveMargin(env, edge, c)
  }

  /**
   * A slot is only ever filled ahead of its box's own placement by a walk that
   * came through the box's parent.
   */
  ghost predicate MemoTopDown(env: Env, memo: Memo, placed: set<BoxId>)
    requires |memo| == |env.tree.boxes|
  {
    forall c :: c in Filled(memo) && c !in placed ==>
      Parent(env.tree.boxes, c).Some? && Parent(env.tree.boxes, c).value in Filled(memo)
  }

  /** Parents are placed before their children. */
  ghost predicate PlacedTopDown(env: Env, placed: set<BoxId>) {
    forall c :: c in placed && Parent(env.tree.boxes, c).Some? ==> Parent(env.tree.boxes, c).value in placed
  }

  lemma {:induction false} FilledAtMostBoxes(memo: Memo)
    ensures |Filled(memo)| <= |memo|
  {
    if memo != [] {
      var last := |memo| - 1;
      FilledAtMostBoxes(memo[..last]);
      assert Filled(memo) == Filled(memo[..last]) + (if memo[last].Some? then {last} else {});
    }
  }

  /** The running pair of the backward pass is the peak and trough of the suffix passed so far. */
  method CollapseMarginSet(margins: seq<Au>) returns (r: Au)
    ensures r == Collapsed(margins)
  {
    var maxPositive: Au, minNegative: Au := 0, 0;
    for i := 0 to |margins|
      invariant maxPositive == Peak(margins[..i]) && minNegative == Trough(margins[..i])
    {
      PeakAppend(margins[..i], margins[i]);
      assert margins[..i + 1] == margins[..i] + [margins[i]];
      maxPositive := Max(maxPositive, Max(margins[i], 0));
      minNegative := Min(minNegative, Min(margins[i], 0));
    }
    assert margins[..|margins|] == margins;
    r := SatAdd(maxPositive, minNegative);
  }

  lemma PeakAppend(s: seq<Au>, m: Au)
    ensures Peak(s + [m]) == Max(Peak(s), Max(m, 0))
    ensures Trough(s + [m]) == Min(Trough(s), Min(m, 0))
  {
    if s == [] {
      assert s + [m] == [m];
    } else {
      assert (s + [m])[1..] == s[1..] + [m];
      PeakAppend(s[1..], m);
    }
  }

  function MarginsOf(chain: seq<(BoxId, Au)>): (r: seq<Au>)
    ensures |r| == |chain|
    ensures forall i :: 0 <= i < |r| ==> r[i] == chain[i].1
  {
    seq(|chain|, i requires 0 <= i < |chain| => chain[i].1)
  }

  /**
   * One backward pass fills the slot of every box of the chain with the collapse
   * of its own suffix, and no other slot.
   */
  method MemoizeSuffixCollapse(chain: seq<(BoxId, Au)>, memo0: Memo) returns (memo: Memo)
    requires forall i :: 0 <= i < |chain| ==> chain[i].0 < |memo0|
    requires forall i, j :: 0 <= i < j < |chain| ==> chain[i].0 != chain[j].0
    ensures |memo| == |memo0|
    ensures forall i :: 0 <= i < |chain| ==> memo[chain[i].0] == Some(Collapsed(MarginsOf(chain[i..])))
    ensures forall b :: 0 <= b < |memo| && (forall i :: 0 <= i < |chain| ==> chain[i].0 != b) ==> memo[b] == memo0[b]
  {
    var maxPositive: Au, minNegative: Au := 0, 0;
    memo := memo0;
    var k := |chain|;
    assert MarginsOf(chain[k..]) == [];
    while k > 0
      invariant 0 <= k <= |chain| && |memo| == |memo0|
      invariant maxPositive == Peak(MarginsOf(chain[k..])) && minNegative == Trough(MarginsOf(chain[k..]))
      invariant forall i :: k <= i < |chain| ==> memo[chain[i].0] == Some(Collapsed(MarginsOf(chain[i..])))
      invariant forall b :: 0 <= b < |memo| && (forall i :: 0 <= i < |chain| ==> chain[i].0 != b) ==>
                memo[b] == memo0[b]
    {
      k := k - 1;
      var margin := chain[k].1;
      assert MarginsOf(chain[k..])[1..] == MarginsOf(chain[k + 1..]);
      maxPositive := Max(maxPositive, Max(margin, 0));
      minNegative := Min(minNegative, Min(margin, 0));
      memo := memo[chain[k].0 := Some(SatAdd(maxPositive, minNegative))];
    }
  }

  // ----- the walk -----

  function IdsOf(chain: seq<(BoxId, Au)>): set<BoxId> {
    set i | 0 <= i < |chain| :: chain[i].0
  }

  /** Consecutive links of a first- or last-child chain, each with its own margin, none placed, none memoized. */
  ghost predicate FreshChain(env: Env, edge: Edge, chain: seq<(BoxId, Au)>, memo: Memo, placed: set<BoxId>)
    requires WellFormed(env.tree) && |memo| == |env.tree.boxes|
  {
    && |chain| > 0
    && (forall i :: 0 <= i < |chain| ==>
          && chain[i].0 < |env.tree.boxes| && chain[i].0 <= chain[0].0 - i
          && chain[i].0 !in placed && memo[chain[i].0].None?
          && chain[i].1 == EdgeMargin(edge, ModelOf(env, chain[i].0)))
    && (forall i :: 0 < i < |chain| ==>
          && chain[i].0 < chain[i - 1].0
          && NextLink(env, edge, chain[i - 1].0) == Some(chain[i].0)
          && Parent(env.tree.boxes, chain[i].0) == Some(chain[i - 1].0))
  }

  lemma ChainDescends(env: Env, edge: Edge, chain: seq<(BoxId, Au)>, memo: Memo, placed: set<BoxId>, i: nat, j: nat)
    requires WellFormed(env.tree) && |memo| == |env.tree.boxes|
    requires FreshChain(env, edge, chain, memo, placed)
    requires i < j < |chain|
    ensures chain[j].0 < chain[i].0
  {
    if i < j - 1 {
      ChainDescends(env, edge, chain, memo, placed, i, j - 1);
    }
  }

  /** A finished walk has collected, for every box on it, exactly that box's chain. */
  lemma {:induction false} SuffixIsChain(env: Env, edge: Edge, chain: seq<(BoxId, Au)>, memo: Memo,
                                         placed: set<BoxId>, i: nat)
    requires WellFormed(env.tree) && |memo| == |env.tree.boxes|
    requires FreshChain(env, edge, chain, memo, placed)
    requires NextLink(env, edge, chain[|chain| - 1].0) == None
    requires i < |chain|
    ensures ChainMargins(env, edge, chain[i].0) == MarginsOf(chain[i..])
    decreases |chain| - i
  {
    hide ModelOf, PassesThrough;
    if i < |chain| - 1 {
      SuffixIsChain(env, edge, chain, memo, placed, i + 1);
      assert NextLink(env, edge, chain[i].0) == Some(chain[i + 1].0);
      assert MarginsOf(chain[i..]) == [chain[i].1] + MarginsOf(chain[i + 1..]);
    } else {
      assert MarginsOf(chain[i..]) == [chain[i].1];
    }
  }

  /** Resolving a chain link without a containing height changes nothing the chain looks at. */
  lemma LinkModel(env: Env, edge: Edge, p: BoxId, c: BoxId)
    requires WellFormed(env.tree) && p < |env.tree.boxes| && c < |env.tree.boxes|
    requires NextLink(env, edge, p) == Some(c)
    ensures Parent(env.tree.boxes, c) == Some(p)
    ensures var speculative := ResolveBoxModel(env.pct, env.tree.boxes[c].style, ModelOf(env, p).contentWidth, None);
            && EdgeMargin(edge, speculative) == EdgeMargin(edge, ModelOf(env, c))
            && speculative.contentWidth == ModelOf(env, c).contentWidth
            && PassesThrough(edge, env.tree.boxes[c].style, speculative)
               == PassesThrough(edge, env.tree.boxes[c].style, ModelOf(env, c))
  {
    var i :| 0 <= i < |env.tree.boxes[p].children| && env.tree.boxes[p].children[i] == c;
    ParentOfChild(env.tree.boxes, p, i);
  }

  lemma ChildIsFresh(env: Env, memo: Memo, placed: set<BoxId>, p: BoxId, c: BoxId)
    requires |memo| == |env.tree.boxes| && p < |memo| && c < |memo|
    requires MemoTopDown(env, memo, placed) && PlacedTopDown(env, placed)
    requires Parent(env.tree.boxes, c) == Some(p) && memo[p].None? && p !in placed
    ensures memo[c].None? && c !in placed
  {
    assert p !in Filled(memo);
    assert c !in Filled(memo);
  }

  lemma LastIsFresh(env: Env, edge: Edge, chain: seq<(BoxId, Au)>, memo: Memo, placed: set<BoxId>)
    requires WellFormed(env.tree) && |memo| == |env.tree.boxes| && FreshChain(env, edge, chain, memo, placed)
    ensures |chain| > 0
    ensures var p := chain[|chain| - 1].0; p < |env.tree.boxes| && p !in placed && memo[p].None?
  {
    hide ModelOf, NextLink, EdgeMargin, WellFormed, Parent;
  }

  lemma FreshChainAdd(env: Env, edge: Edge, chain: seq<(BoxId, Au)>, memo: Memo, placed: set<BoxId>, c: BoxId,
                      margin: Au)
    requires WellFormed(env.tree) && |memo| == |env.tree.boxes| && FreshChain(env, edge, chain, memo, placed)
    requires c < |env.tree.boxes| && c !in placed && memo[c].None? && c < chain[|chain| - 1].0
    requires NextLink(env, edge, chain[|chain| - 1].0) == Some(c)
             && Parent(env.tree.boxes, c) == Some(chain[|chain| - 1].0)
    requires margin == EdgeMargin(edge, ModelOf(env, c))
    ensures FreshChain(env, edge, chain + [(c, margin)], memo, placed)
  {
    hide ModelOf, NextLink, EdgeMargin, WellFormed, Parent;
  }

  /** The next link is itself fresh, so the walk's check for a memoized child never fires. */
  lemma ChainGrows(env: Env, edge: Edge, chain: seq<(BoxId, Au)>, memo: Memo, placed: set<BoxId>, c: BoxId)
    requires WellFormed(env.tree) && |memo| == |env.tree.boxes|
    requires FreshChain(env, edge, chain, memo, placed)
    requires MemoTopDown(env, memo, placed) && PlacedTopDown(env, placed)
    requires NextLink(env, edge, chain[|chain| - 1].0) == Some(c)
    ensures memo[c].None?
    ensures var p := chain[|chain| - 1].0;
            var speculative := ResolveBoxModel(env.pct, env.tree.boxes[c].style, ModelOf(env, p).contentWidth, None);
            && FreshChain(env, edge, chain + [(c, EdgeMargin(edge, speculative))], memo, placed)
            && speculative.contentWidth == ModelOf(env, c).contentWidth
            && PassesThrough(edge, env.tree.boxes[c].style, speculative)
               == PassesThrough(edge, env.tree.boxes[c].style, ModelOf(env, c))
  {
    hide ModelOf, ResolveBoxModel, PassesThrough, NextLink, EdgeMargin, WellFormed, ContainingBlock, MemoTopDown,
         PlacedTopDown, FreshChain, Parent;
    LastIsFresh(env, edge, chain, memo, placed);
    var p := chain[|chain| - 1].0;
    LinkModel(env, edge, p, c);
    ChildIsFresh(env, memo, placed, p, c);
    var speculative := ResolveBoxModel(env.pct, env.tree.boxes[c].style, ModelOf(env, p).contentWidth, None);
    FreshChainAdd(env, edge, chain, memo, placed, c, EdgeMargin(edge, speculative));
  }

  lemma FilledBySuffixes(memo0: Memo, memo: Memo, chain: seq<(BoxId, Au)>)
    requires |memo| == |memo0|
    requires forall i :: 0 <= i < |chain| ==> chain[i].0 < |memo0| && memo0[chain[i].0].None? && memo[chain[i].0].Some?
    requires forall i, j :: 0 <= i < j < |chain| ==> chain[i].0 != chain[j].0
    requires forall b :: 0 <= b < |memo| && (forall i :: 0 <= i < |chain| ==> chain[i].0 != b) ==> memo[b] == memo0[b]
    ensures Filled(memo) == Filled(memo0) + IdsOf(chain)
    ensures |Filled(memo)| == |Filled(memo0)| + |chain|
  {
    forall b | b in Filled(memo) ensures b in Filled(memo0) + IdsOf(chain) {
      if b !in IdsOf(chain) {
        assert forall i :: 0 <= i < |chain| ==> chain[i].0 != b;
      }
    }
    forall b | b in Filled(memo0) ensures b in Filled(memo) {
      assert forall i :: 0 <= i < |chain| ==> chain[i].0 != b;
    }
    DistinctIds(chain);
    assert Filled(memo0) !! IdsOf(chain);
  }

  lemma {:induction false} DistinctIds(chain: seq<(BoxId, Au)>)
    requires forall i, j :: 0 <= i < j < |chain| ==> chain[i].0 != chain[j].0
    ensures |IdsOf(chain)| == |chain|
  {
    if chain != [] {
      var last := |chain| - 1;
      DistinctIds(chain[..last]);
      assert IdsOf(chain) == IdsOf(chain[..last]) + {chain[last].0};
    }
  }

  lemma MemoStaysTopDown(env: Env, edge: Edge, chain: seq<(BoxId, Au)>, memo0: Memo, memo: Memo, placed: set<BoxId>)
    requires WellFormed(env.tree) && |memo0| == |memo| == |env.tree.boxes|
    requires FreshChain(env, edge, chain, memo0, placed) && MemoTopDown(env, memo0, placed)
    requires Filled(memo) == Filled(memo0) + IdsOf(chain)
    ensures MemoTopDown(env, memo, placed + {chain[0].0})
  {
    hide NextLink, UniqueParents, Homogeneous;
    forall c | c in Filled(memo) && c !in placed + {chain[0].0}
      ensures Parent(env.tree.boxes, c).Some? && Parent(env.tree.boxes, c).value in Filled(memo)
    {
      if c in IdsOf(chain) {
        var i :| 0 <= i < |chain| && chain[i].0 == c;
        assert chain[i - 1].0 in IdsOf(chain);
      }
    }
  }

  /** What the backward pass over a finished walk does to the memo's invariants. */
  lemma WalkMemoized(env: Env, edge: Edge, chain: seq<(BoxId, Au)>, memo0: Memo, memo: Memo, placed: set<BoxId>)
    requires WellFormed(env.tree) && |memo| == |memo0| == |env.tree.boxes|
    requires MemoCorrect(env, edge, memo0) && MemoTopDown(env, memo0, placed)
    requires |chain| > 0 && FreshChain(env, edge, chain, memo0, placed)
    requires NextLink(env, edge, chain[|chain| - 1].0) == None
    requires forall i :: 0 <= i < |chain| ==> memo[chain[i].0] == Some(Collapsed(MarginsOf(chain[i..])))
    requires forall b :: 0 <= b < |memo| && (forall i :: 0 <= i < |chain| ==> chain[i].0 != b) ==> memo[b] == memo0[b]
    ensures MemoCorrect(env, edge, memo) && MemoTopDown(env, memo, placed + {chain[0].0})
    ensures memo[chain[0].0] == Some(EffectiveMargin(env, edge, chain[0].0))
    ensures Filled(memo0) <= Filled(memo) && |Filled(memo)| == |Filled(memo0)| + |chain|
  {
    hide NextLink, WellFormed, ModelOf, Collapsed, EdgeMargin, MemoCorrect, MemoTopDown, FreshChain;
    LinksDistinct(env, edge, chain, memo0, placed);
    FilledBySuffixes(memo0, memo, chain);
    forall i | 0 <= i < |chain| ensures memo[chain[i].0] == Some(EffectiveMargin(env, edge, chain[i].0)) {
      SuffixIsChain(env, edge, chain, memo0, placed, i);
    }
    MemoStaysCorrect(env, edge, chain, memo0, memo);
    MemoStaysTopDown(env, edge, chain, memo0, memo, placed);
  }

  lemma MemoStaysCorrect(env: Env, edge: Edge, chain: seq<(BoxId, Au)>, memo0: Memo, memo: Memo)
    requires WellFormed(env.tree) && |memo| == |memo0| && MemoCorrect(env, edge, memo0)
    requires forall i :: 0 <= i < |chain| ==> chain[i].0 < |memo|
    requires forall i :: 0 <= i < |chain| ==> memo[chain[i].0] == Some(EffectiveMargin(env, edge, chain[i].0))
    requires forall b :: 0 <= b < |memo| && (forall i :: 0 <= i < |chain| ==> chain[i].0 != b) ==> memo[b] == memo0[b]
    ensures MemoCorrect(env, edge, memo)
  {
    hide EffectiveMargin, UniqueParents, Homogeneous;
    forall c | c in Filled(memo) ensures memo[c].value == EffectiveMargin(env, edge, c) {
      if i :| 0 <= i < |chain| && chain[i].0 == c {
      } else {
        assert c in Filled(memo0);
      }
    }
  }

  lemma LinksDistinct(env: Env, edge: Edge, chain: seq<(BoxId, Au)>, memo: Memo, placed: set<BoxId>)
    requires WellFormed(env.tree) && |memo| == |env.tree.boxes|
    requires FreshChain(env, edge, chain, memo, placed)
    ensures forall i :: 0 <= i < |chain| ==> chain[i].0 < |memo| && memo[chain[i].0].None?
    ensures forall i, j :: 0 <= i < j < |chain| ==> chain[i].0 != chain[j].0
  {
    forall i, j | 0 <= i < j < |chain| ensures chain[i].0 != chain[j].0 {
      ChainDescends(env, edge, chain, memo, placed, i, j);
    }
  }

  /**
   * The gap a box contributes on one edge. Called for a box its parent has
   * placed, before the box itself is placed. `pushed` counts the chain entries
   * collected: each fills one slot that was empty.
   */
  method EffectiveMarginAt(env: Env, edge: Edge, id: BoxId, model: BoxModel, memo0: Memo, ghost placed: set<BoxId>)
    returns (r: Au, memo: Memo, pushed: nat)
    requires WellFormed(env.tree) && id < |env.tree.boxes| && model == ModelOf(env, id)
    requires MemoCorrect(env, edge, memo0) && MemoTopDown(env, memo0, placed) && PlacedTopDown(env, placed)
    requires id !in placed
    ensures r == EffectiveMargin(env, edge, id)
    ensures MemoCorrect(env, edge, memo) && MemoTopDown(env, memo, placed + {id})
    ensures id in Filled(memo) && Filled(memo0) <= Filled(memo)
    ensures |Filled(memo)| == |Filled(memo0)| + pushed
  {
    hide ModelOf, ResolveBoxModel, EffectiveMargin, PlacedTopDown, PassesThrough, Collapsed, UniqueParents, Homogeneous;
    if memo0[id].Some? {
      assert id in Filled(memo0);
      return memo0[id].value, memo0, 0;
    }
    var boxes := env.tree.boxes;
    var chain: seq<(BoxId, Au)> := [(id, EdgeMargin(edge, model))];
    var eligible := PassesThrough(edge, boxes[id].style, model);
    var current := id;
    var currentWidth := model.contentWidth;
    var remaining: nat := |boxes|;
    var ended := false;
    while eligible && remaining > 0 && !ended
      invariant FreshChain(env, edge, chain, memo0, placed)
      invariant chain[0].0 == id && current == chain[|chain| - 1].0
      invariant eligible == PassesThrough(edge, boxes[current].style, ModelOf(env, current))
      invariant currentWidth == ModelOf(env, current).contentWidth
      invariant !ended ==> remaining + |chain| == |boxes| + 1
      invariant ended ==> NextLink(env, edge, current) == None
      decreases remaining, !ended
    {
      remaining := remaining - 1;
      var child := EdgeChild(boxes, edge, current);
      if child.None? {
        ended := true;
      } else {
        var c := child.value;
        ChainGrows(env, edge, chain, memo0, placed, c);
        if memo0[c].Some? {
          // A descendant of an unplaced, unmemoized box is never memoized.
          assert false;
        }
        var childModel := ResolveBoxModel(env.pct, boxes[c].style, currentWidth, None);
        chain := chain + [(c, EdgeMargin(edge, childModel))];
        eligible := PassesThrough(edge, boxes[c].style, childModel);
        currentWidth := childModel.contentWidth;
        current := c;
      }
    }
    LinksDistinct(env, edge, chain, memo0, placed);
    memo := MemoizeSuffixCollapse(chain, memo0);
    WalkMemoized(env, edge, chain, memo0, memo, placed);
    r := memo[id].value;
    pushed := |chain|;
  }
}
