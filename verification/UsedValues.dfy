/**
 * What a box's used values are in terms of its own properties: sizes held between their
 * bounds (CSS 2.1 sections 10.4 and 10.7), each edge from its own side, and which margins
 * adjoin (section 8.3.1).
 */
module UsedValues {
  import opened AppUnits
  import opened Geometry
  import opened Styles
  import opened Wrappers
  import opened BoxTrees
  import opened BoxModels
  import opened LayoutContext
  import opened Margins

  /** The size `width` and `height` speak of: the border box's or the content box's. */
  function SpokenOf(style: LayoutStyle, content: int, edges: int): int {
    if style.boxSizing.BorderBox? then content + edges else content
  }

  /** The least size the properties can speak of. */
  function Floor(style: LayoutStyle, edges: int): int {
    if style.boxSizing.BorderBox? then edges else 0
  }

  /**
   * `content` is `wanted` where the bounds allow it, at least the minimum, and at most the
   * maximum unless the minimum is larger. All four are sizes as the properties speak of them.
   */
  predicate HeldBetween(style: LayoutStyle, content: int, edges: int, wanted: int, min: int, max: Option<int>) {
    var size := SpokenOf(style, content, edges);
    var least := Max(min, Floor(style, edges));
    && least <= size
    && (max.Some? ==> size <= Max(max.value, least))
    && (least <= wanted && (max.Some? ==> wanted <= max.value) ==> size == wanted)
    && (size == wanted || size == least || (max.Some? && size == max.value))
  }

  /** A content size held between two sizes as the properties speak of them. */
  lemma ClampHolds(style: LayoutStyle, wanted: Au, edges: Au, min: Au, max: Option<Au>)
    requires 0 <= wanted && 0 <= edges && 0 <= min && (max.Some? ==> 0 <= max.value)
    ensures var top := if max.Some? then Some(UsedContentSize(max.value, style.boxSizing, edges)) else None;
            var bound: Option<int> := if max.Some? then Some(max.value) else None;
            var held := ClampAu(wanted, UsedContentSize(min, style.boxSizing, edges), top);
            HeldBetween(style, held, edges, SpokenOf(style, wanted, edges), min, bound)
  {
  }

  /** The same for a size the properties speak of themselves. */
  lemma SpokenHolds(style: LayoutStyle, spoken: Au, edges: Au, min: Au, max: Option<Au>)
    requires 0 <= spoken && 0 <= edges && 0 <= min && (max.Some? ==> 0 <= max.value)
    ensures var top := if max.Some? then Some(UsedContentSize(max.value, style.boxSizing, edges)) else None;
            var bound: Option<int> := if max.Some? then Some(max.value) else None;
            var held := ClampAu(UsedContentSize(spoken, style.boxSizing, edges),
                                UsedContentSize(min, style.boxSizing, edges), top);
            HeldBetween(style, held, edges, spoken, min, bound)
  {
  }

  /** A length of the style against `against`; no maximum where the style has none. */
  function Bound(pct: PercentOf, l: Option<Length>, against: Au): Option<int> {
    if l.Some? then Some(ResolveOrZero(pct, l.value, against)) else None
  }

  /** The horizontal terms are not negative, and their sums are representable. */
  predicate AcrossFits(pct: PercentOf, style: LayoutStyle, cb: Au, padding: Sides<Au>) {
    var border := style.borderWidth;
    var left, right := ResolveOrZero(pct, style.margin.left, cb), ResolveOrZero(pct, style.margin.right, cb);
    var edges := padding.left + padding.right + border.left + border.right;
    && 0 <= padding.left && 0 <= padding.right && 0 <= border.left && 0 <= border.right && Fits(edges)
    && 0 <= ResolveOrZero(pct, style.width, cb) && 0 <= ResolveOrZero(pct, style.minWidth, cb)
    && (style.maxWidth.Some? ==> 0 <= ResolveOrZero(pct, style.maxWidth.value, cb))
    && Fits(cb - left) && Fits(cb - left - edges) && Fits(cb - left - edges - right)
  }

  /** The width a box asks for: its own, or what its margins and edges leave of the containing width. */
  function WantedWidth(pct: PercentOf, style: LayoutStyle, cb: Au, edges: int): int {
    if style.width.Auto? then
      SpokenOf(style, Max(cb - ResolveOrZero(pct, style.margin.left, cb) - edges
                          - ResolveOrZero(pct, style.margin.right, cb), 0), edges)
    else ResolveOrZero(pct, style.width, cb)
  }

  /** The used width is the wanted one held between `min-width` and `max-width`. */
  lemma WidthIsHeld(pct: PercentOf, style: LayoutStyle, cb: Au, padding: Sides<Au>)
    requires AcrossFits(pct, style, cb, padding)
    ensures var edges := padding.left + padding.right + style.borderWidth.left + style.borderWidth.right;
            HeldBetween(style, ResolveWidths(pct, style, cb, padding, style.borderWidth).content, edges,
                        WantedWidth(pct, style, cb, edges), ResolveOrZero(pct, style.minWidth, cb),
                        Bound(pct, style.maxWidth, cb))
  {
    hide HeldBetween, ClampAu, UsedContentSize, SpokenOf;
    var edges := HorizontalNonContent(padding, style.borderWidth);
    var min := ResolveOrZero(pct, style.minWidth, cb);
    var max := if style.maxWidth.Some? then Some(ResolveOrZero(pct, style.maxWidth.value, cb)) else None;
    if style.width.Auto? {
      ClampHolds(style, TentativeWidth(pct, style, cb, edges), edges, min, max);
    } else {
      SpokenHolds(style, ResolveOrZero(pct, style.width, cb), edges, min, max);
    }
  }

  /** The vertical terms are not negative, and their sums are representable. */
  predicate DownFits(pct: PercentOf, style: LayoutStyle, cbHeight: Au, padding: Sides<Au>) {
    var border := style.borderWidth;
    && 0 <= padding.top && 0 <= padding.bottom && 0 <= border.top && 0 <= border.bottom
    && Fits(padding.top + padding.bottom + border.top + border.bottom)
    && 0 <= ResolveOrZero(pct, style.height, cbHeight) && 0 <= ResolveOrZero(pct, style.minHeight, cbHeight)
    && (style.maxHeight.Some? ==> 0 <= ResolveOrZero(pct, style.maxHeight.value, cbHeight))
  }

  /** A height is definite exactly when it is a length, or a percentage of a definite one. */
  predicate DefiniteHeight(style: LayoutStyle, cbHeight: Option<Au>) {
    style.height.Px? || (style.height.Percent? && cbHeight.Some?)
  }

  /**
   * The known height is the specified one held between `min-height` and `max-height`; the
   * same bounds hold an automatic height, and a percentage of an automatic height counts as zero.
   */
  lemma HeightIsHeld(pct: PercentOf, style: LayoutStyle, cbWidth: Au, cbHeight: Option<Au>, auto: Au)
    requires DownFits(pct, style, if cbHeight.Some? then cbHeight.value else 0, ResolvePadding(pct, style, cbWidth))
    requires 0 <= auto
    ensures var m := ResolveBoxModel(pct, style, cbWidth, cbHeight);
            var against := if cbHeight.Some? then cbHeight.value else 0;
            var edges := m.padding.top + m.padding.bottom + style.borderWidth.top + style.borderWidth.bottom;
            var min := ResolveOrZero(pct, style.minHeight, against);
            var max := Bound(pct, style.maxHeight, against);
            && (m.knownHeight.Some? <==> DefiniteHeight(style, cbHeight))
            && (m.knownHeight.Some? ==>
                  HeldBetween(style, m.knownHeight.value, edges, ResolveOrZero(pct, style.height, against), min, max))
            && HeldBetween(style, ClampAu(auto, m.minHeight, m.maxHeight), edges, SpokenOf(style, auto, edges), min,
                           max)
  {
    hide ResolveWidths, HeldBetween, ClampAu, UsedContentSize, SpokenOf;
    var m := ResolveBoxModel(pct, style, cbWidth, cbHeight);
    var against := if cbHeight.Some? then cbHeight.value else 0;
    var edges := VerticalNonContent(m.padding, style.borderWidth);
    var min := ResolveOrZero(pct, style.minHeight, against);
    var max := if style.maxHeight.Some? then Some(ResolveOrZero(pct, style.maxHeight.value, against)) else None;
    ClampHolds(style, auto, edges, min, max);
    if m.knownHeight.Some? {
      SpokenHolds(style, ResolveOrZero(pct, style.height, against), edges, min, max);
    }
  }

  /** Every edge comes from the property of its own side; vertical percentages refer to the width too. */
  lemma EdgesFromOwnSide(pct: PercentOf, style: LayoutStyle, cbWidth: Au, cbHeight: Option<Au>)
    ensures var m := ResolveBoxModel(pct, style, cbWidth, cbHeight);
            && m.marginTop == ResolveOrZero(pct, style.margin.top, cbWidth)
            && m.marginBottom == ResolveOrZero(pct, style.margin.bottom, cbWidth)
            && m.padding.top == ResolveOrZero(pct, style.padding.top, cbWidth)
            && m.padding.right == ResolveOrZero(pct, style.padding.right, cbWidth)
            && m.padding.bottom == ResolveOrZero(pct, style.padding.bottom, cbWidth)
            && m.padding.left == ResolveOrZero(pct, style.padding.left, cbWidth)
            && m.border == style.borderWidth
  {
    hide ResolveWidths, ResolveHeight, UsedContentSize;
  }

  /** A pixel length is itself, a percentage is taken of the containing width, and `auto` is zero. */
  lemma LengthMeaning(pct: PercentOf, v: Au, points: real, against: Au, height: Option<Au>)
    ensures ResolveOrZero(pct, Px(v), against) == v && ResolveAgainstHeight(pct, Px(v), height) == v
    ensures ResolveOrZero(pct, Percent(points), against) == pct(against, points)
    ensures ResolveAgainstHeight(pct, Percent(points), height)
            == if height.Some? then pct(height.value, points) else 0
    ensures ResolveOrZero(pct, Auto, against) == ResolveAgainstHeight(pct, Auto, height) == 0
  {
  }

  // ----- adjoining margins -----

  /** The thickness between a box's border edge and its content on one side. */
  ghost function EdgeThickness(env: Env, edge: Edge, id: BoxId): int
    requires WellFormed(env.tree) && id < |env.tree.boxes|
  {
    var style := env.tree.boxes[id].style;
    var cb := ContainingBlock(env, id).0;
    if edge.Top? then ResolveOrZero(env.pct, style.padding.top, cb) + style.borderWidth.top
    else ResolveOrZero(env.pct, style.padding.bottom, cb) + style.borderWidth.bottom
  }

  /** A box with nothing between its margin and its first or last block child's, by its properties alone. */
  ghost predicate Adjoins(env: Env, edge: Edge, id: BoxId)
    requires WellFormed(env.tree) && id < |env.tree.boxes|
  {
    var style := env.tree.boxes[id].style;
    var cb := ContainingBlock(env, id);
    var against := if cb.1.Some? then cb.1.value else 0;
    && style.overflow == Visible && EdgeThickness(env, edge, id) == 0
    && (edge.Bottom? ==>
          && !DefiniteHeight(style, cb.1)
          && ResolveOrZero(env.pct, style.minHeight, against)
             <= Floor(style, EdgeThickness(env, Edge.Top, id) + EdgeThickness(env, Edge.Bottom, id)))
  }

  /** A box's margin adjoins its edge child's exactly when its properties leave nothing between them. */
  lemma PassesThroughExactly(env: Env, edge: Edge, id: BoxId)
    requires WellFormed(env.tree) && id < |env.tree.boxes|
    requires DownFits(env.pct, env.tree.boxes[id].style,
                      if ContainingBlock(env, id).1.Some? then ContainingBlock(env, id).1.value else 0,
                      ResolvePadding(env.pct, env.tree.boxes[id].style, ContainingBlock(env, id).0))
    ensures PassesThrough(edge, env.tree.boxes[id].style, ModelOf(env, id)) <==> Adjoins(env, edge, id)
  {
    hide ResolveWidths, UniqueParents, Homogeneous, ContainingBlock;
  }

  /** The margins a chain collects: the box's own, and while nothing intervenes those of its edge children. */
  lemma ChainStep(env: Env, edge: Edge, id: BoxId)
    requires WellFormed(env.tree) && id < |env.tree.boxes|
    ensures var box := env.tree.boxes[id];
            var cb := ContainingBlock(env, id).0;
            var own := ResolveOrZero(env.pct, if edge.Top? then box.style.margin.top else box.style.margin.bottom, cb);
            var rest := ChainMargins(env, edge, id)[1..];
            && ChainMargins(env, edge, id) == [own] + rest
            && (rest != [] <==> PassesThrough(edge, box.style, ModelOf(env, id)) && box.children != []
                                && IsBlockLevel(env.tree.boxes[box.children[0]].kind))
            && (rest != [] ==>
                  var c := if edge.Top? then box.children[0] else box.children[|box.children| - 1];
                  rest == ChainMargins(env, edge, c))
  {
    hide ResolveWidths, UniqueParents, ContainingBlock, PassesThrough;
    var box := env.tree.boxes[id];
    assert HomogeneousAt(env.tree.boxes, id);
    ModelMargins(env, id);
    var tail: seq<Au> := match NextLink(env, edge, id) case None => [] case Some(c) => ChainMargins(env, edge, c);
    assert ChainMargins(env, edge, id)[1..] == tail;
  }

  lemma ModelMargins(env: Env, id: BoxId)
    requires WellFormed(env.tree) && id < |env.tree.boxes|
    ensures var style := env.tree.boxes[id].style;
            && ModelOf(env, id).marginTop == ResolveOrZero(env.pct, style.margin.top, ContainingBlock(env, id).0)
            && ModelOf(env, id).marginBottom == ResolveOrZero(env.pct, style.margin.bottom, ContainingBlock(env, id).0)
  {
    hide ResolveWidths, ContainingBlock, WellFormed, ResolveHeight, UsedContentSize;
  }
}
