/** What layout hands to painting: arenas whose subtrees are consecutive stretches, so painting walks them in full. */
module PaintLayout {
  import opened BoxTrees
  import opened LayoutContext
  import opened Fragments
  import opened BlockFlow
  import opened FragmentOrder
  import opened PaintBuild
  import opened PaintOrder

  function Painted(env: Env, laid: Laid): FragmentTree {
    FragmentTree(laid.arena.fragments, laid.arena.styles, laid.id, env.viewport)
  }

  /**
   * From box tree to display list: what is painted for a laid-out page is its
   * recursive paint order after the canvas background, whatever its size; the
   * cycle guard never fires on it.
   */
  lemma LaidOutPagesPaintInOrder(env: Env, names: Names, lens: Lens)
    requires WellFormed(env.tree)
    ensures var tree := Painted(env, LayRoot(env));
            var canvas := CanvasBackground(tree, names);
            && ChildrenFirst(tree.fragments) && tree.root < |tree.fragments|
            && Items(tree, names, lens) == CanvasItems(tree, canvas)
               + PaintTree(tree, canvas.suppressed, lens, tree.root)
  {
    hide WellFormed, LayRoot, PaintTree, WalkFrom, CanvasBackground, Low;
    LayoutPacked(env);
    PackedIsPostOrdered(LayRoot(env).arena.fragments);
    var tree := Painted(env, LayRoot(env));
    WalkIsPaintOrder(tree, CanvasBackground(tree, names).suppressed, lens);
  }
}
