/**
 * The builder as a whole: the list it returns, and when it panics instead, told from
 * the tree and the viewport it is given.
 */
module Builder {
  import opened Geometry
  import opened Styles
  import opened Wrappers
  import opened BoxTrees
  import opened LayoutContext
  import opened Fragments
  import opened BlockFlow
  import opened FragmentOrder
  import opened DisplayLists
  import opened PaintBuild
  import opened PaintOrder
  import opened PaintLayout
  import opened SmallPages

  /** Some fragment at or below `id` clips its content. */
  ghost predicate ClipsBelow(tree: FragmentTree, id: FragmentId)
    requires ChildrenFirst(tree.fragments) && id < |tree.fragments|
  {
    exists i :: 0 <= i < |tree.fragments| && Reaches(tree.fragments, id, i) && Clips(tree.StyleOf(tree.fragments[i]))
  }

  ghost predicate ChildrenClip(tree: FragmentTree, id: FragmentId, k: nat)
    requires ChildrenFirst(tree.fragments) && id < |tree.fragments|
  {
    exists j :: k <= j < |tree.fragments[id].children| && ClipsBelow(tree, tree.fragments[id].children[j])
  }

  lemma ClipsAtOrBelow(tree: FragmentTree, id: FragmentId)
    requires ChildrenFirst(tree.fragments) && id < |tree.fragments|
    ensures ClipsBelow(tree, id) <==> Clips(tree.StyleOf(tree.fragments[id])) || ChildrenClip(tree, id, 0)
  {
    var children := tree.fragments[id].children;
    assert Reaches(tree.fragments, id, id);
    if ClipsBelow(tree, id) {
      var i :| 0 <= i < |tree.fragments| && Reaches(tree.fragments, id, i) && Clips(tree.StyleOf(tree.fragments[i]));
      if i != id {
        var k :| 0 <= k < |children| && Reaches(tree.fragments, children[k], i);
        assert ClipsBelow(tree, children[k]);
      }
    }
    if ChildrenClip(tree, id, 0) {
      var j :| 0 <= j < |children| && ClipsBelow(tree, children[j]);
      var i :| 0 <= i < |tree.fragments| && Reaches(tree.fragments, children[j], i)
               && Clips(tree.StyleOf(tree.fragments[i]));
      assert Reaches(tree.fragments, id, i);
    }
  }

  /** The paint order of a subtree opens a clip exactly when one of its fragments clips. */
  lemma {:induction false} TreeOpensClip(tree: FragmentTree, suppressed: Option<FragmentId>, lens: Lens, id: FragmentId)
    requires ChildrenFirst(tree.fragments) && id < |tree.fragments|
    ensures OpensClip(PaintTree(tree, suppressed, lens, id)) <==> ClipsBelow(tree, id)
    decreases id, 1, 0
  {
    hide EnterItems, OpensClip, ClipsBelow, ChildrenClip, ChildrenFirst;
    var enter, children := EnterItems(tree, suppressed, lens, id), PaintChildren(tree, suppressed, lens, id, 0);
    var pop: seq<DisplayItem> := if Clips(tree.StyleOf(tree.fragments[id])) then [PopClip] else [];
    EnterOpensClip(tree, suppressed, lens, id);
    ChildrenOpenClip(tree, suppressed, lens, id, 0);
    ClipsAtOrBelow(tree, id);
    OpensClipJoin(enter, children);
    OpensClipJoin(enter + children, pop);
    NothingOpens();
  }

  lemma {:induction false} ChildrenOpenClip(tree: FragmentTree, suppressed: Option<FragmentId>, lens: Lens,
                                            id: FragmentId, k: nat)
    requires ChildrenFirst(tree.fragments) && id < |tree.fragments|
    ensures OpensClip(PaintChildren(tree, suppressed, lens, id, k)) <==> ChildrenClip(tree, id, k)
    decreases id, 0, |tree.fragments[id].children| - k
  {
    hide PaintTree, OpensClip, ClipsBelow;
    var list := tree.fragments[id].children;
    if k < |list| {
      TreeOpensClip(tree, suppressed, lens, list[k]);
      ChildrenOpenClip(tree, suppressed, lens, id, k + 1);
      OpensClipJoin(PaintTree(tree, suppressed, lens, list[k]), PaintChildren(tree, suppressed, lens, id, k + 1));
    } else {
      NothingOpens();
    }
  }

  /** More than twice the margin below nothing: the widened region's corners have crossed. */
  predicate Crossed(viewport: Size) {
    viewport.w < -2 * OFFSCREEN_MARGIN || viewport.h < -2 * OFFSCREEN_MARGIN
  }

  /**
   * On a post-ordered tree the list has a clip that cannot be trimmed exactly when the
   * viewport crosses and some fragment clips.
   */
  lemma PanicsExactly(tree: FragmentTree, names: Names)
    requires PostOrdered(tree.fragments) && tree.root < |tree.fragments|
    ensures ChildrenFirst(tree.fragments)
    ensures !Inflate(tree.Bounds()).Upright() && OpensClip(BuiltItems(tree, names))
            <==> Crossed(tree.viewport) && ClipsBelow(tree, tree.root)
  {
    hide WalkFrom, PaintTree, OpensClip, ClipsBelow, Inflate, CanvasBackground, Low;
    var canvas := CanvasBackground(tree, names);
    var lens := Widened(Inflate(tree.Bounds()));
    UprightExactly(tree);
    WalkIsPaintOrder(tree, canvas.suppressed, lens);
    TreeOpensClip(tree, canvas.suppressed, lens, tree.root);
    CanvasOpensNoClip(tree, canvas);
    OpensClipJoin(CanvasItems(tree, canvas), PaintTree(tree, canvas.suppressed, lens, tree.root));
  }

  lemma CanvasOpensNoClip(tree: FragmentTree, canvas: Canvas)
    ensures !OpensClip(CanvasItems(tree, canvas))
  {
  }

  /**
   * The list for every tree, or a panic (`None`). On the post-ordered trees layout
   * makes, it panics exactly when the viewport is so negative that the widened
   * region's corners cross and some fragment of the page clips; on any other, when
   * they cross and the bounded walk meets a clip.
   */
  method Build(tree: FragmentTree, names: Names) returns (r: Option<seq<DisplayItem>>)
    ensures PostOrdered(tree.fragments) && tree.root < |tree.fragments| ==>
              (r.None? <==> Crossed(tree.viewport) && ClipsBelow(tree, tree.root))
    ensures r.None? <==> !Inflate(tree.Bounds()).Upright() && OpensClip(BuiltItems(tree, names))
    ensures r.Some? ==> r.value == BuiltItems(tree, names)
  {
    hide Inflate, WalkFrom, OpensClip, ClipsBelow, Low;
    var region := Inflate(tree.Bounds());
    var html := FindElementFragment(tree, names, "html");
    var canvas := Canvas(None, None);
    if Opaque(tree, html) {
      canvas := Canvas(Some(BackgroundOf(tree, html.value)), html);
    } else {
      var body := FindElementFragment(tree, names, "body");
      if Opaque(tree, body) {
        canvas := Canvas(Some(BackgroundOf(tree, body.value)), body);
      }
    }
    var items: seq<DisplayItem> := [];
    if canvas.color.Some? && !tree.Bounds().IsEmpty() {
      items := items + [Fill(tree.Bounds(), canvas.color.value)];
    }
    assert items == CanvasItems(tree, canvas);
    CanvasOpensNoClip(tree, canvas);
    OpensClipJoin(items, WalkFrom(tree, canvas.suppressed, Widened(region), [Visit(tree.root)], |tree.fragments|));
    if PostOrdered(tree.fragments) && tree.root < |tree.fragments| {
      PanicsExactly(tree, names);
    }
    r := Walk(tree, canvas.suppressed, Widened(region), items);
  }

  /** For a laid-out page that reads: some fragment of the page clips. */
  lemma PagePanicsExactly(env: Env, names: Names)
    requires WellFormed(env.tree)
    ensures var tree := Painted(env, LayRoot(env));
            && PostOrdered(tree.fragments) && tree.root < |tree.fragments|
            && (!Inflate(tree.Bounds()).Upright() && OpensClip(BuiltItems(tree, names)) <==>
                  && Crossed(env.viewport)
                  && exists i :: 0 <= i < |tree.fragments| && Clips(tree.StyleOf(tree.fragments[i])))
  {
    hide WellFormed, LayRoot, BuiltItems, OpensClip, Inflate, Low, Packed, PostOrdered, Clips, Reaches;
    LayoutPacked(env);
    PackedIsPostOrdered(LayRoot(env).arena.fragments);
    PanicsExactly(Painted(env, LayRoot(env)), names);
  }

  /** A page of one clipping block in a viewport ten thousand pixels to the left of itself. */
  lemma CrossedPanics(env: Env, names: Names)
    requires env.tree == OneBox(CLIPPING) && env.viewport == Size(-600000, 600)
    ensures WellFormed(env.tree)
    ensures var tree := Painted(env, LayRoot(env));
            && PostOrdered(tree.fragments) && tree.root < |tree.fragments|
            && Crossed(tree.viewport) && ClipsBelow(tree, tree.root)
            && !Inflate(tree.Bounds()).Upright() && OpensClip(BuiltItems(tree, names))
  {
    hide WellFormed, LayRoot, BuiltItems, OpensClip, Inflate, Low, OwnBox;
    OneBoxLaid(env, CLIPPING);
    var tree := Painted(env, LayRoot(env));
    PagePanicsExactly(env, names);
    assert Clips(tree.StyleOf(tree.fragments[0]));
    PanicsExactly(tree, names);
  }
}
