/**
 * A block's inline content on its way to the shaper and back: nested inline
 * boxes flattened into pieces with white space collapsed across them, and the
 * shaped runs of a line grouped by the piece they came from.
 */
module InlineContent {
  import opened Styles
  import opened Wrappers
  import opened Sequences
  import opened BoxTrees
  import opened LayoutContext
  import opened Whitespace
  import Forest

  /** The characters of a text node; the empty string for any other node. */
  type Texts = NodeId -> string

  datatype Piece = Words(text: string, style: LayoutStyle, node: NodeId) | ForcedBreak

  predicate IsLeaf(box: LayoutBox) {
    box.kind.InlineText? || box.kind.LineBreak?
  }

  /** A leaf's piece, and the flag for what follows it: a break, like a block's start, swallows the next space. */
  function LeafPiece(box: LayoutBox, texts: Texts, suppress: bool): (Piece, bool)
    requires IsLeaf(box)
  {
    match box.kind
    case InlineText(node) =>
      var p := ProcessedText(texts(node), box.style.whiteSpace, suppress);
      (Words(p.text, box.style, node), p.suppressNext)
    case LineBreak => (ForcedBreak, true)
  }

  /** The pieces a bounded walk from this stack still yields, its top at the end. */
  function PiecesFrom(boxes: seq<LayoutBox>, texts: Texts, stack: seq<BoxId>, remaining: nat,
                      suppress: bool): seq<Piece>
    decreases remaining
  {
    if stack == [] || remaining == 0 then []
    else
      var id, rest := stack[|stack| - 1], stack[..|stack| - 1];
      if id >= |boxes| then PiecesFrom(boxes, texts, rest, remaining - 1, suppress)
      else if IsLeaf(boxes[id]) then
        var (piece, raised) := LeafPiece(boxes[id], texts, suppress);
        [piece] + PiecesFrom(boxes, texts, rest, remaining - 1, raised)
      else if IsBlockLevel(boxes[id].kind) then PiecesFrom(boxes, texts, rest, remaining - 1, suppress)
      else PiecesFrom(boxes, texts, rest + Reversed(boxes[id].children), remaining - 1, suppress)
  }

  method RenderLeaf(box: LayoutBox, texts: Texts, suppress: bool) returns (piece: Piece, raised: bool)
    requires IsLeaf(box)
    ensures (piece, raised) == LeafPiece(box, texts, suppress)
  {
    match box.kind {
      case InlineText(node) =>
        var processed := Process(texts(node), box.style.whiteSpace, suppress);
        piece, raised := Words(processed.text, box.style, node), processed.suppressNext;
      case LineBreak => piece, raised := ForcedBreak, true;
    }
  }

  method CollectPieces(boxes: seq<LayoutBox>, texts: Texts, children: seq<BoxId>) returns (pieces: seq<Piece>)
    ensures pieces == PiecesFrom(boxes, texts, Reversed(children), |boxes|, true)
  {
    hide LeafPiece, IsLeaf, IsBlockLevel;
    pieces := [];
    var stack := Reversed(children);
    var remaining: nat := |boxes|;
    var suppress := true;
    while stack != []
      invariant pieces + PiecesFrom(boxes, texts, stack, remaining, suppress)
                == PiecesFrom(boxes, texts, Reversed(children), |boxes|, true)
      decreases remaining, |stack|
    {
      var id := stack[|stack| - 1];
      if remaining == 0 {
        break;
      }
      stack, remaining := stack[..|stack| - 1], remaining - 1;
      if id >= |boxes| {
        continue;
      }
      if IsLeaf(boxes[id]) {
        var piece;
        piece, suppress := RenderLeaf(boxes[id], texts, suppress);
        pieces := pieces + [piece];
      } else if !IsBlockLevel(boxes[id].kind) {
        stack := stack + Reversed(boxes[id].children);
      }
    }
  }

  // ----- document order -----

  /** The text and break boxes at and below a box, in document order; block-level boxes are not entered. */
  function Leaves(boxes: seq<LayoutBox>, id: BoxId): seq<BoxId>
    requires ChildrenBelow(boxes) && id < |boxes|
    decreases id, 1, 0
  {
    match boxes[id].kind
    case InlineText(_) => [id]
    case LineBreak => [id]
    case Inline => LeavesFrom(boxes, id, 0)
    case AnonymousInline => LeavesFrom(boxes, id, 0)
    case Block => []
    case AnonymousBlock => []
  }

  function LeavesFrom(boxes: seq<LayoutBox>, id: BoxId, k: nat): seq<BoxId>
    requires ChildrenBelow(boxes) && id < |boxes|
    decreases id, 0, |boxes[id].children| - k
  {
    if k >= |boxes[id].children| then []
    else Leaves(boxes, boxes[id].children[k]) + LeavesFrom(boxes, id, k + 1)
  }

  /** The pieces of a list of leaves, the flag threaded from one to the next and raised by every break. */
  function Rendered(boxes: seq<LayoutBox>, texts: Texts, leaves: seq<BoxId>, suppress: bool): seq<Piece> {
    if leaves == [] then []
    else if leaves[0] >= |boxes| || !IsLeaf(boxes[leaves[0]]) then Rendered(boxes, texts, leaves[1..], suppress)
    else
      var (piece, raised) := LeafPiece(boxes[leaves[0]], texts, suppress);
      [piece] + Rendered(boxes, texts, leaves[1..], raised)
  }

  /** What the stack still promises, from its top down. */
  function Ahead(boxes: seq<LayoutBox>, stack: seq<BoxId>): seq<BoxId>
    requires ChildrenBelow(boxes) && forall i :: 0 <= i < |stack| ==> stack[i] < |boxes|
  {
    if stack == [] then [] else Leaves(boxes, stack[|stack| - 1]) + Ahead(boxes, stack[..|stack| - 1])
  }

  lemma {:induction false} ChildrenAhead(boxes: seq<LayoutBox>, rest: seq<BoxId>, id: BoxId, k: nat)
    requires ChildrenBelow(boxes) && id < |boxes| && k <= |boxes[id].children|
    requires forall i :: 0 <= i < |rest| ==> rest[i] < |boxes|
    ensures var stack := rest + Reversed(boxes[id].children[k..]);
            && (forall i :: 0 <= i < |stack| ==> stack[i] < |boxes|)
            && Ahead(boxes, stack) == LeavesFrom(boxes, id, k) + Ahead(boxes, rest)
    decreases |boxes[id].children| - k
  {
    hide Leaves;
    var children := boxes[id].children;
    if k == |children| {
      assert rest + Reversed(children[k..]) == rest;
    } else {
      ChildrenAhead(boxes, rest, id, k + 1);
      var below := rest + Reversed(children[k + 1..]);
      assert rest + Reversed(children[k..]) == below + [children[k]];
      assert (below + [children[k]])[..|below|] == below;
    }
  }

  // ----- the walk never runs out -----

  /** Every box on the stack or already visited hangs off the container or off a visited box, and none is met twice. */
  ghost predicate OnTrack(boxes: seq<LayoutBox>, container: BoxId, stack: seq<BoxId>, done: set<BoxId>) {
    && container < |boxes| && Forest.Distinct(stack)
    && (forall i :: 0 <= i < |stack| ==>
          stack[i] < container && stack[i] !in done && HangsOff(boxes, container, done, stack[i]))
    && (forall d :: d in done ==> d < container && HangsOff(boxes, container, done, d))
  }

  ghost predicate HangsOff(boxes: seq<LayoutBox>, container: BoxId, done: set<BoxId>, id: BoxId) {
    var p := Parent(boxes, id);
    p.Some? && (p.value == container || p.value in done)
  }

  lemma ChildrenDistinct(boxes: seq<LayoutBox>, id: BoxId)
    requires UniqueParents(boxes) && id < |boxes|
    ensures Forest.Distinct(Reversed(boxes[id].children))
  {
  }

  lemma ChildrenFresh(boxes: seq<LayoutBox>, container: BoxId, stack: seq<BoxId>, done: set<BoxId>, i: nat)
    requires ChildrenBelow(boxes) && UniqueParents(boxes) && OnTrack(boxes, container, stack, done) && stack != []
    requires var id := stack[|stack| - 1]; id < |boxes| && i < |boxes[id].children|
    ensures var id := stack[|stack| - 1];
            var c := boxes[id].children[i];
            c < container && Parent(boxes, c) == Some(id) && c !in done && c !in stack
  {
    hide Parent;
    var id := stack[|stack| - 1];
    var c := boxes[id].children[i];
    ParentOfChild(boxes, id, i);
    assert !HangsOff(boxes, container, done, c);
  }

  /** Entering an inline box: its children replace it on the stack, and it is done. */
  lemma EnterOnTrack(boxes: seq<LayoutBox>, container: BoxId, stack: seq<BoxId>, done: set<BoxId>)
    requires ChildrenBelow(boxes) && UniqueParents(boxes) && OnTrack(boxes, container, stack, done) && stack != []
    ensures var id := stack[|stack| - 1];
            OnTrack(boxes, container, stack[..|stack| - 1] + Reversed(boxes[id].children), done + {id})
  {
    hide Parent, UniqueParents, ChildrenBelow;
    var id := stack[|stack| - 1];
    var pushed := Reversed(boxes[id].children);
    var after := stack[..|stack| - 1] + pushed;
    ChildrenDistinct(boxes, id);
    forall k | 0 <= k < |pushed|
      ensures pushed[k] < container && Parent(boxes, pushed[k]) == Some(id) && pushed[k] !in done && pushed[k] !in stack
    {
      ChildrenFresh(boxes, container, stack, done, |pushed| - 1 - k);
    }
    forall i, j | 0 <= i < j < |after| ensures after[i] != after[j] {
      if i < |stack| - 1 <= j {
        assert stack[i] in stack;
        assert pushed[j - (|stack| - 1)] !in stack;
      }
    }
    forall i | 0 <= i < |after| ensures after[i] < container && after[i] !in done + {id}
           && HangsOff(boxes, container, done + {id}, after[i]) {
      if i >= |stack| - 1 {
        assert id in stack;
        assert pushed[i - (|stack| - 1)] !in stack;
      }
    }
  }

  /** Passing a leaf: it is done. */
  lemma PassOnTrack(boxes: seq<LayoutBox>, container: BoxId, stack: seq<BoxId>, done: set<BoxId>)
    requires OnTrack(boxes, container, stack, done) && stack != []
    ensures OnTrack(boxes, container, stack[..|stack| - 1], done + {stack[|stack| - 1]})
  {
    hide Parent;
  }

  lemma {:induction false} BelowIsSmall(done: set<BoxId>, n: nat)
    requires forall d :: d in done ==> d < n
    ensures |done| <= n
  {
    if n > 0 {
      BelowIsSmall(done - {n - 1}, n - 1);
    } else if d :| d in done {
      assert false;
    }
  }

  lemma RoomLeft(boxes: seq<LayoutBox>, container: BoxId, stack: seq<BoxId>, done: set<BoxId>)
    requires OnTrack(boxes, container, stack, done) && stack != []
    ensures |done| < |boxes| && |done + {stack[|stack| - 1]}| == |done| + 1
  {
    hide HangsOff;
    BelowIsSmall(done + {stack[|stack| - 1]}, container);
  }

  lemma OnTrackInside(boxes: seq<LayoutBox>, container: BoxId, stack: seq<BoxId>, done: set<BoxId>)
    requires OnTrack(boxes, container, stack, done)
    ensures forall i :: 0 <= i < |stack| ==> stack[i] < |boxes|
  {
  }

  lemma RenderedStep(boxes: seq<LayoutBox>, texts: Texts, id: BoxId, after: seq<BoxId>, suppress: bool)
    requires id < |boxes| && IsLeaf(boxes[id])
    ensures Rendered(boxes, texts, [id] + after, suppress) ==
            [LeafPiece(boxes[id], texts, suppress).0] + Rendered(boxes, texts, after,
                                                                 LeafPiece(boxes[id], texts, suppress).1)
  {
    hide LeafPiece;
    assert ([id] + after)[1..] == after;
  }

  lemma {:induction false} WalkYieldsLeaves(boxes: seq<LayoutBox>, texts: Texts, container: BoxId, stack: seq<BoxId>,
                                            remaining: nat, suppress: bool, done: set<BoxId>)
    requires ChildrenBelow(boxes) && UniqueParents(boxes) && OnTrack(boxes, container, stack, done)
    requires remaining + |done| == |boxes| && forall i :: 0 <= i < |stack| ==> stack[i] < |boxes|
    ensures PiecesFrom(boxes, texts, stack, remaining, suppress)
            == Rendered(boxes, texts, Ahead(boxes, stack), suppress)
    decreases remaining
  {
    hide ChildrenBelow, UniqueParents, OnTrack, LeafPiece, LeavesFrom, Rendered, Reversed;
    if stack == [] {
      NothingRendered(boxes, texts, suppress);
    } else {
      var id, rest := stack[|stack| - 1], stack[..|stack| - 1];
      RoomLeft(boxes, container, stack, done);
      PassOnTrack(boxes, container, stack, done);
      OnTrackInside(boxes, container, rest, done + {id});
      if IsLeaf(boxes[id]) {
        RenderedStep(boxes, texts, id, Ahead(boxes, rest), suppress);
        WalkYieldsLeaves(boxes, texts, container, rest, remaining - 1, LeafPiece(boxes[id], texts, suppress).1,
                         done + {id});
      } else if IsBlockLevel(boxes[id].kind) {
        assert Ahead(boxes, stack) == Ahead(boxes, rest);
        WalkYieldsLeaves(boxes, texts, container, rest, remaining - 1, suppress, done + {id});
      } else {
        EnterOnTrack(boxes, container, stack, done);
        var next := rest + Reversed(boxes[id].children);
        OnTrackInside(boxes, container, next, done + {id});
        assert boxes[id].children[0..] == boxes[id].children;
        ChildrenAhead(boxes, rest, id, 0);
        WalkYieldsLeaves(boxes, texts, container, next, remaining - 1, suppress, done + {id});
      }
    }
  }

  lemma NothingRendered(boxes: seq<LayoutBox>, texts: Texts, suppress: bool)
    ensures Rendered(boxes, texts, [], suppress) == []
  {
  }

  /**
   * For every container of a tree of unique parents, the pieces are those of its leaves in document
   * order; the cap never cuts them short.
   */
  lemma PiecesFollowDocument(boxes: seq<LayoutBox>, texts: Texts, container: BoxId)
    requires ChildrenBelow(boxes) && UniqueParents(boxes) && container < |boxes|
    ensures PiecesFrom(boxes, texts, Reversed(boxes[container].children), |boxes|, true) ==
            Rendered(boxes, texts, LeavesFrom(boxes, container, 0), true)
  {
    hide PiecesFrom, Rendered, LeavesFrom, Parent;
    var children := boxes[container].children;
    var stack := Reversed(children);
    ChildrenDistinct(boxes, container);
    forall i | 0 <= i < |stack| ensures stack[i] < container && Parent(boxes, stack[i]) == Some(container) {
      ParentOfChild(boxes, container, |children| - 1 - i);
    }
    WalkYieldsLeaves(boxes, texts, container, stack, |boxes|, true, {});
    assert children[0..] == children && [] + stack == stack;
    ChildrenAhead(boxes, [], container, 0);
    assert LeavesFrom(boxes, container, 0) + [] == LeavesFrom(boxes, container, 0);
  }

  // ----- which piece each leaf gives -----

  /** Whether a text leaves a space at its end that the next one's must not repeat. */
  predicate LeavesSpace(text: string, mode: WhiteSpace, before: bool) {
    mode.Normal? && ((before && AllCollapsible(text)) || (text != [] && IsCollapsible(text[|text| - 1])))
  }

  /** A space at the front of the `k`-th leaf is swallowed: a block's start, a break or another space is before it. */
  function SpaceBefore(boxes: seq<LayoutBox>, texts: Texts, leaves: seq<BoxId>, first: bool, k: nat): bool
    requires k <= |leaves| && forall i :: 0 <= i < |leaves| ==> leaves[i] < |boxes| && IsLeaf(boxes[leaves[i]])
  {
    if k == 0 then first
    else
      var box := boxes[leaves[k - 1]];
      box.kind.InlineText? ==>
        LeavesSpace(texts(box.kind.text), box.style.whiteSpace, SpaceBefore(boxes, texts, leaves, first, k - 1))
  }

  /** The piece of one leaf: a break, or its node's text as processed for its own style. */
  predicate PieceOf(piece: Piece, box: LayoutBox, texts: Texts, suppress: bool)
    requires IsLeaf(box)
  {
    if box.kind.LineBreak? then piece == ForcedBreak
    else
      && piece.Words? && piece.node == box.kind.text && piece.style == box.style
      && piece.text == if box.style.whiteSpace.Normal? then WrittenFrom(texts(box.kind.text), suppress, 0)
                       else BrokenFrom(texts(box.kind.text), 0)
  }

  lemma LeafPieceIs(box: LayoutBox, texts: Texts, suppress: bool)
    requires IsLeaf(box)
    ensures PieceOf(LeafPiece(box, texts, suppress).0, box, texts, suppress)
    ensures LeafPiece(box, texts, suppress).1
            <==> box.kind.LineBreak? || LeavesSpace(texts(box.kind.text), box.style.whiteSpace, suppress)
  {
    hide NormalFrom, BreaksFrom, IsCollapsible, WrittenFrom, BrokenFrom, Written, Broken;
    if box.kind.InlineText? {
      var text := texts(box.kind.text);
      SpaceForRun(text, suppress);
      BreaksSpelled(text, 0);
      assert text[0..] == text;
    }
  }

  lemma SpaceBeforeNext(boxes: seq<LayoutBox>, texts: Texts, leaves: seq<BoxId>, first: bool, k: nat)
    requires k < |leaves| && forall i :: 0 <= i < |leaves| ==> leaves[i] < |boxes| && IsLeaf(boxes[leaves[i]])
    ensures var box := boxes[leaves[k]];
            SpaceBefore(boxes, texts, leaves, first, k + 1)
            == LeafPiece(box, texts, SpaceBefore(boxes, texts, leaves, first, k)).1
  {
    LeafPieceIs(boxes[leaves[k]], texts, SpaceBefore(boxes, texts, leaves, first, k));
  }

  /**
   * Every leaf gives one piece, in order, under its own node and style; a space at its front
   * goes exactly where a block's start, a break or another collapsed space stands before it.
   */
  lemma {:induction false} PiecesExactly(boxes: seq<LayoutBox>, texts: Texts, leaves: seq<BoxId>, first: bool, k: nat)
    requires k <= |leaves| && forall i :: 0 <= i < |leaves| ==> leaves[i] < |boxes| && IsLeaf(boxes[leaves[i]])
    ensures var rest := Rendered(boxes, texts, leaves[k..], SpaceBefore(boxes, texts, leaves, first, k));
            && |rest| == |leaves| - k
            && forall i :: k <= i < |leaves| ==>
                 PieceOf(rest[i - k], boxes[leaves[i]], texts, SpaceBefore(boxes, texts, leaves, first, i))
    decreases |leaves| - k
  {
    hide LeafPiece, PieceOf, LeavesSpace, Rendered, SpaceBefore;
    if k == |leaves| {
      assert leaves[k..] == [];
      NothingRendered(boxes, texts, SpaceBefore(boxes, texts, leaves, first, k));
    }
    if k < |leaves| {
      var suppress := SpaceBefore(boxes, texts, leaves, first, k);
      assert leaves[k..] == [leaves[k]] + leaves[k + 1..];
      LeafPieceIs(boxes[leaves[k]], texts, suppress);
      RenderedStep(boxes, texts, leaves[k], leaves[k + 1..], suppress);
      PiecesExactly(boxes, texts, leaves, first, k + 1);
      var rest := Rendered(boxes, texts, leaves[k..], suppress);
      var tail := Rendered(boxes, texts, leaves[k + 1..], SpaceBefore(boxes, texts, leaves, first, k + 1));
      SpaceBeforeNext(boxes, texts, leaves, first, k);
      assert rest == [LeafPiece(boxes[leaves[k]], texts, suppress).0] + tail;
      forall i | k <= i < |leaves|
        ensures PieceOf(rest[i - k], boxes[leaves[i]], texts, SpaceBefore(boxes, texts, leaves, first, i))
      {
        assert i > k ==> rest[i - k] == tail[i - (k + 1)];
      }
    }
  }

  // ----- collapsing across nodes -----

  function PlainText(pieces: seq<Piece>): string {
    if pieces == [] then ""
    else (if pieces[0].Words? then pieces[0].text else "") + PlainText(pieces[1..])
  }

  function SourceText(boxes: seq<LayoutBox>, texts: Texts, leaves: seq<BoxId>): seq<string>
    requires forall i :: 0 <= i < |leaves| ==> leaves[i] < |boxes| && boxes[leaves[i]].kind.InlineText?
  {
    if leaves == [] then [] else [texts(boxes[leaves[0]].kind.text)] + SourceText(boxes, texts, leaves[1..])
  }

  /** However the text between two breaks is spread over nodes and inline boxes, it collapses as one string would. */
  lemma {:induction false} CollapsesAsOne(boxes: seq<LayoutBox>, texts: Texts, leaves: seq<BoxId>, suppress: bool)
    requires forall i :: 0 <= i < |leaves| ==>
               leaves[i] < |boxes| && boxes[leaves[i]].kind.InlineText? && boxes[leaves[i]].style.whiteSpace.Normal?
    ensures PlainText(Rendered(boxes, texts, leaves, suppress)) ==
            Whitespace.Normal(Joined(SourceText(boxes, texts, leaves)), suppress).text
  {
    ThreadedRendered(boxes, texts, leaves, suppress);
    ThreadedIsWhole(SourceText(boxes, texts, leaves), suppress);
  }

  lemma {:induction false} ThreadedRendered(boxes: seq<LayoutBox>, texts: Texts, leaves: seq<BoxId>, suppress: bool)
    requires forall i :: 0 <= i < |leaves| ==>
               leaves[i] < |boxes| && boxes[leaves[i]].kind.InlineText? && boxes[leaves[i]].style.whiteSpace.Normal?
    ensures PlainText(Rendered(boxes, texts, leaves, suppress))
            == Threaded(SourceText(boxes, texts, leaves), suppress).text
  {
    hide NormalFrom;
    if leaves != [] {
      var node := boxes[leaves[0]].kind.text;
      var p := Whitespace.Normal(texts(node), suppress);
      ThreadedRendered(boxes, texts, leaves[1..], p.suppressNext);
      var rest := Rendered(boxes, texts, leaves[1..], p.suppressNext);
      var first := Words(p.text, boxes[leaves[0]].style, node);
      assert Rendered(boxes, texts, leaves, suppress) == [first] + rest;
      assert ([first] + rest)[1..] == rest;
      assert SourceText(boxes, texts, leaves)[1..] == SourceText(boxes, texts, leaves[1..]);
    }
  }

  // ----- runs by piece -----

  datatype RunGroup = RunGroup(item: nat, runs: seq<GlyphRun>)

  /** Stands for a run whose item is not recorded. */
  const NO_ITEM: nat := 0xffff_ffff_ffff_ffff

  function ItemAt(items: seq<nat>, index: nat): nat {
    if index < |items| then items[index] else NO_ITEM
  }

  function Runs(groups: seq<RunGroup>): seq<GlyphRun> {
    if groups == [] then [] else Runs(groups[..|groups| - 1]) + groups[|groups| - 1].runs
  }

  /** Where the `k`-th group's runs start. */
  function StartOf(groups: seq<RunGroup>, k: nat): nat
    requires k <= |groups|
  {
    |Runs(groups[..k])|
  }

  predicate AllFrom(items: seq<nat>, from: nat, n: nat, item: nat) {
    forall i {:trigger ItemAt(items, i)} :: from <= i < from + n ==> ItemAt(items, i) == item
  }

  /** No group is empty, and every run of a group is recorded as coming from the group's item. */
  predicate Labelled(groups: seq<RunGroup>, items: seq<nat>) {
    forall k :: 0 <= k < |groups| ==>
      groups[k].runs != [] && AllFrom(items, StartOf(groups, k), |groups[k].runs|, groups[k].item)
  }

  /** An item recorded past the last run, repeating it, keeps the last group from ever closing. */
  predicate Dangling(runs: seq<GlyphRun>, items: seq<nat>) {
    0 < |runs| < |items| && items[|runs|] == items[|runs| - 1]
  }

  lemma RunsAdd(groups: seq<RunGroup>, g: RunGroup)
    ensures Runs(groups + [g]) == Runs(groups) + g.runs
    ensures forall k :: 0 <= k <= |groups| ==> StartOf(groups + [g], k) == StartOf(groups, k)
  {
    assert (groups + [g])[..|groups|] == groups;
    forall k | 0 <= k <= |groups| ensures StartOf(groups + [g], k) == StartOf(groups, k) {
      assert (groups + [g])[..k] == groups[..k];
    }
  }

  lemma LabelledAdd(groups: seq<RunGroup>, items: seq<nat>, g: RunGroup)
    requires Labelled(groups, items) && g.runs != []
    requires AllFrom(items, |Runs(groups)|, |g.runs|, g.item)
    ensures Labelled(groups + [g], items)
  {
    hide AllFrom, Runs;
    RunsAdd(groups, g);
    assert groups[..|groups|] == groups;
    var all := groups + [g];
    forall k | 0 <= k < |all| ensures all[k].runs != [] && AllFrom(items, StartOf(all, k), |all[k].runs|, all[k].item) {
      if k < |groups| {
        assert all[k] == groups[k];
      }
    }
  }

  /** Splits the runs where the recorded item changes: nothing lost, reordered or mixed, unless the record dangles. */
  method GroupRuns(runs: seq<GlyphRun>, items: seq<nat>) returns (groups: seq<RunGroup>)
    ensures Runs(groups) <= runs && Labelled(groups, items)
    ensures Runs(groups) == runs <==> !Dangling(runs, items)
    ensures |runs| <= |items| ==> forall k :: 0 < k < |groups| ==> groups[k - 1].item != groups[k].item
  {
    hide Runs, StartOf, Labelled;
    groups := [];
    var start: nat := 0;
    NoGroups(items);
    for index := 0 to |runs|
      invariant start <= index && Runs(groups) == runs[..start] && Labelled(groups, items)
      invariant forall i :: start <= i < index ==> ItemAt(items, i) == ItemAt(items, index)
      invariant start < index ==> index < |items| && items[index] == items[index - 1]
      invariant 0 < start == index < |items| ==> items[index] != items[index - 1]
      invariant |runs| <= |items| && groups != [] && start < |items| ==> groups[|groups| - 1].item != items[start]
      invariant |runs| <= |items| ==> forall k :: 0 < k < |groups| ==> groups[k - 1].item != groups[k].item
    {
      var item := ItemAt(items, index);
      var next := if index + 1 < |items| then Some(items[index + 1]) else None;
      if next != Some(item) {
        assert item == ItemAt(items, start);
        var g := RunGroup(item, runs[start..index + 1]);
        LabelledAdd(groups, items, g);
        RunsAdd(groups, g);
        assert runs[..start] + g.runs == runs[..index + 1];
        groups := groups + [g];
        start := index + 1;
      }
    }
    assert runs[..|runs|] == runs;
    assert start < |runs| ==> |runs[..start]| < |runs|;
  }

  lemma NoGroups(items: seq<nat>)
    ensures Runs([]) == [] && Labelled([], items)
  {
  }

  /** The text node a run comes from, looked up among the pieces handed to the shaper. */
  function SourceOf(pieces: seq<Piece>, item: nat): Option<TextSource> {
    if item < |pieces| && pieces[item].Words? then Some(TextSource(pieces[item].node, pieces[item].style)) else None
  }

  function PartRuns(parts: seq<TextPiece>): seq<GlyphRun> {
    if parts == [] then [] else PartRuns(parts[..|parts| - 1]) + parts[|parts| - 1].runs
  }

  function Parts(groups: seq<RunGroup>, pieces: seq<Piece>): (r: seq<TextPiece>)
    ensures |r| == |groups|
    ensures forall k :: 0 <= k < |r| ==> r[k] == TextPiece(SourceOf(pieces, groups[k].item), groups[k].runs)
  {
    seq(|groups|, k requires 0 <= k < |groups| => TextPiece(SourceOf(pieces, groups[k].item), groups[k].runs))
  }

  lemma {:induction false} PartsKeepRuns(groups: seq<RunGroup>, pieces: seq<Piece>)
    ensures PartRuns(Parts(groups, pieces)) == Runs(groups)
  {
    if groups != [] {
      PartsKeepRuns(groups[..|groups| - 1], pieces);
      assert Parts(groups, pieces)[..|groups| - 1] == Parts(groups[..|groups| - 1], pieces);
    }
  }

  /** Every part is non-empty, and comes from the text node all its runs are recorded for. */
  predicate Sourced(parts: seq<TextPiece>, items: seq<nat>, pieces: seq<Piece>) {
    forall k :: 0 <= k < |parts| ==>
      parts[k].runs != [] &&
      forall i {:trigger ItemAt(items, i)} ::
        |PartRuns(parts[..k])| <= i < |PartRuns(parts[..k])| + |parts[k].runs| ==>
          ComesFrom(parts[k].source, pieces, ItemAt(items, i))
  }

  /** The node and style of that piece, or no source for a break or an item that names no piece. */
  predicate ComesFrom(source: Option<TextSource>, pieces: seq<Piece>, item: nat) {
    if source.None? then item >= |pieces| || pieces[item].ForcedBreak?
    else
      && item < |pieces| && pieces[item].Words?
      && source.value.node == pieces[item].node && source.value.style == pieces[item].style
  }

  /**
   * A line's runs as parts with their sources. Each run keeps its place and gets the
   * text node it came from; with one item recorded per run none is lost.
   */
  method SourceRuns(runs: seq<GlyphRun>, items: seq<nat>, pieces: seq<Piece>) returns (parts: seq<TextPiece>)
    ensures PartRuns(parts) <= runs && Sourced(parts, items, pieces)
    ensures PartRuns(parts) == runs <==> !Dangling(runs, items)
    ensures |items| == |runs| ==> PartRuns(parts) == runs
  {
    hide Runs, PartRuns, Labelled, Sourced, SourceOf;
    var groups := GroupRuns(runs, items);
    PartsKeepRuns(groups, pieces);
    PartsSourced(groups, items, pieces);
    ghost var all := Parts(groups, pieces);
    parts := [];
    for k := 0 to |groups|
      invariant parts == all[..k]
    {
      parts := parts + [TextPiece(SourceOf(pieces, groups[k].item), groups[k].runs)];
    }
    assert parts == all;
  }

  lemma PartsSourced(groups: seq<RunGroup>, items: seq<nat>, pieces: seq<Piece>)
    requires Labelled(groups, items)
    ensures Sourced(Parts(groups, pieces), items, pieces)
  {
    hide Runs, PartRuns;
    var parts := Parts(groups, pieces);
    forall k | 0 <= k < |parts| ensures |PartRuns(parts[..k])| == StartOf(groups, k) {
      PartsKeepRuns(groups[..k], pieces);
      assert parts[..k] == Parts(groups[..k], pieces);
    }
  }
}
