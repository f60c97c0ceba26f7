/**
 * Box generation (CSS 2.1 section 9.2): from a styled document to a box tree.
 * Hidden elements generate nothing, inline elements around blocks are blockified,
 * runs of inline boxes between blocks get an anonymous block, and a run of nothing
 * but collapsible white space is dropped. The walk keeps its own stack of frames;
 * `Build` proves it yields exactly the recursive generation defined here.
 */
module BoxGeneration {
  import opened Wrappers
  import opened Styles
  import opened BoxTrees
  import opened Whitespace
  import opened Dom
  import Forest
  import Traverse

  /** A document with its adapted computed styles; `kids` are the child lists the children iterator yields. */
  datatype StyledDoc = StyledDoc(kids: Forest.Kids, kinds: seq<NodeKind>, computed: seq<Option<LayoutStyle>>)

  ghost predicate DocWellFormed(doc: StyledDoc) {
    && Forest.WellFormed(doc.kids)
    && |doc.kinds| == |doc.kids| == |doc.computed|
  }

  datatype ChildBox = Skip | Leaf(kind: BoxKind, style: LayoutStyle) | Container(isInline: bool, style: LayoutStyle)

  /** What one document node becomes, as a child of a container styled `parent`. */
  function Classify(doc: StyledDoc, node: NodeId, parent: LayoutStyle): ChildBox {
    if node >= |doc.kinds| || node >= |doc.computed| then Skip
    else
      match doc.kinds[node]
      case Text(_) => Leaf(InlineText(node), InheritedTextStyle(parent))
      case Element(name) =>
        var computed := doc.computed[node];
        if computed.None? || computed.value.display.Hide? then Skip
        else if name == "br" then Leaf(LineBreak, computed.value)
        else Container(!computed.value.display.Block?, computed.value)
      case _ => Skip
  }

  function TextOf(doc: StyledDoc, node: NodeId): string {
    if node < |doc.kinds| && doc.kinds[node].Text? then doc.kinds[node].text else ""
  }

  // ----- anonymous blocks around inline runs -----

  predicate BlockAt(boxes: seq<LayoutBox>, id: BoxId) {
    id < |boxes| && IsBlockLevel(boxes[id].kind)
  }

  predicate HasBlock(boxes: seq<LayoutBox>, ids: seq<BoxId>) {
    exists i :: 0 <= i < |ids| && BlockAt(boxes, ids[i])
  }

  predicate HasInline(boxes: seq<LayoutBox>, ids: seq<BoxId>) {
    exists i :: 0 <= i < |ids| && ids[i] < |boxes| && !BlockAt(boxes, ids[i])
  }

  /** A text box that collapses away on its own: white space only, in `normal` mode. */
  predicate BlankText(doc: StyledDoc, box: LayoutBox) {
    box.kind.InlineText? && box.style.whiteSpace.Normal? && AllCollapsible(TextOf(doc, box.kind.text))
  }

  predicate BlankRun(doc: StyledDoc, boxes: seq<LayoutBox>, run: seq<BoxId>) {
    run != [] && forall i :: 0 <= i < |run| ==> run[i] < |boxes| && BlankText(doc, boxes[run[i]])
  }

  datatype Wrapped = Wrapped(boxes: seq<LayoutBox>, ids: seq<BoxId>)

  function AnonymousBox(style: LayoutStyle, run: seq<BoxId>): LayoutBox {
    LayoutBox(None, BoxKind.AnonymousBlock, AnonymousBlockStyle(style), run)
  }

  /** Drops a blank run, wraps any other in a fresh anonymous block. */
  function FlushRun(doc: StyledDoc, style: LayoutStyle, boxes: seq<LayoutBox>, run: seq<BoxId>): (r: Wrapped)
    ensures |r.boxes| == |boxes| + |r.ids| && |r.ids| <= 1 && boxes <= r.boxes
  {
    if run == [] || BlankRun(doc, boxes, run) then Wrapped(boxes, [])
    else Wrapped(boxes + [AnonymousBox(style, run)], [|boxes|])
  }

  /** The length of the leading stretch without a block-level box. */
  function InlinePrefix(boxes: seq<LayoutBox>, ids: seq<BoxId>): (n: nat)
    ensures n <= |ids|
    ensures forall i :: 0 <= i < n ==> !BlockAt(boxes, ids[i])
    ensures n < |ids| ==> BlockAt(boxes, ids[n])
  {
    if ids == [] || BlockAt(boxes, ids[0]) then 0 else 1 + InlinePrefix(boxes, ids[1..])
  }

  /** Every maximal inline run flushed, every block-level box kept, in order. */
  function WrapRuns(doc: StyledDoc, style: LayoutStyle, boxes: seq<LayoutBox>, ids: seq<BoxId>): Wrapped
    decreases |ids|
  {
    if ids == [] then Wrapped(boxes, [])
    else if BlockAt(boxes, ids[0]) then
      var rest := WrapRuns(doc, style, boxes, ids[1..]);
      Wrapped(rest.boxes, [ids[0]] + rest.ids)
    else
      var n := InlinePrefix(boxes, ids);
      var flushed := FlushRun(doc, style, boxes, ids[..n]);
      var rest := WrapRuns(doc, style, flushed.boxes, ids[n..]);
      Wrapped(rest.boxes, flushed.ids + rest.ids)
  }

  /** Only a mix of block-level and inline-level children is wrapped. */
  function WrapMixed(doc: StyledDoc, style: LayoutStyle, boxes: seq<LayoutBox>, ids: seq<BoxId>): Wrapped {
    if HasBlock(boxes, ids) && HasInline(boxes, ids) then WrapRuns(doc, style, boxes, ids) else Wrapped(boxes, ids)
  }

  // ----- the recursive generation -----

  datatype Frame = Frame(node: NodeId, style: LayoutStyle, isInline: bool, children: seq<NodeId>, nextChild: nat,
                         built: seq<BoxId>)

  datatype Progress = Progress(frame: Frame, boxes: seq<LayoutBox>)

  datatype Generated = Generated(boxes: seq<LayoutBox>, id: BoxId)

  ghost function OpenFrame(doc: StyledDoc, node: NodeId, style: LayoutStyle, isInline: bool): Frame
    requires node < |doc.kids|
  {
    Frame(node, style, isInline, doc.kids[node], 0, [])
  }

  /** An inline container around a block becomes a block, in kind and in style alike. */
  function FinalStyle(f: Frame, boxes: seq<LayoutBox>): LayoutStyle {
    if f.isInline && HasBlock(boxes, f.built) then f.style.(display := Display.Block) else f.style
  }

  function FinalKind(f: Frame, boxes: seq<LayoutBox>): BoxKind {
    if f.isInline && !HasBlock(boxes, f.built) then BoxKind.Inline else BoxKind.Block
  }

  function CloseFrame(doc: StyledDoc, f: Frame, boxes: seq<LayoutBox>): Generated {
    var style := FinalStyle(f, boxes);
    var wrapped := WrapMixed(doc, style, boxes, f.built);
    Generated(wrapped.boxes + [LayoutBox(Some(f.node), FinalKind(f, boxes), style, wrapped.ids)], |wrapped.boxes|)
  }

  function Deeper(f: Frame, ids: seq<BoxId>): Frame {
    f.(nextChild := f.nextChild + 1, built := f.built + ids)
  }

  ghost predicate FrameOk(doc: StyledDoc, f: Frame) {
    f.node < |doc.kids| && f.children == doc.kids[f.node]
  }

  ghost function Depth(doc: StyledDoc, node: NodeId): (d: nat)
    requires DocWellFormed(doc) && node < |doc.kids|
    ensures forall c :: c in doc.kids[node] ==> c < |doc.kids| && Height(doc, c) < d
  {
    Height(doc, node)
  }

  /** Counts down from every parent to its children. */
  ghost function Height(doc: StyledDoc, node: NodeId): nat
    requires DocWellFormed(doc) && node < |doc.kids|
  {
    Traverse.SomeBound(doc.kids) - Traverse.SomeRank(doc.kids)[node]
  }

  ghost function GenBox(doc: StyledDoc, node: NodeId, style: LayoutStyle, isInline: bool,
                        boxes: seq<LayoutBox>): Generated
    requires DocWellFormed(doc) && node < |doc.kids|
    decreases Depth(doc, node), 1, 0
  {
    var done := GenChildren(doc, OpenFrame(doc, node, style, isInline), boxes);
    CloseFrame(doc, done.frame, done.boxes)
  }

  ghost function GenChildren(doc: StyledDoc, f: Frame, boxes: seq<LayoutBox>): Progress
    requires DocWellFormed(doc) && FrameOk(doc, f)
    decreases Depth(doc, f.node), 0, |f.children| - f.nextChild
  {
    if f.nextChild >= |f.children| then Progress(f, boxes)
    else
      var c := f.children[f.nextChild];
      assert c in doc.kids[f.node];
      match Classify(doc, c, f.style)
      case Skip => GenChildren(doc, Deeper(f, []), boxes)
      case Leaf(kind, style) =>
        GenChildren(doc, Deeper(f, [|boxes|]), boxes + [LayoutBox(Some(c), kind, style, [])])
      case Container(isInline, style) =>
        var g := GenBox(doc, c, style, isInline, boxes);
        GenChildren(doc, Deeper(f, [g.id]), g.boxes)
  }

  /** The document element: the first element among the document node's children. */
  function RootElement(doc: StyledDoc, list: seq<NodeId>): Option<NodeId> {
    if list == [] then None
    else if list[0] < |doc.kinds| && doc.kinds[list[0]].Element? then Some(list[0])
    else RootElement(doc, list[1..])
  }

  const EMPTY_TREE := BoxTree([LayoutBox(None, BoxKind.AnonymousBlock, INITIAL, [])], 0)

  function RootStyle(doc: StyledDoc, root: NodeId): LayoutStyle {
    if root < |doc.computed| && doc.computed[root].Some? then doc.computed[root].value else INITIAL
  }

  ghost function GenTree(doc: StyledDoc): BoxTree
    requires DocWellFormed(doc)
  {
    match RootElement(doc, doc.kids[Forest.ROOT])
    case None => EMPTY_TREE
    case Some(root) =>
      var style := RootStyle(doc, root);
      if root >= |doc.kids| || style.display.Hide? then EMPTY_TREE
      else
        var g := GenBox(doc, root, style, style.display.Inline?, []);
        BoxTree(g.boxes, g.id)
  }

  // ----- the walk -----

  ghost predicate StackOk(doc: StyledDoc, stack: seq<Frame>) {
    forall i :: 0 <= i < |stack| ==> FrameOk(doc, stack[i])
  }

  /** The stack after the finished top frame has handed box `id` to its parent. */
  function HandDown(stack: seq<Frame>, id: BoxId): (r: seq<Frame>)
    requires |stack| >= 2
    ensures |r| == |stack| - 1
    ensures forall i :: 0 <= i < |r| ==> r[i].node == stack[i].node && r[i].children == stack[i].children
  {
    var n := |stack| - 2;
    stack[..n] + [stack[n].(built := stack[n].built + [id])]
  }

  /** What the walk is heading for: finish the top frame by recursion, hand it down, and so on. */
  ghost function Unwind(doc: StyledDoc, stack: seq<Frame>, boxes: seq<LayoutBox>): Generated
    requires DocWellFormed(doc) && stack != [] && StackOk(doc, stack)
    decreases |stack|, 1
  {
    var done := GenChildren(doc, stack[|stack| - 1], boxes);
    Unwound(doc, stack, CloseFrame(doc, done.frame, done.boxes))
  }

  ghost function Unwound(doc: StyledDoc, stack: seq<Frame>, g: Generated): Generated
    requires DocWellFormed(doc) && stack != [] && StackOk(doc, stack)
    decreases |stack|, 0
  {
    if |stack| == 1 then g else Unwind(doc, HandDown(stack, g.id), g.boxes)
  }

  lemma UnwoundIgnoresTop(doc: StyledDoc, stack: seq<Frame>, top: Frame, g: Generated)
    requires DocWellFormed(doc) && stack != [] && StackOk(doc, stack) && FrameOk(doc, top)
    ensures Unwound(doc, stack[..|stack| - 1] + [top], g) == Unwound(doc, stack, g)
  {
    hide DocWellFormed;
    var other := stack[..|stack| - 1] + [top];
    if |stack| > 1 {
      assert HandDown(other, g.id) == HandDown(stack, g.id);
    }
  }

  /** A child that is skipped or is a leaf: the top frame moves past it. */
  lemma StepPast(doc: StyledDoc, stack: seq<Frame>, boxes: seq<LayoutBox>, top: Frame, after: seq<LayoutBox>)
    requires DocWellFormed(doc) && stack != [] && StackOk(doc, stack)
    requires var f := stack[|stack| - 1];
             && f.nextChild < |f.children|
             && var child := Classify(doc, f.children[f.nextChild], f.style);
             && !child.Container?
             && (child.Skip? ==> top == Deeper(f, []) && after == boxes)
             && (child.Leaf? ==>
                   && top == Deeper(f, [|boxes|])
                   && after == boxes + [LayoutBox(Some(f.children[f.nextChild]), child.kind, child.style, [])])
    ensures StackOk(doc, stack[..|stack| - 1] + [top])
    ensures Unwind(doc, stack[..|stack| - 1] + [top], after) == Unwind(doc, stack, boxes)
  {
    hide DocWellFormed, Classify, CloseFrame;
    var f := stack[|stack| - 1];
    var done := GenChildren(doc, f, boxes);
    assert done == GenChildren(doc, top, after);
    UnwoundIgnoresTop(doc, stack, top, CloseFrame(doc, done.frame, done.boxes));
  }

  /** A container child: its new frame stands for its whole recursive generation. */
  lemma StepInto(doc: StyledDoc, stack: seq<Frame>, boxes: seq<LayoutBox>, pushed: seq<Frame>)
    requires DocWellFormed(doc) && stack != [] && StackOk(doc, stack)
    requires var f := stack[|stack| - 1];
             && f.nextChild < |f.children| && f.children[f.nextChild] < |doc.kids|
             && var child := Classify(doc, f.children[f.nextChild], f.style);
             && child.Container?
             && pushed == stack[..|stack| - 1] + [f.(nextChild := f.nextChild + 1),
                                                  OpenFrame(doc, f.children[f.nextChild], child.style, child.isInline)]
    ensures StackOk(doc, pushed)
    ensures Unwind(doc, pushed, boxes) == Unwind(doc, stack, boxes)
  {
    hide DocWellFormed, Classify, CloseFrame;
    var n := |stack| - 1;
    var f := stack[n];
    var c := f.children[f.nextChild];
    var child := Classify(doc, c, f.style);
    var g := GenBox(doc, c, child.style, child.isInline, boxes);
    var top := Deeper(f, [g.id]);
    var after := stack[..n] + [top];
    assert Unwind(doc, pushed, boxes) == Unwind(doc, after, g.boxes) by {
      assert pushed[n + 1] == OpenFrame(doc, c, child.style, child.isInline);
      assert Unwind(doc, pushed, boxes) == Unwound(doc, pushed, g);
      assert HandDown(pushed, g.id) == after;
    }
    var done := GenChildren(doc, f, boxes);
    assert done == GenChildren(doc, top, g.boxes);
    assert Unwind(doc, after, g.boxes) == Unwound(doc, after, CloseFrame(doc, done.frame, done.boxes));
    UnwoundIgnoresTop(doc, stack, top, CloseFrame(doc, done.frame, done.boxes));
  }

  /** What comes out when `rest` is still to come after `result`. */
  function Resumed(result: seq<BoxId>, rest: Wrapped): Wrapped {
    Wrapped(rest.boxes, result + rest.ids)
  }

  /** The wrapping pass, one child after another: a run is held back until a block or the end flushes it. */
  method WrapInlineRuns(doc: StyledDoc, style: LayoutStyle, boxes0: seq<LayoutBox>, ids: seq<BoxId>)
    returns (boxes: seq<LayoutBox>, result: seq<BoxId>)
    requires forall i :: 0 <= i < |ids| ==> ids[i] < |boxes0|
    ensures Wrapped(boxes, result) == WrapMixed(doc, style, boxes0, ids)
  {
    hide WrapRuns, FlushRun, HasBlock, HasInline, InlineRun, BlockAt;
    boxes := boxes0;
    if !(HasBlock(boxes, ids) && HasInline(boxes, ids)) {
      result := ids;
      return;
    }
    EmptyRun(boxes0, ids);
    result := [];
    var run: seq<BoxId> := [];
    ghost var whole := WrapRuns(doc, style, boxes0, ids);
    for i := 0 to |ids|
      invariant boxes0 <= boxes
      invariant InlineRun(boxes0, run)
      invariant whole == Resumed(result, WrapRuns(doc, style, boxes, run + ids[i..]))
    {
      var id := ids[i];
      if BlockAt(boxes, id) {
        BlockFlushes(doc, style, boxes0, boxes, result, run, ids, i);
        var flushed := FlushRun(doc, style, boxes, run);
        result := result + flushed.ids + [id];
        boxes := flushed.boxes;
        run := [];
      } else {
        RunGrows(boxes0, boxes, run, ids, i);
        run := run + [id];
      }
    }
    LastFlushes(doc, style, boxes0, boxes, result, run, ids);
    var flushed := FlushRun(doc, style, boxes, run);
    result := result + flushed.ids;
    boxes := flushed.boxes;
  }

  lemma LastFlushes(doc: StyledDoc, style: LayoutStyle, boxes0: seq<LayoutBox>, boxes: seq<LayoutBox>,
                    result: seq<BoxId>, run: seq<BoxId>, ids: seq<BoxId>)
    requires boxes0 <= boxes && InlineRun(boxes0, run)
    ensures var flushed := FlushRun(doc, style, boxes, run);
            var here := WrapRuns(doc, style, boxes, run + ids[|ids|..]);
            here.boxes == flushed.boxes && result + here.ids == result + flushed.ids
  {
    hide WrapRuns, FlushRun;
    assert run + ids[|ids|..] == run + [];
    RunFlushes(doc, style, boxes0, boxes, run, []);
    var flushed := FlushRun(doc, style, boxes, run);
    assert flushed.ids + [] == flushed.ids;
  }

  predicate InlineRun(boxes: seq<LayoutBox>, run: seq<BoxId>) {
    forall k :: 0 <= k < |run| ==> run[k] < |boxes| && !BlockAt(boxes, run[k])
  }

  lemma EmptyRun(boxes: seq<LayoutBox>, ids: seq<BoxId>)
    ensures InlineRun(boxes, []) && [] + ids[0..] == ids
  {
  }

  lemma RunGrows(boxes0: seq<LayoutBox>, boxes: seq<LayoutBox>, run: seq<BoxId>, ids: seq<BoxId>, i: nat)
    requires boxes0 <= boxes
    requires InlineRun(boxes0, run) && i < |ids| && ids[i] < |boxes0| && !BlockAt(boxes, ids[i])
    ensures InlineRun(boxes0, run + [ids[i]]) && run + ids[i..] == run + [ids[i]] + ids[i + 1..]
  {
  }

  lemma BlockFlushes(doc: StyledDoc, style: LayoutStyle, boxes0: seq<LayoutBox>, boxes: seq<LayoutBox>,
                     result: seq<BoxId>, run: seq<BoxId>, ids: seq<BoxId>, i: nat)
    requires boxes0 <= boxes && i < |ids| && BlockAt(boxes, ids[i])
    requires InlineRun(boxes0, run)
    ensures var flushed := FlushRun(doc, style, boxes, run);
            var here := WrapRuns(doc, style, boxes, run + ids[i..]);
            var rest := WrapRuns(doc, style, flushed.boxes, [] + ids[i + 1..]);
            here.boxes == rest.boxes && result + here.ids == result + flushed.ids + [ids[i]] + rest.ids
  {
    hide WrapRuns, FlushRun;
    RunFlushes(doc, style, boxes0, boxes, run, ids[i..]);
    assert ids[i..][1..] == ids[i + 1..] && [] + ids[i + 1..] == ids[i + 1..];
  }

  /** A pending run followed by a block or by nothing is flushed as it stands. */
  lemma RunFlushes(doc: StyledDoc, style: LayoutStyle, boxes0: seq<LayoutBox>, boxes: seq<LayoutBox>,
                   run: seq<BoxId>, rest: seq<BoxId>)
    requires boxes0 <= boxes
    requires InlineRun(boxes0, run)
    requires rest == [] || (rest[0] < |boxes| && BlockAt(boxes, rest[0]))
    ensures var flushed := FlushRun(doc, style, boxes, run);
            var tail := WrapRuns(doc, style, flushed.boxes, rest);
            && WrapRuns(doc, style, boxes, run + rest) == Wrapped(tail.boxes, flushed.ids + tail.ids)
            && (rest != [] ==>
                  var more := WrapRuns(doc, style, flushed.boxes, rest[1..]);
                  tail == Wrapped(more.boxes, [rest[0]] + more.ids))
            && (rest == [] ==> tail == Wrapped(flushed.boxes, []))
  {
    if run == [] {
      assert run + rest == rest;
    } else {
      PrefixIsRun(boxes, run, rest);
      assert (run + rest)[..|run|] == run && (run + rest)[|run|..] == rest;
    }
  }

  lemma {:induction false} PrefixIsRun(boxes: seq<LayoutBox>, run: seq<BoxId>, rest: seq<BoxId>)
    requires forall k :: 0 <= k < |run| ==> !BlockAt(boxes, run[k])
    requires rest == [] || BlockAt(boxes, rest[0])
    ensures InlinePrefix(boxes, run + rest) == |run|
  {
    if run == [] {
      assert run + rest == rest;
    } else {
      assert (run + rest)[1..] == run[1..] + rest;
      PrefixIsRun(boxes, run[1..], rest);
    }
  }

  // ----- the walk ends -----

  /** Turns of the walk still to come for the children of `node` from the `k`-th on, at most. */
  ghost function StepsFrom(doc: StyledDoc, node: NodeId, k: nat): nat
    requires DocWellFormed(doc) && node < |doc.kids|
    decreases Depth(doc, node), |doc.kids[node]| - k
  {
    if k >= |doc.kids[node]| then 0
    else
      var c := doc.kids[node][k];
      assert c in doc.kids[node];
      2 + StepsFrom(doc, c, 0) + StepsFrom(doc, node, k + 1)
  }

  ghost function StackSteps(doc: StyledDoc, stack: seq<Frame>): nat
    requires DocWellFormed(doc) && StackOk(doc, stack)
  {
    if stack == [] then 0
    else
      var top := stack[|stack| - 1];
      1 + StepsFrom(doc, top.node, top.nextChild) + StackSteps(doc, stack[..|stack| - 1])
  }

  ghost predicate BuiltBelow(stack: seq<Frame>, n: nat) {
    forall i, k :: 0 <= i < |stack| && 0 <= k < |stack[i].built| ==> stack[i].built[k] < n
  }

  lemma StackStepsPush(doc: StyledDoc, below: seq<Frame>, top: Frame)
    requires DocWellFormed(doc) && StackOk(doc, below) && FrameOk(doc, top)
    ensures StackOk(doc, below + [top])
    ensures StackSteps(doc, below + [top]) == 1 + StepsFrom(doc, top.node, top.nextChild) + StackSteps(doc, below)
  {
    hide DocWellFormed, StepsFrom;
    assert (below + [top])[..|below|] == below;
  }

  lemma StepsUnfold(doc: StyledDoc, node: NodeId, k: nat)
    requires DocWellFormed(doc) && node < |doc.kids| && k < |doc.kids[node]|
    ensures doc.kids[node][k] < |doc.kids|
    ensures StepsFrom(doc, node, k) == 2 + StepsFrom(doc, doc.kids[node][k], 0) + StepsFrom(doc, node, k + 1)
  {
    hide DocWellFormed;
    assert doc.kids[node][k] in doc.kids[node];
    var d := Depth(doc, node);
  }

  lemma StackOkParts(doc: StyledDoc, stack: seq<Frame>)
    requires StackOk(doc, stack) && stack != []
    ensures StackOk(doc, stack[..|stack| - 1]) && FrameOk(doc, stack[|stack| - 1])
  {
  }

  /** Passing a child uses up a step. */
  lemma PastGoesDown(doc: StyledDoc, stack: seq<Frame>, top: Frame)
    requires DocWellFormed(doc) && stack != [] && StackOk(doc, stack) && FrameOk(doc, top)
    requires var f := stack[|stack| - 1];
             f.nextChild < |f.children| && top.node == f.node && top.nextChild == f.nextChild + 1
    ensures StackOk(doc, stack[..|stack| - 1] + [top])
    ensures StackSteps(doc, stack[..|stack| - 1] + [top]) < StackSteps(doc, stack)
  {
    hide DocWellFormed, StepsFrom, StackSteps, StackOk;
    StackOkParts(doc, stack);
    var below, f := stack[..|stack| - 1], stack[|stack| - 1];
    assert stack == below + [f];
    StackStepsPush(doc, below, f);
    StackStepsPush(doc, below, top);
    StepsUnfold(doc, f.node, f.nextChild);
  }

  /** So does opening one. */
  lemma IntoGoesDown(doc: StyledDoc, stack: seq<Frame>, top: Frame, child: Frame)
    requires DocWellFormed(doc) && stack != [] && StackOk(doc, stack) && FrameOk(doc, top) && FrameOk(doc, child)
    requires var f := stack[|stack| - 1];
             && f.nextChild < |f.children| && top.node == f.node && top.nextChild == f.nextChild + 1
             && child.node == f.children[f.nextChild] && child.nextChild == 0
    ensures StackOk(doc, stack[..|stack| - 1] + [top, child])
    ensures StackSteps(doc, stack[..|stack| - 1] + [top, child]) < StackSteps(doc, stack)
  {
    hide DocWellFormed, StepsFrom, StackSteps, StackOk;
    StackOkParts(doc, stack);
    var below, f := stack[..|stack| - 1], stack[|stack| - 1];
    assert stack == below + [f];
    StackStepsPush(doc, below, f);
    StackStepsPush(doc, below, top);
    StackStepsPush(doc, below + [top], child);
    assert below + [top] + [child] == below + [top, child];
    StepsUnfold(doc, f.node, f.nextChild);
  }

  lemma {:induction false} PopGoesDown(doc: StyledDoc, stack: seq<Frame>, id: BoxId)
    requires DocWellFormed(doc) && |stack| >= 2 && StackOk(doc, stack)
    ensures StackOk(doc, HandDown(stack, id))
    ensures StackSteps(doc, HandDown(stack, id)) < StackSteps(doc, stack)
  {
    hide DocWellFormed;
    var n := |stack| - 1;
    var after := HandDown(stack, id);
    assert after[..n - 1] == stack[..n][..n - 1];
    assert after[n - 1].node == stack[..n][n - 1].node && after[n - 1].nextChild == stack[..n][n - 1].nextChild;
    assert StackSteps(doc, after) == StackSteps(doc, stack[..n]);
  }

  method FindRootElement(doc: StyledDoc) returns (r: Option<NodeId>)
    requires DocWellFormed(doc)
    ensures r == RootElement(doc, doc.kids[Forest.ROOT])
  {
    var list := doc.kids[Forest.ROOT];
    for i := 0 to |list|
      invariant RootElement(doc, list) == RootElement(doc, list[i..])
    {
      assert list[i..][1..] == list[i + 1..];
      if list[i] < |doc.kinds| && doc.kinds[list[i]].Element? {
        return Some(list[i]);
      }
    }
    return None;
  }

  /** Builds the box tree with one explicit stack. It ends on every document, however deep. */
  method Build(doc: StyledDoc) returns (tree: BoxTree)
    requires DocWellFormed(doc)
    ensures tree == GenTree(doc)
  {
    hide DocWellFormed, Classify, CloseFrame, WrapMixed;
    var root := FindRootElement(doc);
    if root.None? || root.value >= |doc.kids| || RootStyle(doc, root.value).display.Hide? {
      return EMPTY_TREE;
    }
    var rootStyle := RootStyle(doc, root.value);
    var g := Walk(doc, root.value, rootStyle, rootStyle.display.Inline?);
    tree := BoxTree(g.boxes, g.id);
  }

  method Walk(doc: StyledDoc, node: NodeId, style: LayoutStyle, isInline: bool) returns (g: Generated)
    requires DocWellFormed(doc) && node < |doc.kids|
    ensures g == GenBox(doc, node, style, isInline, [])
  {
    hide DocWellFormed, Classify, WrapMixed, Unwind, GenBox, FinalStyle, FinalKind, StackSteps;
    var boxes: seq<LayoutBox> := [];
    var stack := [Frame(node, style, isInline, doc.kids[node], 0, [])];
    WalkStarts(doc, node, style, isInline);
    while true
      invariant stack != [] && StackOk(doc, stack) && BuiltBelow(stack, |boxes|)
      invariant Unwind(doc, stack, boxes) == GenBox(doc, node, style, isInline, [])
      decreases StackSteps(doc, stack)
    {
      var n := |stack| - 1;
      var top := stack[n];
      if top.nextChild >= |top.children| {
        var finalStyle := FinalStyle(top, boxes);
        var kind := FinalKind(top, boxes);
        ghost var boxes0 := boxes;
        var ids;
        boxes, ids := WrapInlineRuns(doc, finalStyle, boxes, top.built);
        var id := |boxes|;
        boxes := boxes + [LayoutBox(Some(top.node), kind, finalStyle, ids)];
        WalkCloses(doc, stack, boxes0, Generated(boxes, id));
        if n == 0 {
          return Generated(boxes, id);
        }
        PopGoesDown(doc, stack, id);
        stack := HandDown(stack, id);
      } else {
        var c := top.children[top.nextChild];
        ChildInRange(doc, top);
        match Classify(doc, c, top.style) {
          case Skip =>
            StepPast(doc, stack, boxes, Deeper(top, []), boxes);
            PastGoesDown(doc, stack, Deeper(top, []));
            stack := stack[..n] + [Deeper(top, [])];
          case Leaf(kind, leafStyle) =>
            var leaf := LayoutBox(Some(c), kind, leafStyle, []);
            StepPast(doc, stack, boxes, Deeper(top, [|boxes|]), boxes + [leaf]);
            PastGoesDown(doc, stack, Deeper(top, [|boxes|]));
            stack := stack[..n] + [Deeper(top, [|boxes|])];
            boxes := boxes + [leaf];
          case Container(childInline, childStyle) =>
            var child := Frame(c, childStyle, childInline, doc.kids[c], 0, []);
            var moved := top.(nextChild := top.nextChild + 1);
            StepInto(doc, stack, boxes, stack[..n] + [moved, child]);
            IntoGoesDown(doc, stack, moved, child);
            stack := stack[..n] + [moved, child];
        }
      }
    }
  }

  lemma WalkStarts(doc: StyledDoc, node: NodeId, style: LayoutStyle, isInline: bool)
    requires DocWellFormed(doc) && node < |doc.kids|
    ensures var stack := [Frame(node, style, isInline, doc.kids[node], 0, [])];
            && StackOk(doc, stack) && BuiltBelow(stack, 0)
            && Unwind(doc, stack, []) == GenBox(doc, node, style, isInline, [])
  {
    hide DocWellFormed;
  }

  lemma ChildInRange(doc: StyledDoc, f: Frame)
    requires DocWellFormed(doc) && FrameOk(doc, f) && f.nextChild < |f.children|
    ensures f.children[f.nextChild] < |doc.kids|
  {
    assert f.children[f.nextChild] in doc.kids[f.node];
  }

  lemma WalkCloses(doc: StyledDoc, stack: seq<Frame>, boxes: seq<LayoutBox>, g: Generated)
    requires DocWellFormed(doc) && stack != [] && StackOk(doc, stack) && BuiltBelow(stack, |boxes|)
    requires stack[|stack| - 1].nextChild >= |stack[|stack| - 1].children|
             && g == CloseFrame(doc, stack[|stack| - 1], boxes)
    ensures Unwind(doc, stack, boxes) == if |stack| == 1 then g else Unwind(doc, HandDown(stack, g.id), g.boxes)
    ensures |stack| >= 2 ==> BuiltBelow(HandDown(stack, g.id), |g.boxes|)
  {
    hide DocWellFormed, WrapRuns;
    WrapGrows(doc, FinalStyle(stack[|stack| - 1], boxes), boxes, stack[|stack| - 1].built);
  }

  lemma {:induction false} WrapGrows(doc: StyledDoc, style: LayoutStyle, boxes: seq<LayoutBox>, ids: seq<BoxId>)
    ensures boxes <= WrapMixed(doc, style, boxes, ids).boxes
  {
    RunsGrow(doc, style, boxes, ids);
  }

  lemma {:induction false} RunsGrow(doc: StyledDoc, style: LayoutStyle, boxes: seq<LayoutBox>, ids: seq<BoxId>)
    ensures boxes <= WrapRuns(doc, style, boxes, ids).boxes
    decreases |ids|
  {
    if ids != [] {
      if BlockAt(boxes, ids[0]) {
        RunsGrow(doc, style, boxes, ids[1..]);
      } else {
        var n := InlinePrefix(boxes, ids);
        RunsGrow(doc, style, FlushRun(doc, style, boxes, ids[..n]).boxes, ids[n..]);
      }
    }
  }
}
