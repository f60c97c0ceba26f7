# A verified model of the ChromeLight rendering pipeline

The repository turns an HTML document into pixels in stages: a byte-level scan
for the encoding, a DOM arena, styled boxes, block layout, a display list, a
check of that list, and a CPU rasteriser. All of it is written without
recursion, over arenas addressed by index, with explicit stacks and caps on the
number of steps. This project models those stages in Dafny and proves what each
promises to the next.

`dafny verify dfyconfig.toml` checks everything.

## Reading order

* **Vocabulary.** `AppUnits` (the saturating 32-bit unit of 1/60 pixel),
  `Geometry`, `Styles` (the computed-style fields that are read), `Wrappers`,
  `Sequences`.
* **Box generation.** `BoxTrees` says what layout demands of a box tree;
  `BoxGeneration` is the frame-stack walk against plain recursion;
  `BoxTreeShape` proves that every generated tree meets those demands,
  `BoxTreeOrder` which nodes it holds, in which order, and which it drops, and
  `DocumentBoxes` restates it all by node kinds and computed styles.
* **Block layout.** `BoxModels` resolves one box; `Margins` is margin collapsing
  along chains with its memo; `BlockFlow` is layout as recursion; `BlockLayout`
  is the class `Frames`, the explicit-stack machine, proved equal to it;
  `FragmentOrder`, `FragmentShape`, `RelativePosition`, `RelativeText` and
  `FlowGeometry` prove what the result looks like; `UsedValues`, `LineGeometry` and
  `PageGeometry` pin every rectangle and glyph of the finished page to the document's
  styles, and `LayoutErrors` says when there is none; `SmallPages` lays out the two
  smallest pages, for the counterexamples. `Fragments`, `InlineContent`,
  `Whitespace` and `TextSpans` cover inline content up to the shaper and back.
* **DOM.** `Forest` is the document as lists of children; `Dom` is the class
  `Document`, nodes with five links each edited in place, proved to picture
  those lists after every operation; `Traverse` and `ElementLinks` read them.
* **Paint and raster.** `DisplayLists` is the list and its check; `PaintBuild`
  the builder's walk, `Builder` the whole of it; `PaintOrder` and `PaintLayout` its
  order on laid-out pages, `PaintItems` what each fragment and the canvas paint;
  `Raster` the executor as painting of points; `Culling` what links the three,
  `CullingLimits` and `TextCulling` what culling loses; `ListAcceptance` and
  `PageAcceptance` when a built list passes the check; `Blit` glyph masks and the
  glyph cache, `MaskRows` which byte of a mask each pixel gets, `GlyphMarks` what
  text leaves at one pixel.
* **Prescan.** `Prescan` is the scanner, `PrescanStability` its independence of
  later bytes and of attribute order, `PrescanGrammar` what it reads told from the
  bytes alone, `PrescanMarkup` the round trip from written markup.

Loops of the source are loops here: a method carries the invariants and is tied
by its `ensures` to a function, and the lemmas are about that function. A walk
with a visit cap is specified by a function that has the cap too; separate
lemmas prove that on well-formed input the cap is never reached and that the
result is the plain recursive one.

## Conventions of the model

* `Edge` merges the two mirrored margin walks of `block.rs` (first-child chains
  at the top, last-child chains at the bottom) into one method.
* Percentages resolve through an uninterpreted function, the shaper, the label
  table and the glyph outliner are function parameters, and so is the element
  name of a node. A shaped line carries its runs already grouped by source text,
  as `InlineContent.SourceRuns` groups them.
* Box generation reads child lists; `Traverse.ChildrenAreKids` is why these are
  what the children iterator yields.
* `Lens` lets one definition of the builder stand both for the repository's list
  (`Widened`) and for the list with nothing left out and no clip trimmed
  (`Everything`), which the repository never builds and which serves as the
  reference.
* The pixmap of `Raster` is the sequence of fills sent to it, read point by
  point in app units; the pixmap of `Blit` is an array of premultiplied pixels.

## Where the code and its promises differ

Each of these has an input and an exact condition in the project.

* **Sibling gaps** collapse two values that are already collapsed. For chains of
  mixed sign this is not the rule of CSS 2.1 section 8.3.1: `MixedSignGap` is a
  page that shows it, and `SiblingGapRule` says exactly when the two agree.
* **Over-constrained widths** keep both specified margins instead of recomputing
  the right one (CSS 2.1 section 10.3.3): `RightMarginIsNotAdjusted` shows two
  boxes, and `WidthEquation` covers every style.
* **Relative positioning** moves a fragment's three rects, not the origins of
  the glyph runs inside text fragments, against CSS 2.1 section 9.4.3:
  `WordIsLeftBehind` is a page that shows it, and `TextStaysBehind` says that text
  follows its box exactly when there is no offset or no text.
* **A built list can be refused.** The comments on the builder say that what
  survives culling passes validation and that clips always pass. Bounds and
  balance do (`BuiltFaults`), and on laid-out pages so do border widths
  (`LaidOutBordersInside`); unrepresentable edges (`EndlessPageIsRefused`) and
  nesting past the limit (`DeepNestingIsRefused`) do not. `PageAcceptedExactly`
  is the whole condition, on the fragments.
* **Culling** is said to drop only what nothing can see. It can lose a border
  (`FarBorderIsLost`), exactly when a strip escapes its box (`CullingKeepsExactly`),
  and text (`LongLineIsLost`), exactly when a glyph of a run that starts beyond the
  margin covers a pixel (`CullingKeepsText`).
* **The builder can panic**, though its documentation says it never does: clamping
  to a region whose corners cross does. `CrossedPanics` is a page, and
  `PagePanicsExactly` says that it takes a viewport that negative and a fragment
  that clips.

## Model

| member | source | states |
|---|---|---|
| BlockLayout.Layout | crates/layout/src/block.rs:110-130 | one pass ends and returns exactly the recursive layout of the box tree, or the first shaping error |
| BlockLayout.Frames.Run | crates/layout/src/block.rs:256-344 | the explicit-stack walk yields `LayRoot`; on each edge the chain entries collected over the whole run number at most the boxes |
| BlockLayout.Frames.Walk | crates/layout/src/block.rs:300-344 | from any reachable stack the loop ends with the result that stack stands for |
| BlockLayout.Frames.AdvanceChild | crates/layout/src/block.rs:469-503 | stepping onto the next child keeps the invariant and the result the stack stands for, and marks one more box placed |
| BlockLayout.Frames.FinalizeTop | crates/layout/src/block.rs:587-675 | closing the top frame keeps the result the stack stands for; on the last frame it is that result |
| BlockLayout.Frames.PlaceNext | crates/layout/src/block.rs:405-463 | a child is placed with the collapse of its full first- and last-child chains, whatever the memos already held |
| BlockLayout.PushKeepsResult | crates/layout/src/block.rs:508-548 | pushing a frame for a container child stands for that child's whole recursive layout |
| BlockLayout.LeafKeepsResult | crates/layout/src/block.rs:552-581 | finishing a leaf on the spot and moving the cursor is the same as laying it recursively |
| BlockLayout.FinishBox | crates/layout/src/block.rs:609-665 | pushes the box's fragment, then shifts its subtree exactly when it is relatively positioned |
| BlockLayout.ShiftTail | crates/layout/src/block.rs:647-654 | the shifting loop moves the three rects of every fragment from the start index on and nothing else |
| BlockLayout.LayoutLeaf | crates/layout/src/block.rs:703-788 | a leaf's lines, used height and fragment are those of the recursive definition, its shaping error kept |
| BlockLayout.WorkIsLinear | crates/layout/src/block.rs:1003-1041 | the filled memo slots, hence the chain entries pushed, never outnumber the boxes |
| Margins.CollapseMarginSet | crates/layout/src/block.rs:1371-1379 | the loop returns the largest positive plus the most negative margin, saturating |
| Margins.MemoizeSuffixCollapse | crates/layout/src/block.rs:1199-1209 | one backward pass fills every link of the chain with the collapse of the chain from that link on, and touches no other slot |
| Margins.EffectiveMarginAt | crates/layout/src/block.rs:1043-1090 | the walk down the chain returns the collapse of the box's whole chain, keeps every filled slot correct, and fills one slot per entry it pushed (the bottom walk, lines 1133-1184, is the same with the other edge) |
| Margins.ChainGrows | crates/layout/src/block.rs:1061-1083 | the next link is never memoized already, so that early stop is dead, and looking at it without a containing height changes nothing the chain reads |
| Margins.SuffixIsChain | crates/layout/src/block.rs:1043-1090 | what a finished walk collected below any link is exactly that link's own chain |
| FragmentShape.LayoutShape | crates/layout/src/block.rs:587-675 | one fragment per block-level box in post-order, the root last, every child id below its parent's, nested as the boxes are, and every fragment hanging below the root's |
| FragmentShape.BoxShape | crates/layout/src/block.rs:469-503 | each box's subtree is a fresh stretch of the arena that ends in the box's own fragment; in a packed arena everything in the stretch, lines and text included, hangs below that fragment, and nothing else does |
| RelativePosition.RelativePositioningIsLocal | crates/layout/src/block.rs:647-654 | switching one box from static to relative moves every rect at and below its fragment, lines and text included, by the resolved offset; no other rect, no node, kind, glyph run, child list or style id changes, and of the style table exactly the entries copied from the box's own style become relative: its own, and if it holds text those of its lines and of text without a node |
| RelativeText.TextStaysBehind | crates/layout/src/block.rs:1410-1414 | no glyph run moves with its box; the text follows if and only if the offset is nothing or the subtree has no runs |
| RelativeText.WordIsLeftBehind | crates/layout/src/block.rs:1410-1414 | a page of one word, ten pixels of `left`: the word's rect moves, its glyphs do not |
| RelativePosition.BoxMoved | crates/layout/src/block.rs:778-785 | the same below any box that holds the switched one, with the stretch fixed by the fragment tree |
| RelativePosition.BoxStill | crates/layout/src/block.rs:1410-1414 | a subtree that does not hold the switched box comes out the same but for an earlier stretch already moved |
| FlowGeometry.SiblingsStack | crates/layout/src/block.rs:412-454 | without saturation each sibling starts at the previous one's bottom plus the collapsed gap |
| FlowGeometry.SiblingsInOrder | crates/layout/src/block.rs:412-454 | with non-negative margins and boxes in-flow siblings never overlap and keep document order |
| FlowGeometry.GapIsLargestMargin | crates/layout/src/block.rs:412-445 | with non-negative margins the gap is the largest margin of both adjoining chains |
| FlowGeometry.SiblingGapRule | crates/layout/src/block.rs:1349-1351 | collapsing two already collapsed margins is the set rule of CSS 2.1 section 8.3.1 if and only if `GapFollowsSetRule`, a test on the two chains' largest and most negative margins |
| FlowGeometry.OneSignGap | crates/layout/src/block.rs:441-445 | margins all of one sign, either one, meet that condition, and the gap is the margin furthest from zero |
| FlowGeometry.MixedSignGap | crates/layout/src/block.rs:412-445 | a page of four boxes with margins 5, -3 and 4: its two siblings are 4 apart where the set rule asks for 2 |
| FlowGeometry.PeakIsLargest | crates/layout/src/block.rs:1371-1379 | the two running values bound every margin and are themselves zero or among them |
| FlowGeometry.ContainerEncloses | crates/layout/src/block.rs:595-608 | an auto-height container without a maximum, the root included, is at least as tall as the bottom of every child |
| FlowGeometry.OpenedFrames | crates/layout/src/block.rs:280-312 | the root's frame and every other container's meet what that asks of a frame |
| FlowGeometry.AbsorbedTopMargin | crates/layout/src/block.rs:516-523 | a first child whose margin its parent absorbed starts at the parent's own top: the margin is spent once |
| FlowGeometry.AbsorbedBottomMargin | crates/layout/src/block.rs:595-608 | a trailing margin that passes through the bottom adds nothing to the parent's height |
| FlowGeometry.WidthEquation | crates/layout/src/block.rs:851-939 | for every style, when the used values fill the containing width: with an automatic width or margin if and only if there is room, and they overflow it otherwise; without one if and only if the terms add up by themselves, since no margin is adjusted; two auto margins differ by at most one unit |
| FlowGeometry.UsedMargins | crates/layout/src/block.rs:851-939 | the used margins one by one: specified ones as specified; an automatic one takes what the other terms leave, half each where both are, nothing beside an automatic width, never less than nothing where both are |
| FlowGeometry.RightMarginIsNotAdjusted | crates/layout/src/block.rs:851-939 | two over-constrained boxes, one by its width and one by its maximum, that fill half their containing block |
| FlowGeometry.ClampMeaning | crates/layout/src/block.rs:1337-1344 | the minimum beats the maximum, and a value between them is kept |
| FlowGeometry.InsetReturnsContent | crates/layout/src/block.rs:1385-1406 | insetting the border box by border, then padding, returns exactly the resolved content box |
| FlowGeometry.BorderBoxSizing | crates/layout/src/block.rs:978-983 | with border-box sizing a specified size is the border box's, unless padding and border alone exceed it |
| FlowGeometry.LinesStack | crates/layout/src/inline.rs:213-286 | every line box is as wide as its container and starts where the lines before it end |
| PageGeometry.PageInPlace | crates/layout/src/block.rs:110-136 | the finished page, rectangle by rectangle and without saturation: the root's border box starts at its own used margins; every box's padding and content boxes lie inside its border box by its own borders and padding, its content of the used width and height; every child starts its used left margin right of its parent's content edge and one collapsed gap below the child before it, or below the content edge unless the parent took its margin over; every line and glyph is in its place; and each subtree is moved by exactly the shifts of the relative boxes above it |
| PageGeometry.BoxPlaced | crates/layout/src/block.rs:469-503 | the same for one box, laid out anywhere in the tree: its fragment lies at its placement plus its own relative shift, everything below it in place |
| PageGeometry.ContainerPlaced | crates/layout/src/block.rs:587-675 | closing a container leaves it around its children: as tall as they reach, with the trailing margin it does not hand on, held between its bounds, or of its own definite height |
| PageGeometry.LeafPlaced | crates/layout/src/block.rs:703-788 | a box with lines is around them, or empty where shaping failed |
| PageGeometry.FlowsMoved | crates/layout/src/block.rs:647-654 | moving a whole subtree exactly keeps everything in it in place, and glyph runs that much further behind |
| PageGeometry.MarginBoxFills | crates/layout/src/block.rs:851-939 | on the page, a child's margin box starts at its parent's content edge and ends at the right one if and only if there is room, or for an over-constrained child its terms add up |
| PageGeometry.SlotsStartAtMargins | crates/layout/src/block.rs:447-454 | before any shift, every child of a frame starts its used left margin, resolved from its own style, right of the frame's content edge |
| PageGeometry.RootOrigin | crates/layout/src/block.rs:264-275 | the root is resolved against the viewport and starts at its used left and top margins |
| PageGeometry.IndentedPage | crates/layout/src/block.rs:405-460 | a page of two boxes that meets all these conditions: margins, padding and a relative offset put the child at x 1720, y 60, and the root ends where it does |
| LineGeometry.LinesPlaced | crates/layout/src/inline.rs:213-286 | every line is as wide as the content box and starts where the ones before it end; every piece lies on it under its own node and style, as wide as its glyphs reach, its runs on the baseline |
| LineGeometry.ExtentIsSum | crates/layout/src/inline.rs:319-328 | without saturation that width is the distance from the first run's start to the end of the last run's advances |
| UsedValues.WidthIsHeld | crates/layout/src/block.rs:851-939 | the used width is the specified or left-over one held between `min-width` and `max-width`, all read as the border box's or the content box's by `box-sizing` |
| UsedValues.HeightIsHeld | crates/layout/src/block.rs:794-846 | the known height is definite exactly for a length or a percentage of a definite height, and held between its bounds; the same bounds hold an automatic height |
| UsedValues.PassesThroughExactly | crates/layout/src/block.rs:1056-1090 | a margin adjoins its edge child's if and only if the box shows its overflow, has no padding or border on that edge, and at the bottom no definite height and no used minimum |
| UsedValues.ChainStep | crates/layout/src/block.rs:1043-1090 | a chain is the box's own margin, by its own property, and while margins adjoin the chain of its first (or last) block child |
| FlowGeometry.OffsetDirections | crates/layout/src/block.rs:1288-1304 | left beats right and top beats bottom; alone, right and bottom pull the opposite way |
| LayoutErrors.FailsExactly | crates/layout/src/block.rs:110-136 | layout fails if and only if the inline content of some box cannot be shaped, and with the first such error in document order |
| Fragments.BuildFragments | crates/layout/src/inline.rs:201-287 | from grouped lines: line fragments stacked under one another, each after its text children, with absolute run origins; a group without a text node gets its container's style |
| Fragments.RunsExtent | crates/layout/src/inline.rs:319-328 | the fold over the last run's advances |
| InlineContent.CollectPieces | crates/layout/src/inline.rs:148-188 | the bounded walk yields `PiecesFrom` |
| InlineContent.PiecesFollowDocument | crates/layout/src/inline.rs:148-188 | for every container of a tree of unique parents these are its text and break leaves in document order, the flag threaded through; the cap never cuts them short |
| InlineContent.CollapsesAsOne | crates/layout/src/inline.rs:160-176 | text spread over any number of nodes and inline boxes collapses as the one joined string would |
| InlineContent.PiecesExactly | crates/layout/src/inline.rs:148-188 | every leaf gives one piece, under its own node and style; its text loses a space at the front exactly where a block's start, a break or another collapsed space stands before it |
| InlineContent.GroupRuns | crates/layout/src/inline.rs:301-315 | groups are non-empty, in order and of one item each; nothing is lost if and only if no item recorded past the last run repeats it |
| InlineContent.SourceRuns | crates/layout/src/inline.rs:227-232 | each group of a line gets the text node and style its runs are recorded for, none if they are recorded for no text; with one item recorded per run, as the shaper records them, no run is lost |
| Whitespace.ProcessNormal | crates/layout/src/whitespace.rs:89-122 | the loop with its two flags computes the specification `Normal` |
| Whitespace.NormalizeSegmentBreaks | crates/layout/src/whitespace.rs:126-144 | the loop with its after-CR flag computes `BreaksFrom` |
| Whitespace.Process | crates/layout/src/whitespace.rs:73-86 | dispatches on white-space; `pre` never raises the flag |
| Whitespace.CutAnywhere | crates/layout/src/whitespace.rs:89-122 | processing two pieces with the flag threaded equals processing their concatenation, text and flag |
| Whitespace.ThreadedIsWhole | crates/layout/src/whitespace.rs:62-71 | so does any number of pieces |
| Whitespace.OutputCollapsed | crates/layout/src/whitespace.rs:89-122 | the output has no other white space than single spaces, none after a raised flag, and every non-space character in order |
| Whitespace.NormalIsIdempotent | crates/layout/src/whitespace.rs:89-122 | processing twice is processing once |
| Whitespace.EmptyExactlyWhenCollapsible | crates/layout/src/whitespace.rs:89-122 | from a block start the output is empty if and only if every character is collapsible |
| Whitespace.SpaceForRun | crates/layout/src/whitespace.rs:89-122 | character by character: every other character stays, every run of collapsible ones comes to one space, or to none at the front where one stands before the text; and whether the flag is handed on, read off the source text |
| Whitespace.BreaksSpelled | crates/layout/src/whitespace.rs:126-144 | character by character: a carriage return, alone or with a line feed behind it, becomes one line feed, and all else stays |
| Whitespace.BreaksAreLineFeeds | crates/layout/src/whitespace.rs:126-144 | no carriage return survives |
| Whitespace.BreaksAreIdempotent | crates/layout/src/whitespace.rs:126-144 | normalizing twice is normalizing once |
| TextSpans.Concatenate | crates/layout/src/text.rs:470-490 | the shaping string and one span per non-empty text |
| TextSpans.SpanItem | crates/layout/src/text.rs:507-513 | the binary search answers what the linear scan would |
| TextSpans.ScanFindsOwner | crates/layout/src/text.rs:470-513 | over the spans `concatenate` records, that is the text item whose bytes cover the offset, or none |
| TextSpans.SpansAscend | crates/layout/src/text.rs:470-490 | recorded spans are non-empty and ascending, which the binary search needs |
| TextSpans.ItemBytes | crates/layout/src/text.rs:470-490 | each item's stretch of the string is its text, or the line feed of a break |
| TextSpans.SpansCoverTexts | crates/layout/src/text.rs:470-490 | a span is recorded for exactly the texts with bytes, and covers just these |
| TextSpans.TrimTrailingSpaces | crates/layout/src/text.rs:526-538 | removes exactly the longest tail of clusters that hang: blank ones and collapsible spaces |
| TextSpans.IsCollapsibleSpace | crates/layout/src/text.rs:542-555 | a space byte owned by an item whose white space collapses |
| TextSpans.HangsExactly | crates/layout/src/text.rs:542-555 | a byte of a text hangs if and only if it is a space and that text's style collapses white space; breaks and bytes past the end never do |
| Dom.Document.AppendChild | crates/dom/src/document.rs:127-131 | links stay an exact picture of the child lists; success is the matching list edit, an error changes nothing |
| Dom.Document.InsertBefore | crates/dom/src/document.rs:139-151 | likewise, before a given sibling |
| Dom.Document.Detach | crates/dom/src/document.rs:164-170 | likewise; a node without a parent, the root among them, is left as it is and that is no error |
| Dom.Document.ReparentChildren | crates/dom/src/document.rs:179-200 | likewise, all children moved in order |
| Dom.Document.Create | crates/dom/src/document.rs:111-118 | a new detached node, or no change once the arena is full |
| Dom.Document.CheckAttach | crates/dom/src/document.rs:255-287 | reports exactly the abstract error: unknown node, root, attached child, or a cycle when the full ancestor test holds |
| Dom.Document.IsAncestorOrSelf | crates/dom/src/document.rs:294-304 | the upward loop ends and finds the candidate exactly when a downward path exists |
| Dom.Document.Unlink | crates/dom/src/document.rs:310-344 | the five link rewrites cut the node out of its list and nothing else |
| Dom.Document.LinkLast | crates/dom/src/document.rs:348-370 | the rewrites append to the parent's list and change no other list |
| Dom.Document.LinkBefore | crates/dom/src/document.rs:375-397 | the rewrites insert before the sibling and change no other list |
| Dom.Document.MoveChildren | crates/dom/src/document.rs:195-199 | the detach-and-append loop empties one list onto the end of the other |
| Dom.Document.Apply | crates/dom/src/document.rs:111-200 | every operation performs exactly the abstract step |
| Dom.Document.ApplyAll | crates/dom/src/document.rs:410-506 | after any finite sequence of operations the links are consistent and spell out the abstract document |
| Forest.RunKeepsForest | crates/dom/src/document.rs:410-506 | after any finite sequence the abstract document is acyclic, every node has at most one parent, the root none |
| Forest.StepKeepsForest | crates/dom/src/document.rs:111-200 | each operation keeps that |
| Forest.ChildlessShortcut | crates/dom/src/document.rs:262-282 | for a childless node the ancestor test is equality, so skipping the walk is sound |
| Forest.AncestorStep | crates/dom/src/document.rs:294-304 | one step of the upward walk is one step along the parent relation |
| Forest.DetachUndoesAppend | crates/dom/src/document.rs:127-131 | detaching what was appended restores the document |
| Forest.DetachUndoesInsert | crates/dom/src/document.rs:139-170 | detaching what was inserted restores the document |
| Forest.InsertedInFront | crates/dom/src/document.rs:375-397 | an inserted node stands directly in front of its sibling, and the list without it is the old one; no other list changes |
| Forest.AppendedLast | crates/dom/src/document.rs:348-370 | an appended child comes last, behind the children that were there; no other list changes |
| Forest.DetachedGone | crates/dom/src/document.rs:164-170 | a detached node is in no list, its siblings keep their order, and no other list changes |
| Forest.ReparentedInOrder | crates/dom/src/document.rs:179-200 | the moved children follow the ones already there, in order, and leave none behind |
| Forest.CreatedDetached | crates/dom/src/document.rs:111-118 | a created node is new, childless and in no list |
| Forest.AttachedExactly | crates/dom/src/document.rs:255-287 | an append succeeds if and only if both nodes exist, the child is not the document, does not lie above the parent and has no parent; a refused one changes nothing |
| Forest.AttachErrors | crates/dom/src/document.rs:255-287 | which reason a refused append is given when several apply |
| Forest.InsertErrors | crates/dom/src/document.rs:139-151 | an insertion is refused for a missing node, then for a sibling without a parent, then as an append there would be |
| Forest.ReparentErrors | crates/dom/src/document.rs:179-200 | reparenting is refused for a missing node or a target at or below the source, and onto itself does nothing |
| Traverse.DescendantsArePreorder | crates/dom/src/traverse.rs:118-126 | on a well-formed document: the recursive pre-order of the subtree, each node once, exactly the proper descendants; the cap never cuts it short |
| Traverse.ChildrenAreKids | crates/dom/src/traverse.rs:103-110 | on a well-formed document: exactly the child list |
| Traverse.AncestorsAreParents | crates/dom/src/traverse.rs:134-141 | on a well-formed document: the whole parent chain to the root |
| Traverse.Children.Next | crates/dom/src/traverse.rs:25-37 | yields the head of what is left on any links, uses up one of `remaining` |
| Traverse.Descendants.Next | crates/dom/src/traverse.rs:51-75 | the same for the stack walk |
| Traverse.Ancestors.Next | crates/dom/src/traverse.rs:83-95 | the same for the parent chain |
| Traverse.Children.Collect | crates/dom/src/traverse.rs:25-37 | draining ends on any links, after at most `remaining` nodes |
| ElementLinks.NodeArena.Link | crates/style/src/handle.rs:172-209 | on any links at all the passes end with the columns `LinksThrough`; where the links picture child lists every link is as specified; a second call changes nothing |
| ElementLinks.LinksAreCorrect | crates/style/src/handle.rs:180-208 | on a well-formed document the passes give every node the last element before it, the first after it, and its first element child |
| ElementLinks.NodeArena.LinkForward | crates/style/src/handle.rs:190-196 | the forward pass over any list writes `Forward`: the last element before each entry, a repeated child keeping its last |
| ElementLinks.NodeArena.LinkBackward | crates/style/src/handle.rs:197-206 | the backward pass writes `Backward`: the first element after each entry, and ends with the first of all |
| ElementLinks.LinksAreWalks | crates/style/src/handle.rs:411-434 | for every node the precomputed links are what walking the sibling links to the nearest element would find |
| ElementLinks.LinksAreNearest | crates/style/src/handle.rs:172-208 | every child is linked to the nearest elements among its siblings, every parent to its first element child, a node without a parent to none; by position in the lists and node kinds alone |
| BoxGeneration.Build | crates/layout/src/box_tree.rs:213-333 | generation ends on every acyclic document and yields the recursive tree `GenTree` |
| BoxGeneration.Walk | crates/layout/src/box_tree.rs:233-333 | the frame-stack loop yields the recursive generation of one subtree |
| BoxGeneration.WrapInlineRuns | crates/layout/src/box_tree.rs:505-548 | the held-back-run loop wraps exactly the maximal inline runs between blocks, dropping blank ones |
| BoxGeneration.FindRootElement | crates/layout/src/box_tree.rs:433-437 | the first element child of the document node |
| BoxTreeShape.GeneratedTreeIsSound | crates/layout/src/box_tree.rs:20-84 | every generated tree is what layout requires: ids below parents', unique parents, all-block or all-inline children, no block in an inline box, `display` agreeing with the kind |
| BoxTreeShape.CloseSound | crates/layout/src/box_tree.rs:475-493 | blockifying and wrapping make the finished box obey the kind rules whatever its children were |
| BoxTreeShape.WrapRunsSound | crates/layout/src/box_tree.rs:505-564 | wrapping leaves only block-level children and attaches every box at most once |
| BoxTreeOrder.BoxesFollowDocument | crates/layout/src/box_tree.rs:213-333 | every displayed node has exactly one box, children before containers in the arena; read in tree order the nodes are, each once and in document order, exactly those that are not dropped |
| DocumentBoxes.BoxedExactly | crates/layout/src/box_tree.rs:213-333 | by node kinds and computed styles alone: without a document element that is shown there is only the empty tree; with one, along any path from it a node has a box if and only if it and every node in between is a text or an element whose computed style does not hide it, and none in between is a text or a line break; nothing else has one |
| DocumentBoxes.DisplayedAlong | crates/layout/src/box_tree.rs:382-418 | that rule for the nodes displayed below any node |
| DocumentBoxes.BoxesMatchDocument | crates/layout/src/box_tree.rs:382-433 | every box is what its node asks for: text for a text, inheriting from the element it lies in; a break for `br`; otherwise a block exactly by its own `display` or a block inside it, else inline, with its computed style; any other box is an anonymous block that inherits from its container, never two side by side, and only beside a block of a node |
| DocumentBoxes.RootIsFirstElement | crates/layout/src/box_tree.rs:433-437 | the root is the first element among the document's children, and there is none exactly when none is an element |
| BoxTreeShape.RoleIgnoresStyle | crates/layout/src/box_tree.rs:382-418 | generation classifies every child as node kinds and computed styles say, whatever container it is in |
| BoxTreeOrder.MissingExactly | crates/layout/src/box_tree.rs:553-592 | a displayed node is missing from the tree if and only if it is dropped among its parent's displayed children: it lies in a maximal inline run of nothing but blank `normal` text, with a block-level box among its siblings |
| BoxTreeOrder.WrapRunsOrder | crates/layout/src/box_tree.rs:505-548 | wrapping a mixed child list drops exactly those runs and keeps the order of everything else |
| BoxTreeOrder.ShownOnce | crates/layout/src/box_tree.rs:213-333 | no displayed node comes up twice, in either order |
| BoxTreeOrder.BoxTreeOrder | crates/layout/src/box_tree.rs:233-333 | below any node the tree lists exactly the kept nodes in document order, anonymous boxes adding none, and the box is block-level exactly when its element is or a child of it becomes so |
| BoxTreeShape.BoxNodes | crates/layout/src/box_tree.rs:440-455 | the arena grows by one box per displayed node of the subtree, children first, and by anonymous boxes |
| BoxTreeOrder.RunDroppedExactlyWhenEmpty | crates/layout/src/box_tree.rs:575-590 | a text-only `normal` run is dropped if and only if its text, threaded from a block start, comes out empty |
| DisplayLists.Validate | crates/paint/src/validate.rs:318-369 | accepts exactly `Accepted` lists; otherwise the bounds, the length, the first faulty item or the open clips, in that order |
| DisplayLists.CheckRun | crates/paint/src/validate.rs:289-308 | glyph count, then origin, then the first glyph whose offset overflows |
| DisplayLists.FaultExactly | crates/paint/src/validate.rs:277-366 | which fault an item has: a broken rect before one out of bounds, both before border widths and clip depth, a pop with nothing open; a run is counted, then placed, then its glyphs are looked at |
| Builder.Build | crates/paint/src/build.rs:140-158 | the list is `BuiltItems`, for every tree, cyclic and dangling ones included, or a panic; on post-ordered trees, as layout makes them, it panics if and only if the viewport is more than twice the margin below zero in some direction and some fragment at or below the root clips |
| Builder.PanicsExactly | crates/paint/src/build.rs:229-241 | that condition, proved over the paint order of the tree |
| Builder.PagePanicsExactly | crates/paint/src/build.rs:140-158 | for a laid-out page it reads: some fragment of the page clips |
| PaintBuild.Walk | crates/paint/src/build.rs:272-322 | ends on every tree and emits `WalkFrom`, or panics at the first clip it cannot trim |
| PaintBuild.EnterFragment | crates/paint/src/build.rs:298-317 | one fragment's items and clip, and its children and close step pushed in order |
| PaintBuild.PaintFragment | crates/paint/src/build.rs:344-382 | background, then border, or the visible non-empty runs |
| PaintBuild.DrainPending | crates/paint/src/build.rs:330-336 | one pop per pending close, from the top down |
| PaintBuild.FindElementFragment | crates/paint/src/build.rs:460-491 | the bounded search ends on every tree with `FindFrom` |
| PaintBuild.UprightExactly | crates/paint/src/build.rs:229-241 | trimming is defined, its bounds in order, if and only if the viewport is not smaller than minus twice the margin |
| Builder.CrossedPanics | crates/paint/src/build.rs:229-241 | a laid-out page of one clipping block in a viewport of width -10000 pixels panics, under any names |
| PaintOrder.CanvasTakesOverBackground | crates/paint/src/build.rs:421-446 | `html` wins over `body`, and the fragment that gave the canvas its colour fills no box of its own |
| PaintItems.CanvasExactly | crates/paint/src/build.rs:421-446 | on a post-ordered tree the list is the viewport filled with the background of the first `html` in document order if that is not transparent, else of the first `body` if that is not, and otherwise with nothing, then the tree; the fragment that gave it fills no box of its own and every other one paints as without a canvas |
| PaintItems.PageCanvasExactly | crates/paint/src/build.rs:140-158 | the same for every laid-out page |
| PaintItems.BlockPaints | crates/paint/src/build.rs:344-382 | a visible block fills its border box with its background unless that went to the canvas, then draws its border around it, each side in its own width and colour, then opens a clip of its padding box if it hides its overflow; an invisible one only opens its clip |
| PaintItems.TextPaints | crates/paint/src/build.rs:371-381 | a text fragment paints exactly its runs with glyphs that start in sight, in order |
| PaintItems.BorderSides | crates/paint/src/build.rs:386-398 | every painted side has its own width, nothing where it is not solid or not positive, and no border is painted if no side shows |
| PaintItems.IntersectsExactly | crates/paint/src/validate.rs:223-229 | a rect with extent is let through if and only if it shares a point with the region |
| PaintItems.RegionReach | crates/paint/src/validate.rs:245-253 | the widened region is everything at most 4096 pixels from the bounds |
| PaintOrder.FindIsFirstInOrder | crates/paint/src/build.rs:460-491 | on a laid-out arena the search finds the first fragment of that element in document order |
| PaintOrder.WalkIsPaintOrder | crates/paint/src/build.rs:272-322 | on a laid-out arena the cap never cuts the walk short: it is the recursive paint order |
| FragmentOrder.LayoutPacked | crates/layout/src/block.rs:587-675 | layout's arenas have that form and more: every subtree is one stretch without a gap, siblings' stretches follow in order, and the root's is the whole arena |
| FragmentOrder.BoxGrows | crates/layout/src/block.rs:469-503 | laying one box adds exactly one such stretch, ending in the box's own fragment |
| FragmentOrder.SubtreeIsStretch | crates/layout/src/block.rs:647-654 | in such an arena the fragments reachable from one are exactly those from its lowest id to its own, which is why shifting a tail moves a subtree |
| PaintLayout.LaidOutPagesPaintInOrder | crates/paint/src/build.rs:140-158 | from box tree to list: the canvas colour, then the recursive paint order of the page |
| Culling.WalkCloses | crates/paint/src/build.rs:283-296 | wherever the walk stands and however it ends, what it still emits closes exactly the clips pending on its stack |
| Culling.ItemsClose | crates/paint/src/build.rs:324-336 | a finished list never pops without a push and leaves no clip open |
| Culling.ClosesMeansBalanced | crates/paint/src/validate.rs:344-366 | the recursive reading of balance implies the counting one validation uses |
| Culling.BuiltFaults | crates/paint/src/validate.rs:277-285 | no item of a built list is ever out of bounds or an unmatched pop; the only faults left are unusable numbers and too deep nesting |
| Culling.TrimmedInRegion | crates/paint/src/build.rs:229-241 | a trimmed clip always passes the rect check |
| Culling.TrimmedClipSame | crates/paint/src/build.rs:229-241 | and admits the same points of the region as before |
| Culling.CullWalk | crates/paint/src/build.rs:272-322 | the culling walk and the plain one run in lockstep: one list is the other culled item by item |
| Culling.CulledMarksSame | crates/paint/src/build.rs:205-221 | inside the region a culled list leaves the same marks, minus the runs that start outside |
| CullingLimits.CullingKeepsExactly | crates/paint/src/build.rs:23-76 | at a point of the viewport executing the built list paints the same colours in the same order as the list without culling and trimming if and only if no culled block under clips that hold the point has a border whose strip escapes to it |
| CullingLimits.CullingKeepsText | crates/paint/src/build.rs:55-66 | at a pixel the built list blends the same glyphs in the same order as that list if and only if no run that starts beyond the margin, under clips that hold the pixel, has a visible glyph there |
| CullingLimits.ListLoses | crates/paint/src/build.rs:23-76 | the first of the two on any list at all, of cyclic trees too: a colour is lost exactly when a border is, and otherwise only runs that start outside go |
| CullingLimits.ListLosesText | crates/paint/src/build.rs:55-66 | the second on any list at all |
| CullingLimits.EscapesExactly | crates/gfx/src/cpu/shapes.rs:90-169 | a border marks a point outside its rect exactly where the bottom or right strip is measured back from a saturated edge, which takes a rect validation would refuse |
| CullingLimits.FarBorderIsLost | crates/paint/src/build.rs:344-382 | a laid-out page of one box whose border would paint the viewport's corner and is culled |
| TextCulling.DroppedUnseenExactly | crates/paint/src/build.rs:54-62 | leaving one run out changes no canvas if and only if none of its glyphs covers a pixel wholly inside its clip; its origin, which culling goes by, plays no part |
| TextCulling.TextIsDabs | crates/gfx/src/cpu/text.rs:185-250 | the text of a list leaves in every pixel of any canvas exactly its blends there, in order, so lists with the same blends paint the same text |
| GlyphMarks.RunIsDabs | crates/gfx/src/cpu/text.rs:185-250 | painting a run blends its visible glyphs into every pixel wholly inside the clip, in order, and changes no other pixel |
| GlyphMarks.DrawnTextIsMeant | crates/gfx/src/cpu/mod.rs:110-137 | drawing text under one rect per level leaves at every pixel the blends the nested clips mean |
| TextCulling.LongLineIsLost | crates/paint/src/build.rs:54-62 | a laid-out page of one unbroken line of 501 letters that starts beyond the margin and ends on the canvas: the built list is empty and a pixel is missing |
| Culling.BorderOverBackground | crates/paint/src/build.rs:344-382 | outside its border box a box paints nothing, inside its borders its background alone, on them a border colour over it |
| ListAcceptance.AcceptedExactly | crates/paint/src/validate.rs:318-369 | the list built for a post-ordered tree is accepted if and only if the viewport is valid, the items its fragments make are not too many, their clips nest no deeper than the limit, and what is seen of them is usable: border boxes with representable edges that hold their borders, runs short enough with representable glyph positions |
| ListAcceptance.TreePasses | crates/paint/src/validate.rs:344-366 | the same for one subtree under any number of open clips |
| PageAcceptance.PageAcceptedExactly | crates/paint/src/build.rs:42-47 | for a laid-out page with non-negative minima, padding and borders the border condition always holds and drops out |
| PageAcceptance.LaidOutBordersInside | crates/paint/src/validate.rs:266-274 | no block of such a page is smaller than its border, saturating sums included |
| PageAcceptance.EndlessPageIsRefused | crates/paint/src/validate.rs:266-274 | a laid-out page whose one box, seen and painted, has a bottom edge past the last app unit is refused, under any names |
| PageAcceptance.DeepNestingIsRefused | crates/paint/src/validate.rs:344-353 | so is every laid-out page of more nested `overflow: hidden` blocks than the limit, in any viewport |
| Raster.Rasterize | crates/gfx/src/cpu/mod.rs:92-140 | checks the size, validates, then executes; the result is `Drawn`, or the error of the first check that failed |
| Raster.AcceptedClips | crates/gfx/src/cpu/mod.rs:108-137 | for an accepted list, before every item: the stack is one deeper than the open clips, a pop always finds a clip above the canvas, and a point is in the current clip if and only if it is on the canvas and in every open clip |
| Raster.StackMirrorsOpen | crates/gfx/src/cpu/mod.rs:122-135 | every level of the stack is the intersection of the clips open at that level |
| Raster.DrawnIsMeant | crates/gfx/src/cpu/mod.rs:110-137 | drawing with one rect per level leaves at every point what the nested clips mean |
| Raster.IntersectIsIntersection | crates/gfx/src/cpu/shapes.rs:27-42 | a point is in the result if and only if it is in both rects, saturating edges included |
| Raster.FillUnderClip | crates/gfx/src/cpu/shapes.rs:67-86 | a fill marks a point exactly when rect and clip hold it and the colour is not transparent |
| Raster.FillBorder | crates/gfx/src/cpu/shapes.rs:102-169 | up to four strips, each filled under the clip |
| Raster.StripsFrame | crates/gfx/src/cpu/shapes.rs:90-101 | the strips cover exactly the rect outside its inner edges |
| Raster.StripSpans | crates/gfx/src/cpu/shapes.rs:102-169 | where each strip lies, in its own side's colour |
| Raster.StripsApart | crates/gfx/src/cpu/shapes.rs:127-169 | and overlap nowhere unless opposite widths collide |
| Blit.Mul255IsNearest | crates/gfx/src/cpu/text.rs:124-134 | the two shifts give the integer nearest to a * b / 255 |
| Blit.Mul255Ends | crates/gfx/src/cpu/text.rs:120-123 | exact at 0 and 255 |
| Blit.SourceOverKeeps | crates/gfx/src/cpu/text.rs:143-157 | a premultiplied pixel stays premultiplied, no channel saturates, and only a zero effective alpha writes nothing |
| Blit.Blit | crates/gfx/src/cpu/text.rs:260-330 | the loops over the visible rows and columns leave exactly what the stamp says of every cell of the canvas |
| Blit.BlitRow | crates/gfx/src/cpu/text.rs:302-329 | one mask row changes exactly the cells under its visible columns |
| Blit.StampedKeeps | crates/gfx/src/cpu/text.rs:252-259 | only cells in the clip and under non-zero coverage change |
| MaskRows.PictureIsBlended | crates/gfx/src/cpu/text.rs:260-330 | for a mask given as rows of bytes: row r, column c is blended into the pixel at pen x + left + c, pen y - top + r wherever that is on the canvas and in the clip, and no other pixel changes; data that stops early changes nothing past its end |
| MaskRows.CoverageIsPicture | crates/gfx/src/cpu/glyph_cache.rs:55-64 | the coverage of a cell is the picture's byte there, the top row first |
| Blit.SnapKeepsWholePixels | crates/gfx/src/cpu/text.rs:82-91 | the snapped clip holds exactly the pixels wholly inside the app-unit clip |
| Blit.RoundIsNearest | crates/gfx/src/cpu/text.rs:112-119 | the nearest pixel, halves up, stable under whole-pixel moves |
| Blit.PaintRun | crates/gfx/src/cpu/text.rs:185-250 | the pixels after a run do not depend on the cache; an unknown face is an error even for a run that paints nothing, an unreadable one only for a run that paints, and neither changes a pixel; hits and rasterisations are those of asking for its masks in turn, and add up to the glyphs |
| Blit.FetchMask | crates/gfx/src/cpu/text.rs:224-244 | the mask is what rasterising the key gives, cached or not; a hit changes nothing, a miss is kept while the budget lasts, and the byte counter stays exactly the sum of the masks kept |
| Blit.GlyphCache.Insert | crates/gfx/src/cpu/glyph_cache.rs:97-105 | keeps the mask only within the byte budget, and hands it back either way; the counter grows by at least the bytes kept, by exactly those for a new key, so the masks kept never exceed the budget |
| Blit.RunKeeps | crates/gfx/src/cpu/text.rs:185-250 | through a whole run pixels stay premultiplied, and only pixels wholly inside the clip change |
| MaskRows.RunIsPictures | crates/gfx/src/cpu/text.rs:185-250 | every pixel wholly inside the clip is blended, glyph by glyph, with the byte of the glyph's picture that lies over it, the pen at the rounded sum of run origin and glyph offset; no other pixel changes |
| Blit.RenderedOnce | crates/gfx/src/cpu/glyph_cache.rs:78-105 | while the budget lasts every distinct mask is rasterised once, as often as there are new entries, and is there afterwards |
| Prescan.PrescanMetaCharset | crates/html/src/prescan.rs:460-484 | the main loop ends and returns `Prescanned` |
| Prescan.Step | crates/html/src/prescan.rs:465-482 | a step never continues before its own position, so the position strictly increases |
| Prescan.ScanMetaAttributes | crates/html/src/prescan.rs:221-273 | the attribute loop with its running variables decides by the order-free rule on first occurrences |
| Prescan.GetAttribute | crates/html/src/prescan.rs:122-153 | the loop computes `AttributeAt` |
| Prescan.AttributeProgress | crates/html/src/prescan.rs:122-153 | every attribute found has a name and consumes input; a tag ends at a `>` |
| Prescan.ReadAttributeValue | crates/html/src/prescan.rs:169-205 | quoted, unquoted or empty value, or end of window |
| Prescan.AfterNameWhitespace | crates/html/src/prescan.rs:156-166 | an `=` may follow the white space after a name |
| PrescanGrammar.AttributeExactly | crates/html/src/prescan.rs:122-210 | an attribute is found exactly where the bytes spell one: its name the lowercased bytes up to its end, its value the lowercased bytes between the opening quote and the first matching one, or up to white space or `>`, or nothing |
| PrescanGrammar.TagEndExactly | crates/html/src/prescan.rs:122-131 | a tag's end is found exactly where only white space and slashes come before a `>` |
| Prescan.SkipGenericTag | crates/html/src/prescan.rs:368-385 | the tag's `>` after its name and attributes |
| Prescan.SkipComment | crates/html/src/prescan.rs:417-433 | the first `>` with two dashes before it |
| Prescan.SkipToGreater | crates/html/src/prescan.rs:440-449 | the next `>` |
| Prescan.ExtractEncoding | crates/html/src/prescan.rs:293-346 | the label after the first usable `charset`, looked up |
| Prescan.FindValueStart | crates/html/src/prescan.rs:296-307 | the retry loop |
| Prescan.LeftmostDeclaration | crates/html/src/prescan.rs:296-307 | jumping past a failed `charset` loses nothing: the search stops at the leftmost `charset` followed by `=`, and answers none exactly when there is none |
| Prescan.ReadLabel | crates/html/src/prescan.rs:309-345 | a quoted label must be closed; an unquoted one ends at white space or `;` |
| Prescan.Normalized | crates/html/src/prescan.rs:278-286 | never UTF-16 nor x-user-defined |
| PrescanStability.PrescanStable | crates/html/src/prescan.rs:460-484 | an encoding decided on some bytes is decided the same on any longer document that starts with them |
| PrescanMarkup.MarkupIsRead | crates/html/src/prescan.rs:460-484 | round trip: text, comments, declarations and tags with any attributes, written out and put in front of anything, as far as the window reaches: the scan answers the first `meta` tag that declares an encoding, and without one goes on exactly behind them |
| PrescanMarkup.CharsetRoundTrip | crates/html/src/prescan.rs:460-484 | for every label without its quote that fits the window, `<meta charset=`, quote, label, quote, `>` and anything decides what the label table gives for the lowercased label, UTF-8 for UTF-16 and windows-1252 for x-user-defined; with an unknown label the scan goes on behind the tag |
| PrescanMarkup.AttributesReadBack | crates/html/src/prescan.rs:122-210 | attributes written out quoted, bare or without a value are read back as what they mean, up to the tag's end |
| PrescanMarkup.TagRuleExactly | crates/html/src/prescan.rs:221-273 | by the first attribute of each name: a `charset` decides alone, known or not; else a `content` does, only beside an `http-equiv` of `content-type`; else nothing |
| PrescanMarkup.ExtractedExactly | crates/html/src/prescan.rs:293-346 | the label behind the leftmost `charset` with an `=`, between quotes that close or up to white space or `;`, looked up; nothing otherwise |
| PrescanStability.StepStable | crates/html/src/prescan.rs:465-482 | a step that did not run out of window takes the same branch and answers the same in any longer window |
| PrescanStability.OnlyTheWindowCounts | crates/html/src/prescan.rs:24-28 | bytes past the first 1024 change nothing |
| PrescanStability.OrderIsIrrelevant | crates/html/src/prescan.rs:221-273 | reordering a tag's distinctly named attributes does not change what it decides |
| PrescanStability.RepeatsAreIrrelevant | crates/html/src/prescan.rs:238-243 | nor does repeating a name later in the tag |
| PrescanStability.ScanNormal | crates/html/src/prescan.rs:278-286 | no scan ever answers UTF-16 or x-user-defined |

## Left out

- Blit.Blit: a pixmap without columns is not modelled; the rasteriser refuses it before allocating.
- CullingLimits.CullingKeepsText: boxes at points and text at pixels are compared apart, since the snapping of fills to pixels is not modelled.
- BlockLayout.Layout: box trees with mixed children are not covered; box generation never makes one, and the walk's look at the first child only relies on that.
- FlowGeometry.SiblingsStack: stated without saturation, as are the other geometric results; saturating sums are modelled but give no useful geometry.
- PageGeometry.PageInPlace: stated without saturating sums or shifts; where a sum saturates the page is not the geometry the styles ask for.
- PrescanMarkup.MarkupIsRead: written tag names hold no slash and written attribute names no `=`; what other byte sequences read as is `PrescanGrammar.AttributeExactly`.
- RelativePosition.RelativePositioningIsLocal: stated without saturating shifts, and for boxes reached through block-level boxes, the only ones layout positions.
- Raster.Rasterize: fills are rectangles of points in app units; snapping to device pixels is tiny-skia's and not modelled.
- TextSpans.SpanItem: the standard library's partition point is written out as a binary search.
- Style resolution (stylo, selectors, stylesheets, the style adapter): computed styles are arbitrary records.
- Shaping, fonts, line breaking and `build_runs`: a line is an arbitrary height, baseline and list of runs; pen positions there are floating point.
- Floating-point conversions between pixels and app units, and the rounding of percentages.
- The saturation of box, fragment and style ids at 32 bits; node ids do saturate, as `Dom.Document.Create` says.
- The HTML tree builder's callbacks, `encoding_rs` beyond its label lookup, and the byte-order-mark sniff ahead of the prescan.
- Process spawning, sandboxing, IPC framing and messages, the network and file loading, the command line: input and output, with few branches of their own.
- Dumps, serializers and the PNG and reference-image tooling: these repeat the walks verified here.
- Time and memory, except for the counted bounds on margin work and on the glyph cache.
