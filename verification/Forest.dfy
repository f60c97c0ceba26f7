/**
 * The abstract document: for every node the ordered list of its children. Tree
 * edits are edits of these lists; ancestry is the existence of a downward path.
 */
module Forest {
  import opened Wrappers

  type NodeId = nat
  type Kids = seq<seq<NodeId>>

  datatype DomError =
    | NoSuchNode(id: NodeId)
    | Cycle(ancestor: NodeId, descendant: NodeId)
    | NotDetached(id: NodeId)
    | IsDocument

  datatype Op =
    | Create
    | AppendChild(parent: NodeId, child: NodeId)
    | InsertBefore(sibling: NodeId, added: NodeId)
    | Detach(id: NodeId)
    | ReparentChildren(from: NodeId, to: NodeId)

  /** The arena never holds more nodes than this; the value itself names no node. */
  const NODE_CAP: nat := 0xffff_ffff

  const ROOT: NodeId := 0

  predicate Distinct(s: seq<NodeId>) {
    forall i, j :: 0 <= i < j < |s| ==> s[i] != s[j]
  }

  /** Every node is listed at most once, under at most one parent; the root under none. */
  ghost predicate Lists(kids: Kids) {
    && (forall p, c :: 0 <= p < |kids| && c in kids[p] ==> 0 < c < |kids|)
    && (forall p :: 0 <= p < |kids| ==> Distinct(kids[p]))
    && (forall p, q, c :: 0 <= p < |kids| && 0 <= q < |kids| && c in kids[p] && c in kids[q] ==> p == q)
  }

  /** A numbering that grows from every parent to its children: there is no cycle. */
  ghost predicate Ranked(kids: Kids, rank: seq<nat>) {
    && |rank| == |kids|
    && forall p, c :: 0 <= p < |kids| && c in kids[p] && c < |kids| ==> rank[p] < rank[c]
  }

  ghost predicate Acyclic(kids: Kids) {
    exists rank :: Ranked(kids, rank)
  }

  ghost predicate WellFormed(kids: Kids) {
    |kids| > 0 && Lists(kids) && Acyclic(kids)
  }

  ghost function ParentOf(kids: Kids, c: NodeId): (r: Option<NodeId>)
    ensures r.Some? ==> r.value < |kids| && c in kids[r.value]
    ensures r.None? ==> forall p :: 0 <= p < |kids| ==> c !in kids[p]
  {
    if p :| 0 <= p < |kids| && c in kids[p] then Some(p) else None
  }

  ghost predicate IsPath(kids: Kids, path: seq<NodeId>) {
    && |path| > 0
    && (forall i :: 0 <= i < |path| ==> path[i] < |kids|)
    && (forall i :: 0 < i < |path| ==> path[i] in kids[path[i - 1]])
  }

  /** `a` is `n` or lies above it: some path leads down from `a` to `n`. */
  ghost predicate AncestorOrSelf(kids: Kids, a: NodeId, n: NodeId) {
    exists path :: IsPath(kids, path) && path[0] == a && path[|path| - 1] == n
  }

  // ----- the edits -----

  function IndexOf(s: seq<NodeId>, c: NodeId): (r: nat)
    requires c in s
    ensures r < |s| && s[r] == c
  {
    if s[0] == c then 0 else 1 + IndexOf(s[1..], c)
  }

  function Without(s: seq<NodeId>, c: NodeId): seq<NodeId>
    requires c in s
  {
    s[..IndexOf(s, c)] + s[IndexOf(s, c) + 1..]
  }

  function Before(s: seq<NodeId>, sibling: NodeId, added: NodeId): seq<NodeId>
    requires sibling in s
  {
    s[..IndexOf(s, sibling)] + [added] + s[IndexOf(s, sibling)..]
  }

  ghost function Unlinked(kids: Kids, c: NodeId): Kids {
    match ParentOf(kids, c)
    case None => kids
    case Some(p) => kids[p := Without(kids[p], c)]
  }

  /** Why `child` may not be attached under `parent`, if it may not; checked in this order. */
  ghost function AttachError(kids: Kids, parent: NodeId, child: NodeId): Option<DomError> {
    if parent >= |kids| then Some(NoSuchNode(parent))
    else if child >= |kids| then Some(NoSuchNode(child))
    else if child == ROOT then Some(IsDocument)
    else if AncestorOrSelf(kids, child, parent) then Some(Cycle(child, parent))
    else if ParentOf(kids, child).Some? then Some(NotDetached(child))
    else None
  }

  datatype Outcome = Outcome(kids: Kids, result: Result<NodeId, DomError>)

  /** One operation: the exact list edit on success, no change at all on an error. */
  ghost function Step(kids: Kids, op: Op): Outcome
    requires |kids| > 0
  {
    match op
    case Create =>
      if |kids| >= NODE_CAP then Outcome(kids, Ok(NODE_CAP)) else Outcome(kids + [[]], Ok(|kids|))
    case AppendChild(parent, child) =>
      var e := AttachError(kids, parent, child);
      if e.Some? then Outcome(kids, Err(e.value))
      else Outcome(kids[parent := kids[parent] + [child]], Ok(child))
    case InsertBefore(sibling, added) =>
      if added >= |kids| then Outcome(kids, Err(NoSuchNode(added)))
      else if sibling >= |kids| then Outcome(kids, Err(NoSuchNode(sibling)))
      else
        var parent := ParentOf(kids, sibling);
        if parent.None? then Outcome(kids, Err(IsDocument))
        else
          var e := AttachError(kids, parent.value, added);
          if e.Some? then Outcome(kids, Err(e.value))
          else Outcome(kids[parent.value := Before(kids[parent.value], sibling, added)], Ok(added))
    case Detach(id) =>
      if id >= |kids| then Outcome(kids, Err(NoSuchNode(id))) else Outcome(Unlinked(kids, id), Ok(id))
    case ReparentChildren(from, to) =>
      if from >= |kids| then Outcome(kids, Err(NoSuchNode(from)))
      else if to >= |kids| then Outcome(kids, Err(NoSuchNode(to)))
      else if from == to then Outcome(kids, Ok(to))
      else if AncestorOrSelf(kids, from, to) then Outcome(kids, Err(Cycle(from, to)))
      else Outcome(kids[to := kids[to] + kids[from]][from := []], Ok(to))
  }

  /** The document after a whole sequence of operations. */
  ghost function After(kids: Kids, ops: seq<Op>): Kids
    requires |kids| > 0
    decreases |ops|
  {
    if ops == [] then kids else After(Step(kids, ops[0]).kids, ops[1..])
  }

  // ----- ancestry -----

  lemma ParentIs(kids: Kids, p: NodeId, c: NodeId)
    requires Lists(kids) && p < |kids| && c in kids[p]
    ensures ParentOf(kids, c) == Some(p)
  {
  }

  lemma SelfPath(kids: Kids, n: NodeId)
    requires n < |kids|
    ensures AncestorOrSelf(kids, n, n)
  {
    assert IsPath(kids, [n]);
  }

  lemma AncestorExtends(kids: Kids, a: NodeId, p: NodeId, c: NodeId)
    requires AncestorOrSelf(kids, a, p) && p < |kids| && c in kids[p] && c < |kids|
    ensures AncestorOrSelf(kids, a, c)
  {
    var path :| IsPath(kids, path) && path[0] == a && path[|path| - 1] == p;
    assert IsPath(kids, path + [c]);
    assert (path + [c])[|path|] == c;
  }

  /** One step up: another node's ancestors are exactly its parent's ancestors and selves. */
  lemma AncestorStep(kids: Kids, a: NodeId, n: NodeId)
    requires Lists(kids) && n < |kids| && a != n
    ensures AncestorOrSelf(kids, a, n)
            <==> ParentOf(kids, n).Some? && AncestorOrSelf(kids, a, ParentOf(kids, n).value)
  {
    if AncestorOrSelf(kids, a, n) {
      var path :| IsPath(kids, path) && path[0] == a && path[|path| - 1] == n;
      var up := path[..|path| - 1];
      var p := path[|path| - 2];
      ParentIs(kids, p, n);
      assert IsPath(kids, up) && up[0] == a && up[|up| - 1] == p;
    }
    if ParentOf(kids, n).Some? && AncestorOrSelf(kids, a, ParentOf(kids, n).value) {
      AncestorExtends(kids, a, ParentOf(kids, n).value, n);
    }
  }

  lemma LeavesThroughChildren(kids: Kids, path: seq<NodeId>)
    requires IsPath(kids, path)
    ensures kids[path[0]] == [] ==> |path| == 1
  {
    assert |path| > 1 ==> path[1] in kids[path[0]];
  }

  /** A node without children is nobody's ancestor, so comparing it with the parent decides the cycle check. */
  lemma ChildlessShortcut(kids: Kids, child: NodeId, parent: NodeId)
    requires child < |kids| && parent < |kids| && kids[child] == []
    ensures AncestorOrSelf(kids, child, parent) <==> child == parent
  {
    SelfPath(kids, parent);
    if AncestorOrSelf(kids, child, parent) {
      var path :| IsPath(kids, path) && path[0] == child && path[|path| - 1] == parent;
      LeavesThroughChildren(kids, path);
    }
  }

  // ----- every edit keeps a forest -----

  /** Moving a downward-closed set of nodes under a node outside it creates no cycle. */
  lemma RankedAfterMove(kids: Kids, after: Kids, rank: seq<nat>, moved: set<NodeId>, target: NodeId)
    requires |after| == |kids| && Ranked(kids, rank) && target < |kids| && target !in moved
    requires forall p, c :: 0 <= p < |after| && c in after[p] && c < |kids| ==>
               || (c in kids[p] && (p in moved <==> c in moved))
               || (p == target && c in moved)
    ensures Acyclic(after)
  {
    var lifted := seq(|rank|, i requires 0 <= i < |rank| => if i in moved then rank[i] + rank[target] + 1 else rank[i]);
    assert Ranked(after, lifted);
  }

  lemma AttachKeepsForest(kids: Kids, parent: NodeId, child: NodeId, list: seq<NodeId>)
    requires WellFormed(kids) && AttachError(kids, parent, child).None?
    requires Distinct(list) && forall c :: c in list <==> c in kids[parent] || c == child
    ensures WellFormed(kids[parent := list])
  {
    var after := kids[parent := list];
    var rank :| Ranked(kids, rank);
    var moved := set n | n in AllNodes(|kids|) && AncestorOrSelf(kids, child, n);
    forall p, c | 0 <= p < |after| && c in after[p] && c < |kids|
      ensures (c in kids[p] && (p in moved <==> c in moved)) || (p == parent && c in moved)
    {
      InAllNodes(|kids|, p);
      InAllNodes(|kids|, c);
      if c == child {
        SelfPath(kids, child);
      } else {
        ParentIs(kids, p, c);
        AncestorStep(kids, child, c);
      }
    }
    RankedAfterMove(kids, after, rank, moved, parent);
  }

  function AllNodes(n: nat): set<NodeId> {
    if n == 0 then {} else AllNodes(n - 1) + {n - 1}
  }

  lemma InAllNodes(n: nat, k: nat)
    ensures k in AllNodes(n) <==> k < n
  {
  }

  /** Taking edges away keeps a forest. */
  lemma FewerKeepsForest(kids: Kids, after: Kids)
    requires WellFormed(kids) && |after| == |kids|
    requires forall p, c :: 0 <= p < |after| && c in after[p] ==> c in kids[p]
    requires forall p :: 0 <= p < |after| ==> Distinct(after[p])
    ensures WellFormed(after)
  {
    var rank :| Ranked(kids, rank);
    assert Ranked(after, rank);
  }

  lemma WithoutMembers(s: seq<NodeId>, c: NodeId)
    requires Distinct(s) && c in s
    ensures Distinct(Without(s, c))
    ensures forall x :: x in Without(s, c) <==> x in s && x != c
  {
    var k := IndexOf(s, c);
    var r := Without(s, c);
    forall x | x in s && x != c ensures x in r {
      var i :| 0 <= i < |s| && s[i] == x;
      assert r[if i < k then i else i - 1] == x;
    }
  }

  lemma BeforeMembers(s: seq<NodeId>, sibling: NodeId, added: NodeId)
    requires Distinct(s) && sibling in s && added !in s
    ensures Distinct(Before(s, sibling, added))
    ensures forall x :: x in Before(s, sibling, added) <==> x in s || x == added
  {
    var k := IndexOf(s, sibling);
    var r := Before(s, sibling, added);
    assert r[k] == added;
    forall x | x in s ensures x in r {
      var i :| 0 <= i < |s| && s[i] == x;
      assert r[if i < k then i else i + 1] == x;
    }
  }

  lemma ReparentKeepsForest(kids: Kids, from: NodeId, to: NodeId)
    requires WellFormed(kids) && from < |kids| && to < |kids| && from != to && !AncestorOrSelf(kids, from, to)
    ensures WellFormed(kids[to := kids[to] + kids[from]][from := []])
  {
    hide AncestorOrSelf, Lists;
    var after := kids[to := kids[to] + kids[from]][from := []];
    var rank :| Ranked(kids, rank);
    var moved := set n | n in AllNodes(|kids|) && n != from && AncestorOrSelf(kids, from, n);
    forall p, c | 0 <= p < |after| && c in after[p] && c < |kids|
      ensures (c in kids[p] && (p in moved <==> c in moved)) || (p == to && c in moved)
    {
      InAllNodes(|kids|, p);
      InAllNodes(|kids|, c);
      ReparentEdge(kids, rank, from, to, p, c);
    }
    RankedAfterMove(kids, after, rank, moved, to);
    ReparentLists(kids, from, to);
  }

  lemma ReparentLists(kids: Kids, from: NodeId, to: NodeId)
    requires Lists(kids) && from < |kids| && to < |kids| && from != to
    ensures Lists(kids[to := kids[to] + kids[from]][from := []])
  {
    var list := kids[to] + kids[from];
    forall i, j | 0 <= i < j < |list| ensures list[i] != list[j] {
      if i < |kids[to]| <= j {
        assert list[i] in kids[to] && list[j] in kids[from];
      }
    }
  }

  lemma ReparentEdge(kids: Kids, rank: seq<nat>, from: NodeId, to: NodeId, p: NodeId, c: NodeId)
    requires Lists(kids) && Ranked(kids, rank) && from < |kids| && to < |kids| && from != to && p < |kids| && p != from
    requires c in kids[p] || (p == to && c in kids[from])
    ensures c < |kids|
    ensures var (pm, cm) := (AncestorOrSelf(kids, from, p), c != from && AncestorOrSelf(kids, from, c));
            (c in kids[p] && (pm <==> cm)) || (p == to && cm)
  {
    hide AncestorOrSelf;
    SelfPath(kids, from);
    if c in kids[p] {
      ParentIs(kids, p, c);
      NoSelfAncestor(kids, rank, from, p, c);
      if c != from {
        AncestorStep(kids, from, c);
      }
    } else {
      AncestorExtends(kids, from, from, c);
      assert rank[from] < rank[c];
    }
  }

  /** Nothing below a node leads back to it. */
  lemma {:induction false} NoSelfAncestor(kids: Kids, rank: seq<nat>, a: NodeId, p: NodeId, c: NodeId)
    requires Ranked(kids, rank) && p < |kids| && c in kids[p] && c < |kids|
    ensures c == a ==> !AncestorOrSelf(kids, a, p)
  {
    if c == a && AncestorOrSelf(kids, a, p) {
      var path :| IsPath(kids, path) && path[0] == a && path[|path| - 1] == p;
      RankAlong(kids, rank, path, |path| - 1);
    }
  }

  lemma {:induction false} RankAlong(kids: Kids, rank: seq<nat>, path: seq<NodeId>, i: nat)
    requires Ranked(kids, rank) && IsPath(kids, path) && i < |path|
    ensures rank[path[0]] + i <= rank[path[i]]
  {
    if i > 0 {
      RankAlong(kids, rank, path, i - 1);
      assert path[i] in kids[path[i - 1]];
    }
  }

  /** Every operation, successful or not, leaves a forest with a parentless root. */
  lemma StepKeepsForest(kids: Kids, op: Op)
    requires WellFormed(kids)
    ensures WellFormed(Step(kids, op).kids) && |Step(kids, op).kids| >= |kids|
  {
    hide Acyclic, IndexOf, AncestorOrSelf;
    match op
    case Create => CreateKeepsForest(kids);
    case AppendChild(parent, child) =>
      if AttachError(kids, parent, child).None? {
        assert child !in kids[parent];
        AttachKeepsForest(kids, parent, child, kids[parent] + [child]);
      }
    case InsertBefore(sibling, added) =>
      if added < |kids| && sibling < |kids| && ParentOf(kids, sibling).Some? {
        var parent := ParentOf(kids, sibling).value;
        if AttachError(kids, parent, added).None? {
          BeforeMembers(kids[parent], sibling, added);
          AttachKeepsForest(kids, parent, added, Before(kids[parent], sibling, added));
        }
      }
    case Detach(id) =>
      if id < |kids| {
        UnlinkKeepsForest(kids, id);
      }
    case ReparentChildren(from, to) =>
      if from < |kids| && to < |kids| && from != to && !AncestorOrSelf(kids, from, to) {
        ReparentKeepsForest(kids, from, to);
      }
  }

  lemma CreateKeepsForest(kids: Kids)
    requires WellFormed(kids)
    ensures WellFormed(kids + [[]])
  {
    var rank :| Ranked(kids, rank);
    assert Ranked(kids + [[]], rank + [0]);
  }

  lemma UnlinkKeepsForest(kids: Kids, id: NodeId)
    requires WellFormed(kids)
    ensures WellFormed(Unlinked(kids, id))
  {
    if ParentOf(kids, id).Some? {
      WithoutMembers(kids[ParentOf(kids, id).value], id);
      FewerKeepsForest(kids, Unlinked(kids, id));
    }
  }

  /** Every finite sequence of operations keeps a forest. */
  lemma {:induction false} RunKeepsForest(kids: Kids, ops: seq<Op>)
    requires WellFormed(kids)
    ensures WellFormed(After(kids, ops)) && |After(kids, ops)| >= |kids|
    decreases |ops|
  {
    hide Lists, Acyclic, Step;
    if ops != [] {
      StepKeepsForest(kids, ops[0]);
      RunKeepsForest(Step(kids, ops[0]).kids, ops[1..]);
    }
  }

  /** Detaching undoes an append. */
  lemma DetachUndoesAppend(kids: Kids, parent: NodeId, child: NodeId)
    requires WellFormed(kids) && AttachError(kids, parent, child).None?
    ensures Unlinked(Step(kids, AppendChild(parent, child)).kids, child) == kids
  {
    hide Acyclic, AncestorOrSelf, IndexOf;
    var list := kids[parent] + [child];
    Reattached(kids, parent, list, child);
    IndexIs(list, child, |kids[parent]|);
    assert Without(list, child) == kids[parent];
  }

  /** Detaching undoes an insertion. */
  lemma DetachUndoesInsert(kids: Kids, sibling: NodeId, added: NodeId)
    requires WellFormed(kids) && Step(kids, InsertBefore(sibling, added)).result.Ok?
    ensures Unlinked(Step(kids, InsertBefore(sibling, added)).kids, added) == kids
  {
    hide Acyclic, AncestorOrSelf, IndexOf;
    var parent := ParentOf(kids, sibling).value;
    BeforeMembers(kids[parent], sibling, added);
    var list := Before(kids[parent], sibling, added);
    Reattached(kids, parent, list, added);
    IndexIs(list, added, IndexOf(kids[parent], sibling));
    assert Without(list, added) == kids[parent];
  }

  lemma {:induction false} IndexIs(s: seq<NodeId>, c: NodeId, k: nat)
    requires k < |s| && s[k] == c && Distinct(s)
    ensures c in s && IndexOf(s, c) == k
  {
  }

  lemma Reattached(kids: Kids, parent: NodeId, list: seq<NodeId>, child: NodeId)
    requires Lists(kids) && parent < |kids| && child in list && ParentOf(kids, child).None?
    ensures Unlinked(kids[parent := list], child) == kids[parent := Without(list, child)]
  {
    var after := kids[parent := list];
    assert ParentOf(after, child) == Some(parent) by {
      assert after[parent] == list;
    }
  }

  // ----- where a node ends up -----

  /** The two documents differ in the children of `p` alone. */
  predicate OnlyChildrenOf(before: Kids, after: Kids, p: NodeId) {
    |after| == |before| && forall q :: 0 <= q < |before| && q != p ==> after[q] == before[q]
  }

  /**
   * A node inserted before a sibling stands directly in front of it, whatever else is in
   * the list, and the list without it is the old one.
   */
  lemma InsertedInFront(kids: Kids, sibling: NodeId, added: NodeId) returns (p: NodeId, i: nat)
    requires WellFormed(kids) && Step(kids, InsertBefore(sibling, added)).result.Ok?
    ensures var after := Step(kids, InsertBefore(sibling, added)).kids;
            && p < |kids| && OnlyChildrenOf(kids, after, p) && sibling in kids[p] && added !in kids[p]
            && i + 1 < |after[p]| && after[p][i] == added && after[p][i + 1] == sibling
            && after[p][..i] + after[p][i + 1..] == kids[p]
  {
    hide Acyclic, AncestorOrSelf, IndexOf;
    p := ParentOf(kids, sibling).value;
    i := IndexOf(kids[p], sibling);
    var after := Step(kids, InsertBefore(sibling, added)).kids;
    assert after[p] == kids[p][..i] + [added] + kids[p][i..];
    assert kids[p][..i] + kids[p][i..] == kids[p];
  }

  /** An appended child comes last, behind the children that were there. */
  lemma AppendedLast(kids: Kids, parent: NodeId, child: NodeId)
    requires WellFormed(kids) && Step(kids, AppendChild(parent, child)).result.Ok?
    ensures var after := Step(kids, AppendChild(parent, child)).kids;
            && parent < |kids| && OnlyChildrenOf(kids, after, parent) && child !in kids[parent]
            && |after[parent]| == |kids[parent]| + 1 && after[parent][|kids[parent]|] == child
            && kids[parent] <= after[parent]
  {
    hide Acyclic, AncestorOrSelf;
  }

  /** A detached node is in no list any more, and its siblings keep their order. */
  lemma DetachedGone(kids: Kids, id: NodeId)
    requires WellFormed(kids) && Step(kids, Detach(id)).result.Ok?
    ensures var after := Step(kids, Detach(id)).kids;
            && |after| == |kids| && (forall q :: 0 <= q < |after| ==> id !in after[q])
            && forall q :: 0 <= q < |kids| ==>
                 if id !in kids[q] then after[q] == kids[q]
                 else exists i :: 0 <= i < |kids[q]| && kids[q][i] == id
                                  && after[q] == kids[q][..i] + kids[q][i + 1..]
  {
    hide Acyclic, IndexOf;
    if ParentOf(kids, id).Some? {
      var p := ParentOf(kids, id).value;
      var i := IndexOf(kids[p], id);
      assert Distinct(kids[p]) && kids[p][i] == id;
      assert Without(kids[p], id) == kids[p][..i] + kids[p][i + 1..];
      assert id !in Without(kids[p], id);
    }
  }

  /** Reparented children follow the ones already there, in order, and leave none behind. */
  lemma ReparentedInOrder(kids: Kids, from: NodeId, to: NodeId)
    requires WellFormed(kids) && from != to && Step(kids, ReparentChildren(from, to)).result.Ok?
    ensures var after := Step(kids, ReparentChildren(from, to)).kids;
            && from < |kids| && to < |kids| && |after| == |kids| && after[from] == []
            && |after[to]| == |kids[to]| + |kids[from]|
            && (forall i :: 0 <= i < |kids[to]| ==> after[to][i] == kids[to][i])
            && (forall i :: 0 <= i < |kids[from]| ==> after[to][|kids[to]| + i] == kids[from][i])
            && forall q :: 0 <= q < |kids| && q != from && q != to ==> after[q] == kids[q]
  {
    hide Acyclic, AncestorOrSelf;
  }

  /** A created node is new, has no children and hangs nowhere; a full arena stays as it is. */
  lemma CreatedDetached(kids: Kids)
    requires WellFormed(kids)
    ensures var r := Step(kids, Create);
            if |kids| >= NODE_CAP then r == Outcome(kids, Ok(NODE_CAP))
            else
              && r.result == Ok(|kids|) && kids <= r.kids && |r.kids| == |kids| + 1 && r.kids[|kids|] == []
              && forall p :: 0 <= p < |r.kids| ==> |kids| !in r.kids[p]
  {
    hide Acyclic, IndexOf;
  }

  /**
   * Attaching is refused exactly for a node that does not exist, the document itself, a
   * node that lies above the place, or one that is attached already; a refused operation
   * changes nothing.
   */
  lemma AttachedExactly(kids: Kids, parent: NodeId, child: NodeId)
    requires WellFormed(kids)
    ensures var r := Step(kids, AppendChild(parent, child));
            && (r.result.Ok? <==>
                  && parent < |kids| && 0 < child < |kids| && !AncestorOrSelf(kids, child, parent)
                  && forall p :: 0 <= p < |kids| ==> child !in kids[p])
            && (r.result.Err? ==> r.kids == kids)
  {
    hide Acyclic, AncestorOrSelf, IndexOf;
  }

  /** The reason given when several apply: the first of a missing node, the document, a cycle, an attached child. */
  lemma AttachErrors(kids: Kids, parent: NodeId, child: NodeId)
    requires WellFormed(kids)
    ensures var r := Step(kids, AppendChild(parent, child)).result;
            var known := parent < |kids| && child < |kids|;
            var attached := exists p :: 0 <= p < |kids| && child in kids[p];
            && (parent >= |kids| ==> r == Err(NoSuchNode(parent)))
            && (parent < |kids| <= child ==> r == Err(NoSuchNode(child)))
            && (known && child == 0 ==> r == Err(IsDocument))
            && (known && child != 0 && AncestorOrSelf(kids, child, parent) ==> r == Err(Cycle(child, parent)))
            && (known && child != 0 && !AncestorOrSelf(kids, child, parent) && attached ==>
                  r == Err(NotDetached(child)))
  {
    hide Acyclic, AncestorOrSelf, IndexOf;
  }

  /** An insertion is refused for a missing node first, then for a sibling without a parent, then as an append there. */
  lemma InsertErrors(kids: Kids, sibling: NodeId, added: NodeId)
    requires WellFormed(kids)
    ensures var r := Step(kids, InsertBefore(sibling, added));
            && (added >= |kids| ==> r.result == Err(NoSuchNode(added)))
            && (added < |kids| <= sibling ==> r.result == Err(NoSuchNode(sibling)))
            && (added < |kids| && sibling < |kids| ==>
                  && ((forall p :: 0 <= p < |kids| ==> sibling !in kids[p]) ==> r.result == Err(IsDocument))
                  && forall p :: 0 <= p < |kids| && sibling in kids[p] ==>
                       r.result == Step(kids, AppendChild(p, added)).result)
            && (r.result.Err? ==> r.kids == kids)
  {
    hide Acyclic, AncestorOrSelf, IndexOf;
  }

  /** Moving children is refused for a missing node, or a target at or below the source; onto itself it does nothing. */
  lemma ReparentErrors(kids: Kids, from: NodeId, to: NodeId)
    requires WellFormed(kids)
    ensures var r := Step(kids, ReparentChildren(from, to));
            && (from >= |kids| ==> r.result == Err(NoSuchNode(from)))
            && (from < |kids| <= to ==> r.result == Err(NoSuchNode(to)))
            && (from == to < |kids| ==> r == Outcome(kids, Ok(to)))
            && (from < |kids| && to < |kids| && from != to ==>
                  (r.result == Err(Cycle(from, to)) <==> AncestorOrSelf(kids, from, to)))
            && (r.result.Err? ==> r.kids == kids)
  {
    hide Acyclic, AncestorOrSelf, IndexOf;
  }
}
