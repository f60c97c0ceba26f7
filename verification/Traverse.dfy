/**
 * Iterators over a borrowed document: direct children, descendants in pre-order,
 * and ancestors. Each walks links with an explicit stack or cursor and stops after
 * as many nodes as the arena holds, whatever the links say.
 */
module Traverse {
  import opened Wrappers
  import opened Sequences
  import opened Forest
  import opened Dom

  // ----- what each iterator yields from a state, for any links at all -----

  function Get(nodes: seq<Node>, id: NodeId): Option<Node> {
    if id < |nodes| then Some(nodes[id]) else None
  }

  function NextSibling(nodes: seq<Node>, id: NodeId): Option<NodeId> {
    match Get(nodes, id) case Some(n) => n.next case None => None
  }

  function FirstChild(nodes: seq<Node>, id: NodeId): Option<NodeId> {
    match Get(nodes, id) case Some(n) => n.firstChild case None => None
  }

  function Parent(nodes: seq<Node>, id: NodeId): Option<NodeId> {
    match Get(nodes, id) case Some(n) => n.parent case None => None
  }

  function SiblingWalk(nodes: seq<Node>, next: Option<NodeId>, remaining: nat): (r: seq<NodeId>)
    ensures |r| <= remaining
    decreases remaining
  {
    if remaining == 0 || next.None? then []
    else [next.value] + SiblingWalk(nodes, NextSibling(nodes, next.value), remaining - 1)
  }

  function AncestorWalk(nodes: seq<Node>, next: Option<NodeId>, remaining: nat): (r: seq<NodeId>)
    ensures |r| <= remaining
    decreases remaining
  {
    if remaining == 0 || next.None? then []
    else [next.value] + AncestorWalk(nodes, Parent(nodes, next.value), remaining - 1)
  }

  function ChildrenOf(nodes: seq<Node>, id: NodeId): seq<NodeId> {
    SiblingWalk(nodes, FirstChild(nodes, id), |nodes|)
  }

  /** The stack holds the nodes still to visit, the next one on top. */
  function StackWalk(nodes: seq<Node>, stack: seq<NodeId>, remaining: nat): (r: seq<NodeId>)
    ensures |r| <= remaining
    decreases remaining
  {
    if remaining == 0 || stack == [] then []
    else
      var current := stack[|stack| - 1];
      [current] + StackWalk(nodes, stack[..|stack| - 1] + Reversed(ChildrenOf(nodes, current)), remaining - 1)
  }

  // ----- the iterators -----

  class Children {
    const nodes: seq<Node>
    var next: Option<NodeId>
    var remaining: nat

    constructor (nodes: seq<Node>, id: NodeId)
      ensures this.nodes == nodes && next == FirstChild(nodes, id) && remaining == |nodes|
    {
      this.nodes := nodes;
      next := FirstChild(nodes, id);
      remaining := |nodes|;
    }

    ghost function Rest(): seq<NodeId>
      reads this
    {
      SiblingWalk(nodes, next, remaining)
    }

    method Next() returns (r: Option<NodeId>)
      modifies this
      ensures r == First(old(Rest()))
      ensures Rest() == if r.Some? then old(Rest())[1..] else []
      ensures r.Some? ==> remaining < old(remaining)
    {
      if remaining == 0 || next.None? {
        return None;
      }
      var current := next.value;
      remaining := remaining - 1;
      next := NextSibling(nodes, current);
      return Some(current);
    }

    method Collect() returns (s: seq<NodeId>)
      modifies this
      ensures s == old(Rest()) && |s| <= old(remaining)
    {
      s := [];
      var r := Next();
      while r.Some?
        invariant old(Rest()) == s + (if r.Some? then [r.value] + Rest() else [])
        decreases r.Some?, remaining
      {
        s := s + [r.value];
        r := Next();
      }
    }
  }

  class Ancestors {
    const nodes: seq<Node>
    var next: Option<NodeId>
    var remaining: nat

    constructor (nodes: seq<Node>, id: NodeId)
      ensures this.nodes == nodes && next == Parent(nodes, id) && remaining == |nodes|
    {
      this.nodes := nodes;
      next := Parent(nodes, id);
      remaining := |nodes|;
    }

    ghost function Rest(): seq<NodeId>
      reads this
    {
      AncestorWalk(nodes, next, remaining)
    }

    method Next() returns (r: Option<NodeId>)
      modifies this
      ensures r == First(old(Rest()))
      ensures Rest() == if r.Some? then old(Rest())[1..] else []
      ensures r.Some? ==> remaining < old(remaining)
    {
      if remaining == 0 || next.None? {
        return None;
      }
      var current := next.value;
      remaining := remaining - 1;
      next := Parent(nodes, current);
      return Some(current);
    }
  }

  class Descendants {
    const nodes: seq<Node>
    var stack: seq<NodeId>
    var remaining: nat

    constructor (nodes: seq<Node>, id: NodeId)
      ensures this.nodes == nodes && stack == Reversed(ChildrenOf(nodes, id)) && remaining == |nodes|
    {
      this.nodes := nodes;
      remaining := |nodes|;
      stack := [];
      new;
      var children := new Children(nodes, id);
      var list := children.Collect();
      stack := Reversed(list);
    }

    ghost function Rest(): seq<NodeId>
      reads this
    {
      StackWalk(nodes, stack, remaining)
    }

    method Next() returns (r: Option<NodeId>)
      modifies this
      ensures r == First(old(Rest()))
      ensures Rest() == if r.Some? then old(Rest())[1..] else []
      ensures r.Some? ==> remaining < old(remaining)
    {
      if remaining == 0 || stack == [] {
        return None;
      }
      var current := stack[|stack| - 1];
      stack := stack[..|stack| - 1];
      remaining := remaining - 1;
      var children := new Children(nodes, current);
      var list := children.Collect();
      stack := stack + Reversed(list);
      return Some(current);
    }
  }

  // ----- on a well-formed document -----

  lemma {:induction false} DistinctIsBounded(s: seq<NodeId>, n: nat)
    requires Distinct(s) && forall i :: 0 <= i < |s| ==> s[i] < n
    ensures |s| <= n
  {
    assert s == [] || s[0] < n;
    if n > 0 {
      if i :| 0 <= i < |s| && s[i] == n - 1 {
        var rest := s[..i] + s[i + 1..];
        DistinctIsBounded(rest, n - 1);
      } else {
        DistinctIsBounded(s, n - 1);
      }
    }
  }

  lemma {:induction false} SiblingsFrom(nodes: seq<Node>, p: NodeId, list: seq<NodeId>, k: nat, remaining: nat)
    requires p < |nodes| && ListLinked(nodes, p, list) && k <= |list| && |list| - k <= remaining
    ensures SiblingWalk(nodes, At(list, k), remaining) == list[k..]
    decreases |list| - k
  {
    if k < |list| {
      assert nodes[list[k]].parent == Some(p);
      SiblingsFrom(nodes, p, list, k + 1, remaining - 1);
    }
  }

  /** The children iterator yields the abstract child list; its cap never cuts it short. */
  lemma ChildrenAreKids(nodes: seq<Node>, kids: Kids, id: NodeId)
    requires Linked(nodes, kids) && Lists(kids) && id < |nodes|
    ensures ChildrenOf(nodes, id) == kids[id]
  {
    assert ListLinked(nodes, id, kids[id]);
    DistinctIsBounded(kids[id], |nodes|);
    SiblingsFrom(nodes, id, kids[id], 0, |nodes|);
  }

  // ----- pre-order -----

  /** A numbering below `bound` that grows along every edge; it exists for every forest. */
  ghost predicate RankedBelow(kids: Kids, rank: seq<nat>, bound: nat) {
    Ranked(kids, rank) && forall i :: 0 <= i < |rank| ==> rank[i] < bound
  }

  lemma {:induction false} BoundExists(kids: Kids, rank: seq<nat>)
    requires Ranked(kids, rank)
    ensures exists bound :: RankedBelow(kids, rank, bound)
  {
    var bound := 0;
    for i := 0 to |rank|
      invariant forall j :: 0 <= j < i ==> rank[j] < bound
    {
      bound := if bound <= rank[i] then rank[i] + 1 else bound;
    }
    assert RankedBelow(kids, rank, bound);
  }

  /** The children of `p` from the `k`-th on, each followed by everything below it. */
  ghost function Below(kids: Kids, rank: seq<nat>, bound: nat, p: NodeId, k: nat): seq<NodeId>
    requires Lists(kids) && RankedBelow(kids, rank, bound) && p < |kids|
    decreases bound - rank[p], |kids[p]| - k
  {
    if k >= |kids[p]| then []
    else
      var c := kids[p][k];
      assert c in kids[p];
      [c] + Below(kids, rank, bound, c, 0) + Below(kids, rank, bound, p, k + 1)
  }

  ghost function SomeRank(kids: Kids): (rank: seq<nat>)
    requires Acyclic(kids)
    ensures Ranked(kids, rank)
  {
    var rank :| Ranked(kids, rank);
    rank
  }

  ghost function SomeBound(kids: Kids): (bound: nat)
    requires Acyclic(kids)
    ensures RankedBelow(kids, SomeRank(kids), bound)
  {
    BoundExists(kids, SomeRank(kids));
    var bound :| RankedBelow(kids, SomeRank(kids), bound);
    bound
  }

  /** The recursive pre-order of the subtree, the node itself left out. */
  ghost function Preorder(kids: Kids, id: NodeId): seq<NodeId>
    requires Forest.WellFormed(kids) && id < |kids|
  {
    Below(kids, SomeRank(kids), SomeBound(kids), id, 0)
  }

  /** Two children of one parent have no node below both. */
  lemma {:induction false} SiblingsDisjoint(kids: Kids, rank: seq<nat>, p: NodeId, i: nat, j: nat, x: NodeId)
    requires Lists(kids) && Ranked(kids, rank) && p < |kids| && i < |kids[p]| && j < |kids[p]| && x < |kids|
    requires AncestorOrSelf(kids, kids[p][i], x) && AncestorOrSelf(kids, kids[p][j], x)
    ensures i == j
    decreases rank[x]
  {
    hide AncestorOrSelf;
    var a, b := kids[p][i], kids[p][j];
    assert a in kids[p] && b in kids[p];
    ParentIs(kids, p, a);
    ParentIs(kids, p, b);
    if x == a {
      NoSelfAncestor(kids, rank, b, p, b);
      if b != a { AncestorStep(kids, b, a); }
    } else if x == b {
      NoSelfAncestor(kids, rank, a, p, a);
      AncestorStep(kids, a, b);
    } else {
      AncestorStep(kids, a, x);
      AncestorStep(kids, b, x);
      var q := ParentOf(kids, x).value;
      assert x in kids[q];
      SiblingsDisjoint(kids, rank, p, i, j, q);
    }
  }

  /** Exactly the nodes at or below one of the children from the `k`-th on. */
  lemma {:induction false} BelowMembers(kids: Kids, rank: seq<nat>, bound: nat, p: NodeId, k: nat, x: NodeId)
    requires Lists(kids) && RankedBelow(kids, rank, bound) && p < |kids| && x < |kids|
    ensures x in Below(kids, rank, bound, p, k)
            <==> exists j :: k <= j < |kids[p]| && AncestorOrSelf(kids, kids[p][j], x)
    decreases bound - rank[p], |kids[p]| - k
  {
    hide AncestorOrSelf;
    if k < |kids[p]| {
      var c := kids[p][k];
      assert c in kids[p];
      BelowMembers(kids, rank, bound, c, 0, x);
      BelowMembers(kids, rank, bound, p, k + 1, x);
      BranchMembers(kids, c, x);
    }
  }

  /** A node lies at or below `c` when it is `c` or lies at or below one of its children. */
  lemma BranchMembers(kids: Kids, c: NodeId, x: NodeId)
    requires Lists(kids) && c < |kids| && x < |kids|
    ensures AncestorOrSelf(kids, c, x)
            <==> x == c || exists j :: 0 <= j < |kids[c]| && AncestorOrSelf(kids, kids[c][j], x)
  {
    SelfPath(kids, c);
    if AncestorOrSelf(kids, c, x) && x != c {
      var path :| IsPath(kids, path) && path[0] == c && path[|path| - 1] == x;
      var down := path[1..];
      assert path[1] in kids[path[0]];
      var j :| 0 <= j < |kids[c]| && kids[c][j] == path[1];
      assert IsPath(kids, down) && down[|down| - 1] == x;
    }
    if j :| 0 <= j < |kids[c]| && AncestorOrSelf(kids, kids[c][j], x) {
      var path :| IsPath(kids, path) && path[0] == kids[c][j] && path[|path| - 1] == x;
      assert IsPath(kids, [c] + path) && ([c] + path)[|path|] == x;
    }
  }

  lemma {:induction false} BelowInRange(kids: Kids, rank: seq<nat>, bound: nat, p: NodeId, k: nat)
    requires Lists(kids) && RankedBelow(kids, rank, bound) && p < |kids|
    ensures forall x :: x in Below(kids, rank, bound, p, k) ==> x < |kids|
    decreases bound - rank[p], |kids[p]| - k
  {
    if k < |kids[p]| {
      assert kids[p][k] in kids[p];
      BelowInRange(kids, rank, bound, kids[p][k], 0);
      BelowInRange(kids, rank, bound, p, k + 1);
    }
  }

  /** Each node comes up once. */
  lemma {:induction false} BelowDistinct(kids: Kids, rank: seq<nat>, bound: nat, p: NodeId, k: nat)
    requires Lists(kids) && RankedBelow(kids, rank, bound) && p < |kids|
    ensures Distinct(Below(kids, rank, bound, p, k))
    decreases bound - rank[p], |kids[p]| - k
  {
    hide AncestorOrSelf;
    if k < |kids[p]| {
      var c := kids[p][k];
      assert c in kids[p];
      BelowDistinct(kids, rank, bound, c, 0);
      BelowDistinct(kids, rank, bound, p, k + 1);
      var inside, after := Below(kids, rank, bound, c, 0), Below(kids, rank, bound, p, k + 1);
      BelowInRange(kids, rank, bound, c, 0);
      BelowInRange(kids, rank, bound, p, k + 1);
      forall x | x in [c] + inside ensures x !in after {
        BelowApart(kids, rank, bound, p, k, x);
      }
      BelowOwn(kids, rank, bound, c);
      ConcatDistinct([c], inside);
      ConcatDistinct([c] + inside, after);
    }
  }

  lemma ConcatDistinct(a: seq<NodeId>, b: seq<NodeId>)
    requires Distinct(a) && Distinct(b) && forall x :: x in a ==> x !in b
    ensures Distinct(a + b)
  {
    forall i, j | 0 <= i < j < |a + b| ensures (a + b)[i] != (a + b)[j] {
      if i < |a| <= j {
        assert (a + b)[i] in a && (a + b)[j] in b;
      }
    }
  }

  lemma BelowOwn(kids: Kids, rank: seq<nat>, bound: nat, c: NodeId)
    requires Lists(kids) && RankedBelow(kids, rank, bound) && c < |kids|
    ensures c !in Below(kids, rank, bound, c, 0)
  {
    BelowMembers(kids, rank, bound, c, 0, c);
    if j :| 0 <= j < |kids[c]| && AncestorOrSelf(kids, kids[c][j], c) {
      var path :| IsPath(kids, path) && path[0] == kids[c][j] && path[|path| - 1] == c;
      assert kids[c][j] in kids[c];
      RankAlong(kids, rank, path, |path| - 1);
    }
  }

  lemma BelowApart(kids: Kids, rank: seq<nat>, bound: nat, p: NodeId, k: nat, x: NodeId)
    requires Lists(kids) && RankedBelow(kids, rank, bound) && p < |kids| && k < |kids[p]| && x < |kids|
    requires kids[p][k] < |kids|
    requires x == kids[p][k] || x in Below(kids, rank, bound, kids[p][k], 0)
    ensures x !in Below(kids, rank, bound, p, k + 1)
  {
    hide AncestorOrSelf;
    var c := kids[p][k];
    assert c in kids[p];
    BelowMembers(kids, rank, bound, c, 0, x);
    BranchMembers(kids, c, x);
    BelowMembers(kids, rank, bound, p, k + 1, x);
    if j :| k + 1 <= j < |kids[p]| && AncestorOrSelf(kids, kids[p][j], x) {
      SiblingsDisjoint(kids, rank, p, k, j, x);
    }
  }

  /** What a stack of pending nodes stands for. */
  ghost function Pending(kids: Kids, rank: seq<nat>, bound: nat, stack: seq<NodeId>): seq<NodeId>
    requires Lists(kids) && RankedBelow(kids, rank, bound) && forall i :: 0 <= i < |stack| ==> stack[i] < |kids|
  {
    if stack == [] then []
    else
      var top := stack[|stack| - 1];
      [top] + Below(kids, rank, bound, top, 0) + Pending(kids, rank, bound, stack[..|stack| - 1])
  }

  /** Pushing a child list in reverse makes its pre-order come next. */
  lemma {:induction false} PushedChildren(kids: Kids, rank: seq<nat>, bound: nat, rest: seq<NodeId>, p: NodeId, k: nat)
    requires Lists(kids) && RankedBelow(kids, rank, bound) && p < |kids| && k <= |kids[p]|
    requires forall i :: 0 <= i < |rest| ==> rest[i] < |kids|
    requires forall i :: 0 <= i < |kids[p]| ==> kids[p][i] < |kids|
    ensures Pending(kids, rank, bound, rest + Reversed(kids[p][k..]))
            == Below(kids, rank, bound, p, k) + Pending(kids, rank, bound, rest)
    decreases |kids[p]| - k
  {
    var stack := rest + Reversed(kids[p][k..]);
    if k < |kids[p]| {
      PushedChildren(kids, rank, bound, rest, p, k + 1);
      var c := kids[p][k];
      assert stack[|stack| - 1] == c;
      assert stack[..|stack| - 1] == rest + Reversed(kids[p][k + 1..]);
      assert Below(kids, rank, bound, p, k) + Pending(kids, rank, bound, rest)
          == [c] + Below(kids, rank, bound, c, 0) + (Below(kids, rank, bound, p, k + 1)
                                                     + Pending(kids, rank, bound, rest));
    } else {
      assert stack == rest;
    }
  }

  lemma KidsInRange(kids: Kids, p: NodeId)
    requires Lists(kids) && p < |kids|
    ensures Distinct(kids[p]) && forall i :: 0 <= i < |kids[p]| ==> kids[p][i] < |kids|
  {
    forall i | 0 <= i < |kids[p]| ensures kids[p][i] < |kids| {
      assert kids[p][i] in kids[p];
    }
  }

  /** Visiting the top node replaces it by its children. */
  lemma PendingEnter(kids: Kids, rank: seq<nat>, bound: nat, stack: seq<NodeId>)
    requires Lists(kids) && RankedBelow(kids, rank, bound) && stack != []
    requires forall i :: 0 <= i < |stack| ==> stack[i] < |kids|
    ensures var top := stack[|stack| - 1];
            var next := stack[..|stack| - 1] + Reversed(kids[top]);
            && (forall i :: 0 <= i < |next| ==> next[i] < |kids|)
            && Pending(kids, rank, bound, stack) == [top] + Pending(kids, rank, bound, next)
  {
    hide Below, RankedBelow, Lists;
    var top, rest := stack[|stack| - 1], stack[..|stack| - 1];
    KidsInRange(kids, top);
    assert kids[top][0..] == kids[top];
    PushedChildren(kids, rank, bound, rest, top, 0);
    assert Pending(kids, rank, bound, stack) == [top] + (Below(kids, rank, bound, top, 0)
                                                         + Pending(kids, rank, bound, rest));
  }

  /** With a large enough cap the stack walk yields everything pending. */
  lemma {:induction false} WalkYieldsPending(nodes: seq<Node>, kids: Kids, rank: seq<nat>, bound: nat,
                                             stack: seq<NodeId>, remaining: nat)
    requires Linked(nodes, kids) && Lists(kids) && RankedBelow(kids, rank, bound)
    requires forall i :: 0 <= i < |stack| ==> stack[i] < |kids|
    requires |Pending(kids, rank, bound, stack)| <= remaining
    ensures StackWalk(nodes, stack, remaining) == Pending(kids, rank, bound, stack)
    decreases remaining
  {
    hide Linked, Lists, RankedBelow, Reversed, ChildrenOf;
    if stack != [] {
      var top, rest := stack[|stack| - 1], stack[..|stack| - 1];
      LinkedSizes(nodes, kids);
      ChildrenAreKids(nodes, kids, top);
      PendingEnter(kids, rank, bound, stack);
      WalkYieldsPending(nodes, kids, rank, bound, rest + Reversed(kids[top]), remaining - 1);
    }
  }

  lemma LinkedSizes(nodes: seq<Node>, kids: Kids)
    requires Linked(nodes, kids)
    ensures |nodes| == |kids|
  {
  }

  /**
   * On a well-formed document the descendants iterator yields the recursive
   * pre-order: every node below `id`, each once, and the cap never cuts it short.
   */
  lemma DescendantsArePreorder(nodes: seq<Node>, kids: Kids, id: NodeId)
    requires Linked(nodes, kids) && Forest.WellFormed(kids) && id < |nodes|
    ensures StackWalk(nodes, Reversed(ChildrenOf(nodes, id)), |nodes|) == Preorder(kids, id)
    ensures Distinct(Preorder(kids, id))
    ensures forall x :: 0 <= x < |nodes| ==> (x in Preorder(kids, id) <==> x != id && AncestorOrSelf(kids, id, x))
  {
    hide Linked, AncestorOrSelf;
    LinkedSizes(nodes, kids);
    var rank, bound := SomeRank(kids), SomeBound(kids);
    var r := Below(kids, rank, bound, id, 0);
    ChildrenAreKids(nodes, kids, id);
    BelowDistinct(kids, rank, bound, id, 0);
    PreorderBounded(kids, rank, bound, id);
    PendingChildren(kids, rank, bound, id);
    WalkYieldsPending(nodes, kids, rank, bound, Reversed(kids[id]), |nodes|);
    forall x | 0 <= x < |nodes| ensures x in r <==> x != id && AncestorOrSelf(kids, id, x) {
      BelowMembers(kids, rank, bound, id, 0, x);
      BranchMembers(kids, id, x);
      BelowOwn(kids, rank, bound, id);
    }
  }

  lemma PreorderBounded(kids: Kids, rank: seq<nat>, bound: nat, id: NodeId)
    requires Lists(kids) && RankedBelow(kids, rank, bound) && id < |kids|
    ensures |Below(kids, rank, bound, id, 0)| <= |kids|
  {
    var r := Below(kids, rank, bound, id, 0);
    BelowDistinct(kids, rank, bound, id, 0);
    BelowInRange(kids, rank, bound, id, 0);
    assert forall i :: 0 <= i < |r| ==> r[i] in r;
    DistinctIsBounded(r, |kids|);
  }

  lemma PendingChildren(kids: Kids, rank: seq<nat>, bound: nat, id: NodeId)
    requires Lists(kids) && RankedBelow(kids, rank, bound) && id < |kids|
    ensures forall i :: 0 <= i < |Reversed(kids[id])| ==> Reversed(kids[id])[i] < |kids|
    ensures Pending(kids, rank, bound, Reversed(kids[id])) == Below(kids, rank, bound, id, 0)
  {
    assert forall i :: 0 <= i < |kids[id]| ==> kids[id][i] in kids[id];
    PushedChildren(kids, rank, bound, [], id, 0);
    assert kids[id][0..] == kids[id] && [] + Reversed(kids[id]) == Reversed(kids[id]);
  }

  // ----- ancestors -----

  /** The node before place `i` of a walk that starts at `n`. */
  function Preceding(n: NodeId, chain: seq<NodeId>, i: nat): NodeId
    requires i <= |chain|
  {
    if i == 0 then n else chain[i - 1]
  }

  /** The chain of parents above `n`, nearest first, up to a node without one. */
  ghost predicate IsParentChain(kids: Kids, n: NodeId, chain: seq<NodeId>) {
    && (forall i {:trigger Preceding(n, chain, i)} :: 0 <= i < |chain| ==>
        ParentOf(kids, Preceding(n, chain, i)) == Some(chain[i]))
    && ParentOf(kids, Preceding(n, chain, |chain|)).None?
  }

  lemma ChainCons(kids: Kids, n: NodeId, p: NodeId, tail: seq<NodeId>)
    requires ParentOf(kids, n) == Some(p) && IsParentChain(kids, p, tail)
    ensures IsParentChain(kids, n, [p] + tail)
  {
    var chain := [p] + tail;
    forall i | 0 <= i < |chain| ensures ParentOf(kids, Preceding(n, chain, i)) == Some(chain[i]) {
      if i > 0 {
        assert Preceding(n, chain, i) == Preceding(p, tail, i - 1);
      }
    }
    assert Preceding(n, chain, |chain|) == Preceding(p, tail, |tail|);
  }

  lemma {:induction false} AncestorsFrom(nodes: seq<Node>, kids: Kids, rank: seq<nat>, n: NodeId, remaining: nat)
    requires Linked(nodes, kids) && Lists(kids) && Ranked(kids, rank) && n < |nodes|
    ensures var chain := AncestorWalk(nodes, Parent(nodes, n), remaining);
            |chain| < remaining ==> IsParentChain(kids, n, chain)
    decreases remaining
  {
    hide Linked;
    ParentAgrees(nodes, kids, n);
    LinkedSizes(nodes, kids);
    var p := ParentOf(kids, n);
    if remaining > 0 && p.Some? {
      AncestorsFrom(nodes, kids, rank, p.value, remaining - 1);
      var tail := AncestorWalk(nodes, Parent(nodes, p.value), remaining - 1);
      if |tail| < remaining - 1 {
        ChainCons(kids, n, p.value, tail);
      }
    }
  }

  lemma {:induction false} AncestorRanks(nodes: seq<Node>, kids: Kids, rank: seq<nat>, n: NodeId, remaining: nat)
    requires Linked(nodes, kids) && Lists(kids) && Ranked(kids, rank) && n < |nodes|
    ensures var chain := AncestorWalk(nodes, Parent(nodes, n), remaining);
            && (forall i :: 0 <= i < |chain| ==> chain[i] < |nodes| && rank[chain[i]] < rank[n])
            && Distinct(chain)
    decreases remaining
  {
    hide Linked;
    ParentAgrees(nodes, kids, n);
    LinkedSizes(nodes, kids);
    var p := ParentOf(kids, n);
    if remaining > 0 && p.Some? {
      AncestorRanks(nodes, kids, rank, p.value, remaining - 1);
      assert n in kids[p.value];
    }
  }

  /** The ancestors iterator yields the whole parent chain; its cap never cuts it short. */
  lemma AncestorsAreParents(nodes: seq<Node>, kids: Kids, n: NodeId)
    requires Linked(nodes, kids) && Forest.WellFormed(kids) && n < |nodes|
    ensures IsParentChain(kids, n, AncestorWalk(nodes, Parent(nodes, n), |nodes|))
  {
    hide Linked;
    var rank :| Ranked(kids, rank);
    LinkedSizes(nodes, kids);
    var chain := AncestorWalk(nodes, Parent(nodes, n), |nodes|);
    AncestorRanks(nodes, kids, rank, n, |nodes|);
    DistinctIsBounded([n] + chain, |nodes|);
    AncestorsFrom(nodes, kids, rank, n, |nodes|);
  }
}
