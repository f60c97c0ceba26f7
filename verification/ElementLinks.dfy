/**
 * Element-sibling links computed once for the whole document by a forward and a
 * backward pass over every child list, against the sibling walk they replace.
 */
module ElementLinks {
  import opened Wrappers
  import opened Forest
  import opened Dom
  import T = Traverse

  predicate IsElement(nodes: seq<Node>, id: NodeId) {
    id < |nodes| && nodes[id].kind.Element?
  }

  // ----- the walk on demand -----

  /** The nearest element at or before a node along the previous-sibling links. */
  function WalkBack(nodes: seq<Node>, at: Option<NodeId>, remaining: nat): Option<NodeId>
    decreases remaining
  {
    if at.None? || remaining == 0 || at.value >= |nodes| then None
    else if IsElement(nodes, at.value) then at
    else WalkBack(nodes, nodes[at.value].prev, remaining - 1)
  }

  /** The nearest element at or after a node along the next-sibling links. */
  function WalkOn(nodes: seq<Node>, at: Option<NodeId>, remaining: nat): Option<NodeId>
    decreases remaining
  {
    if at.None? || remaining == 0 || at.value >= |nodes| then None
    else if IsElement(nodes, at.value) then at
    else WalkOn(nodes, nodes[at.value].next, remaining - 1)
  }

  // ----- the same over a child list -----

  /** The last element among the first `k`. */
  function LastBefore(nodes: seq<Node>, list: seq<NodeId>, k: nat): Option<NodeId>
    requires k <= |list|
  {
    if k == 0 then None
    else if IsElement(nodes, list[k - 1]) then Some(list[k - 1])
    else LastBefore(nodes, list, k - 1)
  }

  /** The first element from the `k`-th on. */
  function FirstFrom(nodes: seq<Node>, list: seq<NodeId>, k: nat): Option<NodeId>
    requires k <= |list|
    decreases |list| - k
  {
    if k == |list| then None
    else if IsElement(nodes, list[k]) then Some(list[k])
    else FirstFrom(nodes, list, k + 1)
  }

  lemma {:induction false} BackIsLastBefore(nodes: seq<Node>, p: NodeId, list: seq<NodeId>, k: nat, remaining: nat)
    requires p < |nodes| && ListLinked(nodes, p, list) && k <= |list| && k <= remaining
    ensures WalkBack(nodes, At(list, k - 1), remaining) == LastBefore(nodes, list, k)
  {
    if k > 0 {
      assert nodes[list[k - 1]].prev == At(list, k - 2);
      BackIsLastBefore(nodes, p, list, k - 1, remaining - 1);
    }
  }

  lemma {:induction false} OnIsFirstFrom(nodes: seq<Node>, p: NodeId, list: seq<NodeId>, k: nat, remaining: nat)
    requires p < |nodes| && ListLinked(nodes, p, list) && k <= |list| && |list| - k <= remaining
    ensures WalkOn(nodes, At(list, k), remaining) == FirstFrom(nodes, list, k)
    decreases |list| - k
  {
    if k < |list| {
      assert nodes[list[k]].next == At(list, k + 1);
      OnIsFirstFrom(nodes, p, list, k + 1, remaining - 1);
    }
  }

  lemma LastStep(nodes: seq<Node>, list: seq<NodeId>, k: nat)
    requires k <= |list|
    ensures LastBefore(nodes, list, k) ==
            if k == 0 then None
            else if IsElement(nodes, list[k - 1]) then Some(list[k - 1])
            else LastBefore(nodes, list, k - 1)
  {
  }

  lemma FirstStep(nodes: seq<Node>, list: seq<NodeId>, k: nat)
    requires k <= |list|
    ensures FirstFrom(nodes, list, k) ==
            if k == |list| then None
            else if IsElement(nodes, list[k]) then Some(list[k])
            else FirstFrom(nodes, list, k + 1)
  {
  }

  /** A child of none of the first `n` nodes. */
  ghost predicate Unlisted(kids: Kids, n: nat, c: NodeId)
    requires n <= |kids|
  {
    forall p :: 0 <= p < n ==> c !in kids[p]
  }

  lemma UnlistedStep(kids: Kids, p: nat, c: NodeId)
    requires p < |kids| && Unlisted(kids, p + 1, c)
    ensures Unlisted(kids, p, c) && c !in kids[p]
  {
  }

  /** The three links every node should get. */
  ghost predicate Correct(nodes: seq<Node>, kids: Kids, prev: seq<Option<NodeId>>, next: seq<Option<NodeId>>,
                          first: seq<Option<NodeId>>, n: nat)
    requires |nodes| == |kids| == |prev| == |next| == |first| && n <= |kids|
  {
    && (forall p :: 0 <= p < n ==> first[p] == FirstFrom(nodes, kids[p], 0))
    && (forall p, i :: 0 <= p < n && 0 <= i < |kids[p]| && kids[p][i] < |prev| ==>
          && prev[kids[p][i]] == LastBefore(nodes, kids[p], i)
          && next[kids[p][i]] == FirstFrom(nodes, kids[p], i + 1))
    && (forall c :: 0 <= c < |nodes| && Unlisted(kids, n, c) ==> prev[c] == None && next[c] == None)
  }

  /** On a well-formed document they are, for every node, what walking the sibling links would find. */
  lemma LinksAreWalks(nodes: seq<Node>, kids: Kids, prev: seq<Option<NodeId>>, next: seq<Option<NodeId>>,
                      first: seq<Option<NodeId>>, c: NodeId)
    requires Linked(nodes, kids) && Lists(kids) && |prev| == |next| == |first| == |nodes| == |kids| && c < |nodes|
    requires Correct(nodes, kids, prev, next, first, |kids|)
    ensures prev[c] == WalkBack(nodes, nodes[c].prev, |nodes|)
    ensures next[c] == WalkOn(nodes, nodes[c].next, |nodes|)
    ensures first[c] == WalkOn(nodes, nodes[c].firstChild, |nodes|)
  {
    hide ParentLinked, IsElement, WalkBack, WalkOn, LastBefore, FirstFrom;
    assert ListLinked(nodes, c, kids[c]);
    ChildListFits(kids, c);
    OnIsFirstFrom(nodes, c, kids[c], 0, |nodes|);
    FirstIsAt(kids[c]);
    var parent := ParentOf(kids, c);
    if parent.Some? {
      var p := parent.value;
      var i :| 0 <= i < |kids[p]| && kids[p][i] == c;
      ChildListFits(kids, p);
      assert ListLinked(nodes, p, kids[p]);
      assert nodes[kids[p][i]].prev == At(kids[p], i - 1);
      BackIsLastBefore(nodes, p, kids[p], i, |nodes|);
      OnIsFirstFrom(nodes, p, kids[p], i + 1, |nodes|);
    } else {
      OrphanWalks(nodes, kids, c);
    }
  }

  lemma FirstIsAt(list: seq<NodeId>)
    ensures First(list) == At(list, 0)
  {
  }

  lemma OrphanWalks(nodes: seq<Node>, kids: Kids, c: NodeId)
    requires Linked(nodes, kids) && Lists(kids) && c < |nodes| && ParentOf(kids, c).None?
    ensures WalkBack(nodes, nodes[c].prev, |nodes|) == None && WalkOn(nodes, nodes[c].next, |nodes|) == None
  {
    ParentAgrees(nodes, kids, c);
    assert ParentLinked(nodes, kids, c);
  }

  lemma ChildListFits(kids: Kids, p: NodeId)
    requires Lists(kids) && p < |kids|
    ensures |kids[p]| <= |kids|
  {
    T.KidsInRange(kids, p);
    T.DistinctIsBounded(kids[p], |kids|);
  }

  // ----- what the two passes write, on any links -----

  /** The children iterator's nodes that the arena has. */
  function Present(nodes: seq<Node>, ids: seq<NodeId>): (r: seq<NodeId>)
    ensures |r| <= |ids| && forall i :: 0 <= i < |r| ==> r[i] < |nodes|
  {
    if ids == [] then [] else (if ids[0] < |nodes| then [ids[0]] else []) + Present(nodes, ids[1..])
  }

  function ChildList(nodes: seq<Node>, p: NodeId): seq<NodeId> {
    Present(nodes, T.ChildrenOf(nodes, p))
  }

  /** A column of links after the forward pass over the first `k` children. */
  function Forward(nodes: seq<Node>, column: seq<Option<NodeId>>, list: seq<NodeId>, k: nat): (r: seq<Option<NodeId>>)
    requires k <= |list| && forall i :: 0 <= i < |list| ==> list[i] < |column|
    ensures |r| == |column|
  {
    if k == 0 then column else Forward(nodes, column, list, k - 1)[list[k - 1] := LastBefore(nodes, list, k - 1)]
  }

  /** A column of links after the backward pass down to the `k`-th child. */
  function Backward(nodes: seq<Node>, column: seq<Option<NodeId>>, list: seq<NodeId>, k: nat): (r: seq<Option<NodeId>>)
    requires k <= |list| && forall i :: 0 <= i < |list| ==> list[i] < |column|
    ensures |r| == |column|
    decreases |list| - k
  {
    if k == |list| then column else Backward(nodes, column, list, k + 1)[list[k] := FirstFrom(nodes, list, k + 1)]
  }

  datatype Links = Links(prev: seq<Option<NodeId>>, next: seq<Option<NodeId>>, first: seq<Option<NodeId>>)

  /** The links after the first `n` parents. */
  function LinksThrough(nodes: seq<Node>, n: nat): (r: Links)
    requires n <= |nodes|
    ensures |r.prev| == |r.next| == |r.first| == |nodes|
  {
    if n == 0 then
      Links(seq(|nodes|, _ => None), seq(|nodes|, _ => None), seq(|nodes|, _ => None))
    else
      var before, list := LinksThrough(nodes, n - 1), ChildList(nodes, n - 1);
      Links(Forward(nodes, before.prev, list, |list|), Backward(nodes, before.next, list, 0),
            before.first[n - 1 := FirstFrom(nodes, list, 0)])
  }

  // ----- on a well-formed document -----

  lemma {:induction false} AllPresent(nodes: seq<Node>, ids: seq<NodeId>)
    requires forall i :: 0 <= i < |ids| ==> ids[i] < |nodes|
    ensures Present(nodes, ids) == ids
  {
    if ids != [] {
      AllPresent(nodes, ids[1..]);
    }
  }

  lemma ChildListIsKids(nodes: seq<Node>, kids: Kids, p: NodeId)
    requires Linked(nodes, kids) && Lists(kids) && p < |kids|
    ensures |nodes| == |kids| && ChildList(nodes, p) == kids[p]
    ensures Distinct(kids[p]) && forall i :: 0 <= i < |kids[p]| ==> kids[p][i] < |nodes|
  {
    T.ChildrenAreKids(nodes, kids, p);
    T.KidsInRange(kids, p);
    AllPresent(nodes, kids[p]);
  }

  lemma OnceInList(list: seq<NodeId>, k: nat)
    requires Distinct(list) && k < |list|
    ensures forall i :: 0 <= i < |list| && i != k ==> list[i] != list[k]
    ensures forall c :: c in list[..k + 1] <==> c in list[..k] || c == list[k]
    ensures forall c :: c in list[k..] <==> c == list[k] || c in list[k + 1..]
  {
    assert list[..k + 1] == list[..k] + [list[k]] && list[k..] == [list[k]] + list[k + 1..];
  }

  lemma {:induction false} ForwardAt(nodes: seq<Node>, column: seq<Option<NodeId>>, list: seq<NodeId>, k: nat)
    requires k <= |list| && Distinct(list) && forall i :: 0 <= i < |list| ==> list[i] < |column|
    ensures forall i :: 0 <= i < k ==> Forward(nodes, column, list, k)[list[i]] == LastBefore(nodes, list, i)
    ensures forall c :: 0 <= c < |column| && c !in list[..k] ==> Forward(nodes, column, list, k)[c] == column[c]
  {
    hide LastBefore, Distinct;
    if k > 0 {
      ForwardAt(nodes, column, list, k - 1);
      OnceInList(list, k - 1);
    }
  }

  lemma {:induction false} BackwardAt(nodes: seq<Node>, column: seq<Option<NodeId>>, list: seq<NodeId>, k: nat)
    requires k <= |list| && Distinct(list) && forall i :: 0 <= i < |list| ==> list[i] < |column|
    ensures forall i :: k <= i < |list| ==> Backward(nodes, column, list, k)[list[i]] == FirstFrom(nodes, list, i + 1)
    ensures forall c :: 0 <= c < |column| && c !in list[k..] ==> Backward(nodes, column, list, k)[c] == column[c]
    decreases |list| - k
  {
    hide FirstFrom, Distinct;
    if k < |list| {
      BackwardAt(nodes, column, list, k + 1);
      OnceInList(list, k);
    }
  }

  /** On a well-formed document the passes give every node its three links. */
  lemma {:induction false} LinksAreCorrect(nodes: seq<Node>, kids: Kids, n: nat)
    requires Linked(nodes, kids) && Lists(kids) && n <= |kids|
    ensures var r := LinksThrough(nodes, n); Correct(nodes, kids, r.prev, r.next, r.first, n)
  {
    hide FirstFrom, LastBefore, ListLinked, ParentLinked, Lists, Correct, ChildList, Forward, Backward;
    if n == 0 {
      NothingLinked(nodes, kids);
    } else {
      LinksAreCorrect(nodes, kids, n - 1);
      ChildListIsKids(nodes, kids, n - 1);
      var before, list := LinksThrough(nodes, n - 1), kids[n - 1];
      ForwardAt(nodes, before.prev, list, |list|);
      BackwardAt(nodes, before.next, list, 0);
      assert list[..|list|] == list && list[0..] == list;
      var r := LinksThrough(nodes, n);
      OneMoreParent(nodes, kids, before.prev, before.next, before.first, r.prev, r.next, r.first, n - 1);
    }
  }

  lemma NothingLinked(nodes: seq<Node>, kids: Kids)
    requires |nodes| == |kids|
    ensures var r := LinksThrough(nodes, 0); Correct(nodes, kids, r.prev, r.next, r.first, 0)
  {
  }

  lemma ListsApart(kids: Kids, p: NodeId, q: NodeId, c: NodeId)
    requires Lists(kids) && q < p < |kids| && c in kids[q]
    ensures c !in kids[p]
  {
  }

  lemma OneMoreParent(nodes: seq<Node>, kids: Kids, prev0: seq<Option<NodeId>>, next0: seq<Option<NodeId>>,
                      first0: seq<Option<NodeId>>,
                      prev: seq<Option<NodeId>>, next: seq<Option<NodeId>>, first: seq<Option<NodeId>>, p: NodeId)
    requires |nodes| == |kids| == |prev0| == |next0| == |first0| == |prev| == |next| == |first| && p < |kids|
             && Lists(kids)
    requires Correct(nodes, kids, prev0, next0, first0, p)
    requires forall i :: 0 <= i < |kids[p]| && kids[p][i] < |prev| ==>
               prev[kids[p][i]] == LastBefore(nodes, kids[p], i) && next[kids[p][i]] == FirstFrom(nodes, kids[p], i + 1)
    requires first[p] == FirstFrom(nodes, kids[p], 0)
    requires forall c :: 0 <= c < |nodes| && c !in kids[p] ==> prev[c] == prev0[c] && next[c] == next0[c]
    requires forall q :: 0 <= q < |nodes| && q != p ==> first[q] == first0[q]
    ensures Correct(nodes, kids, prev, next, first, p + 1)
  {
    hide FirstFrom, LastBefore, Lists, Unlisted;
    forall q, i | 0 <= q < p + 1 && 0 <= i < |kids[q]| && kids[q][i] < |prev|
      ensures prev[kids[q][i]] == LastBefore(nodes, kids[q], i) && next[kids[q][i]] == FirstFrom(nodes, kids[q], i + 1)
    {
      if q < p {
        assert kids[q][i] in kids[q];
        ListsApart(kids, p, q, kids[q][i]);
      }
    }
    forall c | 0 <= c < |nodes| && Unlisted(kids, p + 1, c) ensures prev[c] == None && next[c] == None {
      UnlistedStep(kids, p, c);
    }
  }

  // ----- the arena -----

  class NodeArena {
    const nodes: seq<Node>
    var linked: bool
    const prev: array<Option<NodeId>>
    const next: array<Option<NodeId>>
    const first: array<Option<NodeId>>

    constructor (nodes: seq<Node>)
      ensures this.nodes == nodes && Valid() && !linked
      ensures fresh(prev) && fresh(next) && fresh(first)
    {
      this.nodes := nodes;
      linked := false;
      prev := new Option<NodeId>[|nodes|](_ => None);
      next := new Option<NodeId>[|nodes|](_ => None);
      first := new Option<NodeId>[|nodes|](_ => None);
    }

    ghost predicate Sized() {
      && prev.Length == next.Length == first.Length == |nodes|
      && prev != next && prev != first && next != first
    }

    ghost function Columns(): Links
      reads prev, next, first
    {
      Links(prev[..], next[..], first[..])
    }

    /** No link before the passes have run, all of them after. */
    ghost predicate Valid()
      reads this, prev, next, first
    {
      Sized() && Columns() == LinksThrough(nodes, if linked then |nodes| else 0)
    }

    /** Front to back, carrying the last element passed. */
    method LinkForward(list: seq<NodeId>)
      requires Sized() && forall i :: 0 <= i < |list| ==> list[i] < |nodes|
      modifies prev
      ensures prev[..] == Forward(nodes, old(prev[..]), list, |list|)
    {
      hide IsElement, LastBefore;
      var previous: Option<NodeId> := None;
      LastStep(nodes, list, 0);
      for k := 0 to |list|
        invariant previous == LastBefore(nodes, list, k)
        invariant prev[..] == Forward(nodes, old(prev[..]), list, k)
      {
        LastStep(nodes, list, k + 1);
        prev[list[k]] := previous;
        if IsElement(nodes, list[k]) {
          previous := Some(list[k]);
        }
      }
    }

    /** Back to front, carrying the first element ahead; what is carried out is the first of all. */
    method LinkBackward(list: seq<NodeId>) returns (following: Option<NodeId>)
      requires Sized() && forall i :: 0 <= i < |list| ==> list[i] < |nodes|
      modifies next
      ensures next[..] == Backward(nodes, old(next[..]), list, 0)
      ensures following == FirstFrom(nodes, list, 0)
    {
      hide IsElement, FirstFrom;
      following := None;
      FirstStep(nodes, list, |list|);
      var k: nat := |list|;
      while k > 0
        invariant k <= |list|
        invariant following == FirstFrom(nodes, list, k)
        invariant next[..] == Backward(nodes, old(next[..]), list, k)
      {
        k := k - 1;
        FirstStep(nodes, list, k);
        next[list[k]] := following;
        if IsElement(nodes, list[k]) {
          following := Some(list[k]);
        }
      }
    }

    /** The children of `p` that the arena has; what else a corrupted list names is passed over. */
    method CollectChildren(p: NodeId) returns (list: seq<NodeId>)
      ensures list == ChildList(nodes, p)
    {
      hide Present;
      var walk := new T.Children(nodes, p);
      var all := walk.Collect();
      list := [];
      assert all[0..] == all && [] + Present(nodes, all) == Present(nodes, all);
      for k := 0 to |all|
        invariant list + Present(nodes, all[k..]) == Present(nodes, all)
      {
        PresentStep(nodes, all, k, list);
        if all[k] < |nodes| {
          list := list + [all[k]];
        }
      }
      NonePresent(nodes, all, list);
    }

    /**
     * Runs once, on any links at all; a second call changes nothing. Where the links
     * picture a document's child lists, every node has its three links.
     */
    method Link()
      requires Valid()
      modifies this, prev, next, first
      ensures Valid() && linked
      ensures old(linked) ==> Columns() == old(Columns())
      ensures forall kids :: Linked(nodes, kids) && Lists(kids) ==>
              Correct(nodes, kids, prev[..], next[..], first[..], |kids|)
    {
      hide FirstFrom, LastBefore, Linked, Lists, ChildList, Forward, Backward, Correct, LinksThrough;
      if !linked {
        linked := true;
        for p := 0 to |nodes|
          invariant linked && Columns() == LinksThrough(nodes, p)
        {
          var list := CollectChildren(p);
          ghost var was := Columns();
          ChildrenPresent(nodes, p);
          LinkForward(list);
          var following := LinkBackward(list);
          first[p] := following;
          LinksStep(nodes, p);
        }
      }
      AllCorrect(nodes);
    }
  }

  lemma PresentFirst(nodes: seq<Node>, all: seq<NodeId>, k: nat)
    requires k < |all|
    ensures Present(nodes, all[k..]) == (if all[k] < |nodes| then [all[k]] else []) + Present(nodes, all[k + 1..])
  {
    var from := all[k..];
    assert from != [] && from[0] == all[k] && from[1..] == all[k + 1..];
  }

  lemma PresentStep(nodes: seq<Node>, all: seq<NodeId>, k: nat, list: seq<NodeId>)
    requires k < |all|
    ensures list + Present(nodes, all[k..])
            == (if all[k] < |nodes| then list + [all[k]] else list) + Present(nodes, all[k + 1..])
  {
    hide Present;
    PresentFirst(nodes, all, k);
    Regroup(list, if all[k] < |nodes| then [all[k]] else [], Present(nodes, all[k + 1..]));
  }

  lemma Regroup(a: seq<NodeId>, b: seq<NodeId>, c: seq<NodeId>)
    ensures a + (b + c) == (a + b) + c && a + [] == a
  {
  }

  lemma NonePresent(nodes: seq<Node>, all: seq<NodeId>, list: seq<NodeId>)
    ensures list + Present(nodes, all[|all|..]) == list
  {
  }

  lemma ChildrenPresent(nodes: seq<Node>, p: NodeId)
    ensures forall i :: 0 <= i < |ChildList(nodes, p)| ==> ChildList(nodes, p)[i] < |nodes|
  {
  }

  lemma LinksStep(nodes: seq<Node>, p: nat)
    requires p < |nodes|
    ensures var before, list := LinksThrough(nodes, p), ChildList(nodes, p);
            && (forall i :: 0 <= i < |list| ==> list[i] < |nodes|)
            && LinksThrough(nodes, p + 1)
               == Links(Forward(nodes, before.prev, list, |list|), Backward(nodes, before.next, list, 0),
                        before.first[p := FirstFrom(nodes, list, 0)])
  {
  }

  lemma AllCorrect(nodes: seq<Node>)
    ensures forall kids :: Linked(nodes, kids) && Lists(kids) ==>
              var r := LinksThrough(nodes, |nodes|);
              |nodes| == |kids| && Correct(nodes, kids, r.prev, r.next, r.first, |kids|)
  {
    hide Correct, LinksThrough;
    forall kids | Linked(nodes, kids) && Lists(kids)
      ensures var r := LinksThrough(nodes, |nodes|);
              |nodes| == |kids| && Correct(nodes, kids, r.prev, r.next, r.first, |kids|)
    {
      LinksAreCorrect(nodes, kids, |kids|);
    }
  }

  // ----- the links in the document's own terms -----

  predicate IsTag(nodes: seq<Node>, c: NodeId) {
    c < |nodes| && nodes[c].kind.Element?
  }

  /** `e` is the nearest element of the list before position `k`, if there is one. */
  predicate NearestBefore(nodes: seq<Node>, list: seq<NodeId>, k: nat, e: Option<NodeId>)
    requires k <= |list|
  {
    if e.None? then forall j :: 0 <= j < k ==> !IsTag(nodes, list[j])
    else exists i :: 0 <= i < k && list[i] == e.value && IsTag(nodes, list[i])
                     && forall j :: i < j < k ==> !IsTag(nodes, list[j])
  }

  /** `e` is the nearest element of the list from position `k` on, if there is one. */
  predicate NearestFrom(nodes: seq<Node>, list: seq<NodeId>, k: nat, e: Option<NodeId>)
    requires k <= |list|
  {
    if e.None? then forall j :: k <= j < |list| ==> !IsTag(nodes, list[j])
    else exists i :: k <= i < |list| && list[i] == e.value && IsTag(nodes, list[i])
                     && forall j :: k <= j < i ==> !IsTag(nodes, list[j])
  }

  lemma {:induction false} LastIsNearest(nodes: seq<Node>, list: seq<NodeId>, k: nat)
    requires k <= |list|
    ensures NearestBefore(nodes, list, k, LastBefore(nodes, list, k))
  {
    if k > 0 {
      LastIsNearest(nodes, list, k - 1);
    }
  }

  lemma {:induction false} FirstIsNearest(nodes: seq<Node>, list: seq<NodeId>, k: nat)
    requires k <= |list|
    ensures NearestFrom(nodes, list, k, FirstFrom(nodes, list, k))
    decreases |list| - k
  {
    if k < |list| {
      FirstIsNearest(nodes, list, k + 1);
    }
  }

  /**
   * Every child is linked to the nearest elements on both sides among its siblings, every
   * parent to its first element child, and a node without a parent to none.
   */
  lemma LinksAreNearest(nodes: seq<Node>, kids: Kids)
    requires Linked(nodes, kids) && Lists(kids)
    ensures |nodes| == |kids|
    ensures var r := LinksThrough(nodes, |nodes|);
            && (forall p :: 0 <= p < |kids| ==> NearestFrom(nodes, kids[p], 0, r.first[p]))
            && (forall p, i :: 0 <= p < |kids| && 0 <= i < |kids[p]| && kids[p][i] < |nodes| ==>
                  && NearestBefore(nodes, kids[p], i, r.prev[kids[p][i]])
                  && NearestFrom(nodes, kids[p], i + 1, r.next[kids[p][i]]))
            && (forall c :: 0 <= c < |nodes| && Unlisted(kids, |kids|, c) ==> r.prev[c] == None && r.next[c] == None)
  {
    hide LinksThrough, NearestFrom, NearestBefore, ParentLinked;
    AllCorrect(nodes);
    var r := LinksThrough(nodes, |nodes|);
    assert Correct(nodes, kids, r.prev, r.next, r.first, |kids|);
    forall p | 0 <= p < |kids| ensures NearestFrom(nodes, kids[p], 0, r.first[p]) {
      FirstIsNearest(nodes, kids[p], 0);
    }
    forall p, i | 0 <= p < |kids| && 0 <= i < |kids[p]| && kids[p][i] < |nodes|
      ensures NearestBefore(nodes, kids[p], i, r.prev[kids[p][i]])
      ensures NearestFrom(nodes, kids[p], i + 1, r.next[kids[p][i]])
    {
      LastIsNearest(nodes, kids[p], i);
      FirstIsNearest(nodes, kids[p], i + 1);
    }
  }
}
