/**
 * The document arena: nodes in one flat sequence, five links each, edited in
 * place. `kids` is the abstract document of Forest; every method keeps the links
 * an exact picture of it and performs exactly the matching abstract step.
 */
module Dom {
  import opened Wrappers
  import opened Forest

  datatype NodeKind = Document | Doctype | Element(name: string) | Text(text: string) | Comment | Instruction | Fragment

  datatype Node = Node(
    kind: NodeKind,
    parent: Option<NodeId>,
    firstChild: Option<NodeId>,
    lastChild: Option<NodeId>,
    prev: Option<NodeId>,
    next: Option<NodeId>)

  function NewNode(kind: NodeKind): Node {
    Node(kind, None, None, None, None, None)
  }

  function First(s: seq<NodeId>): Option<NodeId> {
    if s == [] then None else Some(s[0])
  }

  function Last(s: seq<NodeId>): Option<NodeId> {
    if s == [] then None else Some(s[|s| - 1])
  }

  function At(s: seq<NodeId>, i: int): Option<NodeId> {
    if 0 <= i < |s| then Some(s[i]) else None
  }

  /** The links of `p` and of its children spell out exactly the list `list`. */
  ghost predicate ListLinked(nodes: seq<Node>, p: NodeId, list: seq<NodeId>)
    requires p < |nodes|
  {
    && nodes[p].firstChild == First(list)
    && nodes[p].lastChild == Last(list)
    && (forall i :: 0 <= i < |list| ==> list[i] < |nodes|)
    && forall i {:trigger nodes[list[i]]} :: 0 <= i < |list| ==>
         && nodes[list[i]].parent == Some(p)
         && nodes[list[i]].prev == At(list, i - 1)
         && nodes[list[i]].next == At(list, i + 1)
  }

  /** A node with a parent is in that parent's list; one without has no siblings. */
  ghost predicate ParentLinked(nodes: seq<Node>, kids: Kids, c: NodeId)
    requires c < |nodes|
  {
    match nodes[c].parent
    case Some(p) => p < |kids| && c in kids[p]
    case None => nodes[c].prev.None? && nodes[c].next.None?
  }

  ghost predicate Linked(nodes: seq<Node>, kids: Kids) {
    && |nodes| == |kids|
    && (forall p :: 0 <= p < |nodes| ==> ListLinked(nodes, p, kids[p]))
    && (forall c :: 0 <= c < |nodes| ==> ParentLinked(nodes, kids, c))
  }

  lemma ParentAgrees(nodes: seq<Node>, kids: Kids, c: NodeId)
    requires Linked(nodes, kids) && Lists(kids) && c < |nodes|
    ensures nodes[c].parent == ParentOf(kids, c)
  {
    var p := ParentOf(kids, c);
    if p.Some? {
      var i :| 0 <= i < |kids[p.value]| && kids[p.value][i] == c;
      assert ListLinked(nodes, p.value, kids[p.value]);
    } else {
      assert ParentLinked(nodes, kids, c);
    }
  }

  /** Sibling and parent links agree, and likewise for the child links. */
  predicate SameSiblings(a: Node, b: Node) {
    a.parent == b.parent && a.prev == b.prev && a.next == b.next
  }

  predicate SameEnds(a: Node, b: Node) {
    a.firstChild == b.firstChild && a.lastChild == b.lastChild
  }

  predicate SameKinds(a: seq<Node>, b: seq<Node>) {
    |a| == |b| && forall i :: 0 <= i < |a| ==> a[i].kind == b[i].kind
  }

  /** Rewriting one parent's list touches no other list. */
  lemma Relinked(nodes: seq<Node>, kids: Kids, after: seq<Node>, p: NodeId, list: seq<NodeId>)
    requires Linked(nodes, kids) && Lists(kids) && |after| == |nodes| && p < |nodes|
    requires ListLinked(after, p, list)
    requires forall q :: 0 <= q < |nodes| && q != p ==> SameEnds(after[q], nodes[q])
    requires forall x :: 0 <= x < |nodes| && x !in kids[p] && x !in list ==> SameSiblings(after[x], nodes[x])
    requires forall x :: 0 <= x < |nodes| && x in kids[p] && x !in list ==>
               after[x].parent.None? && after[x].prev.None? && after[x].next.None?
    requires forall x :: 0 <= x < |nodes| && x in list && x !in kids[p] ==> nodes[x].parent.None?
    ensures Linked(after, kids[p := list])
  {
    var kids' := kids[p := list];
    forall q | 0 <= q < |nodes| && q != p ensures ListLinked(after, q, kids[q]) {
      assert ListLinked(nodes, q, kids[q]);
      forall i | 0 <= i < |kids[q]| ensures SameSiblings(after[kids[q][i]], nodes[kids[q][i]]) {
        var x := kids[q][i];
        assert x in kids[q] && nodes[x].parent == Some(q);
      }
    }
    forall c | 0 <= c < |nodes| ensures ParentLinked(after, kids', c) {
      assert ParentLinked(nodes, kids, c);
      if c in list {
        var i :| 0 <= i < |list| && list[i] == c;
      }
    }
  }

  /** The neighbours of a listed node are the ones its links name. */
  lemma Neighbours(nodes: seq<Node>, kids: Kids, c: NodeId)
    requires Linked(nodes, kids) && Lists(kids) && c < |nodes| && nodes[c].parent.Some?
    ensures var p := nodes[c].parent.value;
            && p < |nodes| && c in kids[p]
            && var k := IndexOf(kids[p], c);
               && nodes[c].prev == At(kids[p], k - 1) && nodes[c].next == At(kids[p], k + 1)
               && (k > 0 <==> nodes[c].prev.Some?) && (k + 1 < |kids[p]| <==> nodes[c].next.Some?)
  {
    assert ParentLinked(nodes, kids, c);
    assert ListLinked(nodes, nodes[c].parent.value, kids[nodes[c].parent.value]);
  }

  /** The list after one member has been skipped over in both directions. */
  lemma SkippedLinked(nodes: seq<Node>, p: NodeId, list: seq<NodeId>, k: nat)
    requires p < |nodes| && k < |list| && forall i :: 0 <= i < |list| ==> list[i] < |nodes|
    requires nodes[p].firstChild == (if k == 0 then At(list, 1) else First(list))
    requires nodes[p].lastChild == (if k == |list| - 1 then At(list, k - 1) else Last(list))
    requires forall i {:trigger nodes[list[i]]} :: 0 <= i < |list| && i != k ==>
               && nodes[list[i]].parent == Some(p)
               && nodes[list[i]].prev == (if i == k + 1 then At(list, k - 1) else At(list, i - 1))
               && nodes[list[i]].next == (if i == k - 1 then At(list, k + 1) else At(list, i + 1))
    ensures ListLinked(nodes, p, list[..k] + list[k + 1..])
  {
    var r := list[..k] + list[k + 1..];
    forall j | 0 <= j < |r|
      ensures nodes[r[j]].parent == Some(p) && nodes[r[j]].prev == At(r, j - 1) && nodes[r[j]].next == At(r, j + 1)
    {
      var i := if j < k then j else j + 1;
      assert r[j] == list[i];
      assert nodes[list[i]].parent == Some(p);
    }
  }

  /** Points the forward link that leads to the place after `prev` under `p` at `target`. */
  function PointForward(nodes: seq<Node>, p: NodeId, prev: Option<NodeId>, target: Option<NodeId>): (r: seq<Node>)
    requires p < |nodes| && (prev.Some? ==> prev.value < |nodes|)
    ensures |r| == |nodes| && SameKinds(r, nodes)
    ensures forall x :: 0 <= x < |nodes| ==>
              r[x] == nodes[x].(next := if prev == Some(x) then target else nodes[x].next,
                                firstChild := if prev.None? && x == p then target else nodes[x].firstChild)
  {
    match prev
    case Some(q) => nodes[q := nodes[q].(next := target)]
    case None => nodes[p := nodes[p].(firstChild := target)]
  }

  /** Points the backward link that leads to the place before `next` under `p` at `target`. */
  function PointBackward(nodes: seq<Node>, p: NodeId, next: Option<NodeId>, target: Option<NodeId>): (r: seq<Node>)
    requires p < |nodes| && (next.Some? ==> next.value < |nodes|)
    ensures |r| == |nodes| && SameKinds(r, nodes)
    ensures forall x :: 0 <= x < |nodes| ==>
              r[x] == nodes[x].(prev := if next == Some(x) then target else nodes[x].prev,
                                lastChild := if next.None? && x == p then target else nodes[x].lastChild)
  {
    match next
    case Some(q) => nodes[q := nodes[q].(prev := target)]
    case None => nodes[p := nodes[p].(lastChild := target)]
  }

  /** The nodes after `id` has been cut out of its parent's list. */
  function CutOut(nodes: seq<Node>, id: NodeId): (r: seq<Node>)
    requires id < |nodes| && nodes[id].parent.Some? && nodes[id].parent.value < |nodes|
    requires nodes[id].prev.Some? ==> nodes[id].prev.value < |nodes|
    requires nodes[id].next.Some? ==> nodes[id].next.value < |nodes|
    ensures |r| == |nodes| && SameKinds(r, nodes)
  {
    var node := nodes[id];
    var r := PointBackward(PointForward(nodes, node.parent.value, node.prev, node.next), node.parent.value,
                           node.next, node.prev);
    r[id := r[id].(parent := None, prev := None, next := None)]
  }

  lemma CutListLinked(nodes: seq<Node>, id: NodeId, p: NodeId, list: seq<NodeId>, k: nat)
    requires p < |nodes| && id < |nodes| && ListLinked(nodes, p, list) && Distinct(list) && k < |list| && list[k] == id
    ensures nodes[id].parent == Some(p) && nodes[id].prev == At(list, k - 1) && nodes[id].next == At(list, k + 1)
    ensures ListLinked(CutOut(nodes, id), p, list[..k] + list[k + 1..])
  {
    hide PointForward, PointBackward;
    var after := CutOut(nodes, id);
    forall i {:trigger after[list[i]]} | 0 <= i < |list| && i != k
      ensures after[list[i]].parent == Some(p)
      ensures after[list[i]].prev == (if i == k + 1 then At(list, k - 1) else At(list, i - 1))
      ensures after[list[i]].next == (if i == k - 1 then At(list, k + 1) else At(list, i + 1))
    {
      assert nodes[list[i]].parent == Some(p);
    }
    SkippedLinked(after, p, list, k);
  }

  lemma CutLinked(nodes: seq<Node>, kids: Kids, id: NodeId)
    requires Linked(nodes, kids) && Lists(kids) && id < |nodes| && nodes[id].parent.Some?
    ensures var p := nodes[id].parent.value;
            && p < |nodes|
            && (nodes[id].prev.Some? ==> nodes[id].prev.value < |nodes|)
            && (nodes[id].next.Some? ==> nodes[id].next.value < |nodes|)
            && Linked(CutOut(nodes, id), Unlinked(kids, id))
  {
    hide PointForward, PointBackward;
    var p := nodes[id].parent.value;
    ParentAgrees(nodes, kids, id);
    Neighbours(nodes, kids, id);
    var list, k := kids[p], IndexOf(kids[p], id);
    assert ListLinked(nodes, p, list);
    var after := CutOut(nodes, id);
    CutListLinked(nodes, id, p, list, k);
    WithoutMembers(list, id);
    CutElsewhere(nodes, id, p, list, k);
    Relinked(nodes, kids, after, p, Without(list, id));
  }

  lemma CutElsewhere(nodes: seq<Node>, id: NodeId, p: NodeId, list: seq<NodeId>, k: nat)
    requires p < |nodes| && id < |nodes| && k < |list| && list[k] == id
    requires forall i :: 0 <= i < |list| ==> list[i] < |nodes|
    requires nodes[id].parent == Some(p) && nodes[id].prev == At(list, k - 1) && nodes[id].next == At(list, k + 1)
    ensures var after := CutOut(nodes, id);
            && (forall q :: 0 <= q < |nodes| && q != p ==> SameEnds(after[q], nodes[q]))
            && (forall x :: 0 <= x < |nodes| && x !in list ==> SameSiblings(after[x], nodes[x]))
            && after[id].parent.None? && after[id].prev.None? && after[id].next.None?
  {
    hide PointForward, PointBackward;
  }

  /** The nodes after a parentless `child` has been linked in between `prev` and `next` under `p`. */
  function LinkedIn(nodes: seq<Node>, p: NodeId, prev: Option<NodeId>, next: Option<NodeId>,
                    child: NodeId): (r: seq<Node>)
    requires p < |nodes| && child < |nodes|
    requires (prev.Some? ==> prev.value < |nodes|) && (next.Some? ==> next.value < |nodes|)
    ensures |r| == |nodes| && SameKinds(r, nodes)
  {
    var r := nodes[child := nodes[child].(parent := Some(p), prev := prev, next := next)];
    PointBackward(PointForward(r, p, prev, Some(child)), p, next, Some(child))
  }

  lemma SplicedLinked(nodes: seq<Node>, p: NodeId, list: seq<NodeId>, k: nat, child: NodeId)
    requires p < |nodes| && child < |nodes| && k <= |list| && forall i :: 0 <= i < |list| ==> list[i] < |nodes|
    requires nodes[p].firstChild == (if k == 0 then Some(child) else First(list))
    requires nodes[p].lastChild == (if k == |list| then Some(child) else Last(list))
    requires nodes[child].parent == Some(p) && nodes[child].prev == At(list, k - 1) && nodes[child].next == At(list, k)
    requires forall i {:trigger nodes[list[i]]} :: 0 <= i < |list| ==>
               && nodes[list[i]].parent == Some(p)
               && nodes[list[i]].prev == (if i == k then Some(child) else At(list, i - 1))
               && nodes[list[i]].next == (if i == k - 1 then Some(child) else At(list, i + 1))
    ensures ListLinked(nodes, p, list[..k] + [child] + list[k..])
  {
    var r := list[..k] + [child] + list[k..];
    forall j | 0 <= j < |r|
      ensures nodes[r[j]].parent == Some(p) && nodes[r[j]].prev == At(r, j - 1) && nodes[r[j]].next == At(r, j + 1)
    {
      if j != k {
        var i := if j < k then j else j - 1;
        assert r[j] == list[i];
        assert nodes[list[i]].parent == Some(p);
      }
    }
  }

  lemma InsertedSibling(nodes: seq<Node>, p: NodeId, list: seq<NodeId>, k: nat, child: NodeId, i: nat)
    requires p < |nodes| && child < |nodes| && k <= |list| && ListLinked(nodes, p, list) && Distinct(list)
             && child !in list
    requires i < |list|
    ensures var after := LinkedIn(nodes, p, At(list, k - 1), At(list, k), child)[list[i]];
            && after.parent == Some(p)
            && after.prev == (if i == k then Some(child) else At(list, i - 1))
            && after.next == (if i == k - 1 then Some(child) else At(list, i + 1))
  {
    hide PointForward, PointBackward;
    assert nodes[list[i]].parent == Some(p);
  }

  lemma InsertedLinked(nodes: seq<Node>, p: NodeId, list: seq<NodeId>, k: nat, child: NodeId)
    requires p < |nodes| && child < |nodes| && k <= |list| && ListLinked(nodes, p, list) && Distinct(list)
             && child !in list
    ensures var prev, next := At(list, k - 1), At(list, k);
            && (prev.Some? ==> prev.value < |nodes|) && (next.Some? ==> next.value < |nodes|)
            && ListLinked(LinkedIn(nodes, p, prev, next, child), p, list[..k] + [child] + list[k..])
  {
    hide PointForward, PointBackward;
    var after := LinkedIn(nodes, p, At(list, k - 1), At(list, k), child);
    forall i {:trigger after[list[i]]} | 0 <= i < |list|
      ensures after[list[i]].parent == Some(p)
      ensures after[list[i]].prev == (if i == k then Some(child) else At(list, i - 1))
      ensures after[list[i]].next == (if i == k - 1 then Some(child) else At(list, i + 1))
    {
      InsertedSibling(nodes, p, list, k, child, i);
    }
    SplicedLinked(after, p, list, k, child);
  }

  lemma InsertedElsewhere(nodes: seq<Node>, p: NodeId, list: seq<NodeId>, k: nat, child: NodeId)
    requires p < |nodes| && child < |nodes| && k <= |list| && forall i :: 0 <= i < |list| ==> list[i] < |nodes|
    ensures var after := LinkedIn(nodes, p, At(list, k - 1), At(list, k), child);
            && (forall q :: 0 <= q < |nodes| && q != p ==> SameEnds(after[q], nodes[q]))
            && (forall x :: 0 <= x < |nodes| && x !in list && x != child ==> SameSiblings(after[x], nodes[x]))
  {
    hide PointForward, PointBackward;
  }

  /** Linking a parentless node in at position `k` is the matching edit of the parent's list. */
  lemma LinkInLinked(nodes: seq<Node>, kids: Kids, p: NodeId, k: nat, child: NodeId)
    requires Linked(nodes, kids) && Lists(kids) && p < |nodes| && child < |nodes|
    requires ParentOf(kids, child).None? && k <= |kids[p]|
    ensures var list := kids[p];
            var prev, next := At(list, k - 1), At(list, k);
            && (prev.Some? ==> prev.value < |nodes|) && (next.Some? ==> next.value < |nodes|)
            && Linked(LinkedIn(nodes, p, prev, next, child), kids[p := list[..k] + [child] + list[k..]])
  {
    hide LinkedIn;
    var list := kids[p];
    ParentAgrees(nodes, kids, child);
    assert ListLinked(nodes, p, list);
    InsertedLinked(nodes, p, list, k, child);
    InsertedElsewhere(nodes, p, list, k, child);
    var longer := list[..k] + [child] + list[k..];
    assert forall x :: x in longer <==> x in list || x == child;
    Relinked(nodes, kids, LinkedIn(nodes, p, At(list, k - 1), At(list, k), child), p, longer);
  }

  lemma CreatedLinked(nodes: seq<Node>, kids: Kids, kind: NodeKind)
    requires Linked(nodes, kids) && Lists(kids)
    ensures Linked(nodes + [NewNode(kind)], kids + [[]])
  {
    var after, kids' := nodes + [NewNode(kind)], kids + [[]];
    forall p | 0 <= p < |nodes| ensures ListLinked(after, p, kids'[p]) {
      assert ListLinked(nodes, p, kids[p]);
    }
    forall c | 0 <= c < |nodes| ensures ParentLinked(after, kids', c) {
      assert ParentLinked(nodes, kids, c);
    }
  }

  lemma FirstLink(nodes: seq<Node>, kids: Kids, p: NodeId)
    requires Linked(nodes, kids) && p < |nodes|
    ensures nodes[p].firstChild == First(kids[p]) && nodes[p].lastChild == Last(kids[p])
  {
  }

  /** One turn of moving children over: the first child leaves one list and joins the end of the other. */
  lemma FirstChildMoves(kids: Kids, from: NodeId, to: NodeId)
    requires Lists(kids) && from < |kids| && to < |kids| && from != to && kids[from] != []
    ensures var c := kids[from][0];
            var cut := kids[from := kids[from][1..]];
            && c < |kids| && Unlinked(kids, c) == cut && Lists(cut) && ParentOf(cut, c).None?
            && Lists(cut[to := cut[to] + [c]])
  {
    var c := kids[from][0];
    var cut := kids[from := kids[from][1..]];
    ParentIs(kids, from, c);
    IndexIs(kids[from], c, 0);
    assert Without(kids[from], c) == kids[from][1..];
    WithoutMembers(kids[from], c);
    assert Lists(cut) && ParentOf(cut, c).None?;
    AppendedLists(cut, to, c);
  }

  /** The lists after the first `m` children of `from` have been moved to the end of `to`. */
  function PartlyMoved(kids: Kids, from: NodeId, to: NodeId, m: nat): Kids
    requires from < |kids| && to < |kids| && m <= |kids[from]|
  {
    kids[to := kids[to] + kids[from][..m]][from := kids[from][m..]]
  }

  lemma PartlyMovedEnds(kids: Kids, from: NodeId, to: NodeId)
    requires from < |kids| && to < |kids| && from != to
    ensures PartlyMoved(kids, from, to, 0) == kids
    ensures PartlyMoved(kids, from, to, |kids[from]|) == kids[to := kids[to] + kids[from]][from := []]
  {
    assert kids[to] + kids[from][..0] == kids[to];
    assert kids[from][..|kids[from]|] == kids[from];
    assert kids[from][|kids[from]|..] == [];
  }

  lemma PartlyMovedStep(kids: Kids, from: NodeId, to: NodeId, m: nat)
    requires from < |kids| && to < |kids| && from != to && m < |kids[from]|
    ensures var mid := PartlyMoved(kids, from, to, m);
            && |mid[from]| == |kids[from]| - m && mid[from][0] == kids[from][m]
            && var cut := mid[from := mid[from][1..]];
               PartlyMoved(kids, from, to, m + 1) == cut[to := cut[to] + [kids[from][m]]]
  {
    assert kids[from][..m + 1] == kids[from][..m] + [kids[from][m]];
    assert kids[to] + kids[from][..m + 1] == kids[to] + kids[from][..m] + [kids[from][m]];
  }

  lemma AppendedLists(kids: Kids, p: NodeId, c: NodeId)
    requires Lists(kids) && p < |kids| && 0 < c < |kids| && ParentOf(kids, c).None?
    ensures Lists(kids[p := kids[p] + [c]])
  {
  }

  class Document {
    var nodes: seq<Node>
    ghost var kids: Kids

    ghost predicate Valid()
      reads this
    {
      && 0 < |nodes| <= NODE_CAP
      && Forest.WellFormed(kids)
      && Linked(nodes, kids)
    }

    constructor ()
      ensures Valid() && kids == [[]] && nodes == [NewNode(NodeKind.Document)]
    {
      nodes := [NewNode(NodeKind.Document)];
      kids := [[]];
      new;
      assert Ranked(kids, [0]);
    }

    /** Takes `id` out of its parent's list, fixing up to four neighbouring links; nothing if it has no parent. */
    method Unlink(id: NodeId)
      requires Linked(nodes, kids) && Lists(kids) && id < |nodes|
      modifies this
      ensures Linked(nodes, kids) && kids == Unlinked(old(kids), id) && SameKinds(nodes, old(nodes))
    {
      ParentAgrees(nodes, kids, id);
      var node := nodes[id];
      if node.parent.None? {
        return;
      }
      CutLinked(nodes, kids, id);
      kids := Unlinked(kids, id);
      nodes := PointForward(nodes, node.parent.value, node.prev, node.next);
      nodes := PointBackward(nodes, node.parent.value, node.next, node.prev);
      nodes := nodes[id := nodes[id].(parent := None, prev := None, next := None)];
    }

    /** Links a parentless `child` in as `parent`'s last child. */
    method LinkLast(parent: NodeId, child: NodeId)
      requires Linked(nodes, kids) && Lists(kids) && parent < |nodes| && child < |nodes| && ParentOf(kids, child).None?
      modifies this
      ensures Linked(nodes, kids) && kids == old(kids)[parent := old(kids)[parent] + [child]]
      ensures SameKinds(nodes, old(nodes))
    {
      hide PointForward, PointBackward;
      ghost var list := kids[parent];
      assert ListLinked(nodes, parent, list);
      LinkInLinked(nodes, kids, parent, |list|, child);
      assert list[..|list|] + [child] + list[|list|..] == list + [child];
      kids := kids[parent := list + [child]];
      var oldLast := nodes[parent].lastChild;
      nodes := nodes[child := nodes[child].(parent := Some(parent), prev := oldLast, next := None)];
      nodes := PointForward(nodes, parent, oldLast, Some(child));
      nodes := PointBackward(nodes, parent, None, Some(child));
    }

    /** Links a parentless `added` in directly before `sibling`, a child of `parent`. */
    method LinkBefore(parent: NodeId, sibling: NodeId, added: NodeId)
      requires Linked(nodes, kids) && Lists(kids) && parent < |nodes| && added < |nodes| && ParentOf(kids, added).None?
      requires sibling in kids[parent]
      modifies this
      ensures Linked(nodes, kids) && kids == old(kids)[parent := Before(old(kids)[parent], sibling, added)]
      ensures SameKinds(nodes, old(nodes))
    {
      hide PointForward, PointBackward;
      ghost var list := kids[parent];
      ghost var k := IndexOf(list, sibling);
      assert ListLinked(nodes, parent, list);
      assert nodes[list[k]].parent == Some(parent);
      LinkInLinked(nodes, kids, parent, k, added);
      kids := kids[parent := Before(list, sibling, added)];
      var oldPrev := nodes[sibling].prev;
      nodes := nodes[added := nodes[added].(parent := Some(parent), prev := oldPrev, next := Some(sibling))];
      nodes := PointForward(nodes, parent, oldPrev, Some(added));
      nodes := PointBackward(nodes, parent, Some(sibling), Some(added));
    }

    /** Walks up from `start`, itself included, looking for `candidate`. */
    method IsAncestorOrSelf(candidate: NodeId, start: NodeId) returns (found: bool)
      requires Valid() && start < |nodes|
      ensures found <==> AncestorOrSelf(kids, candidate, start)
    {
      hide AncestorOrSelf, ListLinked;
      ghost var rank :| Ranked(kids, rank);
      var node: NodeId := start;
      while true
        invariant node < |nodes|
        invariant AncestorOrSelf(kids, candidate, node) <==> AncestorOrSelf(kids, candidate, start)
        decreases rank[node]
      {
        if node == candidate {
          SelfPath(kids, node);
          return true;
        }
        ParentAgrees(nodes, kids, node);
        AncestorStep(kids, candidate, node);
        match nodes[node].parent {
          case Some(p) => node := p;
          case None => return false;
        }
      }
    }

    /** Whether `child` may be attached under `parent`; a childless child skips the upward walk. */
    method CheckAttach(parent: NodeId, child: NodeId) returns (error: Option<DomError>)
      requires Valid()
      ensures error == AttachError(kids, parent, child)
    {
      if parent >= |nodes| {
        return Some(NoSuchNode(parent));
      }
      if child >= |nodes| {
        return Some(NoSuchNode(child));
      }
      if child == ROOT {
        return Some(IsDocument);
      }
      var makesCycle;
      assert ListLinked(nodes, child, kids[child]);
      if nodes[child].firstChild.None? {
        ChildlessShortcut(kids, child, parent);
        makesCycle := child == parent;
      } else {
        makesCycle := IsAncestorOrSelf(child, parent);
      }
      if makesCycle {
        return Some(Cycle(child, parent));
      }
      ParentAgrees(nodes, kids, child);
      if nodes[child].parent.Some? {
        return Some(NotDetached(child));
      }
      return None;
    }

    /** Allocates a detached node, or hands out the id that names none when the arena is full. */
    method Create(kind: NodeKind) returns (id: NodeId)
      requires Valid()
      modifies this
      ensures Valid() && Outcome(kids, Ok(id)) == Step(old(kids), Op.Create)
      ensures old(|nodes|) < NODE_CAP ==> nodes == old(nodes) + [NewNode(kind)]
      ensures old(|nodes|) >= NODE_CAP ==> nodes == old(nodes)
    {
      if |nodes| >= NODE_CAP {
        return NODE_CAP;
      }
      id := |nodes|;
      CreateKeepsForest(kids);
      CreatedLinked(nodes, kids, kind);
      nodes := nodes + [NewNode(kind)];
      kids := kids + [[]];
    }

    method AppendChild(parent: NodeId, child: NodeId) returns (result: Result<NodeId, DomError>)
      requires Valid()
      modifies this
      ensures Valid() && Outcome(kids, result) == Step(old(kids), Op.AppendChild(parent, child))
      ensures SameKinds(nodes, old(nodes)) && (result.Err? ==> nodes == old(nodes))
    {
      StepKeepsForest(kids, Op.AppendChild(parent, child));
      var error := CheckAttach(parent, child);
      if error.Some? {
        return Err(error.value);
      }
      LinkLast(parent, child);
      return Ok(child);
    }

    method InsertBefore(sibling: NodeId, added: NodeId) returns (result: Result<NodeId, DomError>)
      requires Valid()
      modifies this
      ensures Valid() && Outcome(kids, result) == Step(old(kids), Op.InsertBefore(sibling, added))
      ensures SameKinds(nodes, old(nodes)) && (result.Err? ==> nodes == old(nodes))
    {
      StepKeepsForest(kids, Op.InsertBefore(sibling, added));
      if added >= |nodes| {
        return Err(NoSuchNode(added));
      }
      if sibling >= |nodes| {
        return Err(NoSuchNode(sibling));
      }
      ParentAgrees(nodes, kids, sibling);
      if nodes[sibling].parent.None? {
        return Err(IsDocument);
      }
      var parent := nodes[sibling].parent.value;
      var error := CheckAttach(parent, added);
      if error.Some? {
        return Err(error.value);
      }
      LinkBefore(parent, sibling, added);
      return Ok(added);
    }

    method Detach(id: NodeId) returns (result: Result<NodeId, DomError>)
      requires Valid()
      modifies this
      ensures Valid() && Outcome(kids, result) == Step(old(kids), Op.Detach(id))
      ensures SameKinds(nodes, old(nodes)) && (result.Err? ==> nodes == old(nodes))
    {
      StepKeepsForest(kids, Op.Detach(id));
      if id >= |nodes| {
        return Err(NoSuchNode(id));
      }
      Unlink(id);
      return Ok(id);
    }

    /** Moves the children over one by one, first child first. */
    method ReparentChildren(from: NodeId, to: NodeId) returns (result: Result<NodeId, DomError>)
      requires Valid()
      modifies this
      ensures Valid() && Outcome(kids, result) == Step(old(kids), Op.ReparentChildren(from, to))
      ensures SameKinds(nodes, old(nodes)) && (result.Err? ==> nodes == old(nodes))
    {
      StepKeepsForest(kids, Op.ReparentChildren(from, to));
      if from >= |nodes| {
        return Err(NoSuchNode(from));
      }
      if to >= |nodes| {
        return Err(NoSuchNode(to));
      }
      if from == to {
        return Ok(to);
      }
      var above := IsAncestorOrSelf(from, to);
      if above {
        return Err(Cycle(from, to));
      }
      MoveChildren(from, to);
      return Ok(to);
    }

    method MoveChildren(from: NodeId, to: NodeId)
      requires Linked(nodes, kids) && Lists(kids) && from < |nodes| && to < |nodes| && from != to
      modifies this
      ensures Linked(nodes, kids) && SameKinds(nodes, old(nodes))
      ensures kids == old(kids)[to := old(kids)[to] + old(kids)[from]][from := []]
    {
      hide ListLinked, ParentLinked, PartlyMoved, Lists;
      ghost var kids0, moved := kids, 0;
      PartlyMovedEnds(kids0, from, to);
      FirstLink(nodes, kids, from);
      while nodes[from].firstChild.Some?
        invariant from < |nodes| && to < |nodes| && SameKinds(nodes, old(nodes))
        invariant Linked(nodes, kids) && Lists(kids) && nodes[from].firstChild == First(kids[from])
        invariant 0 <= moved <= |kids0[from]| && |kids[from]| == |kids0[from]| - moved
        invariant kids == PartlyMoved(kids0, from, to, moved)
        decreases |kids0[from]| - moved
      {
        var child := nodes[from].firstChild.value;
        FirstChildMoves(kids, from, to);
        Unlink(child);
        LinkLast(to, child);
        FirstLink(nodes, kids, from);
        PartlyMovedStep(kids0, from, to, moved);
        moved := moved + 1;
      }
    }

    /** One operation, whichever it is; `kind` is for a created node. */
    method Apply(op: Op, kind: NodeKind) returns (result: Result<NodeId, DomError>)
      requires Valid()
      modifies this
      ensures Valid() && Outcome(kids, result) == Step(old(kids), op)
    {
      match op
      case Create =>
        var id := Create(kind);
        result := Ok(id);
      case AppendChild(parent, child) => result := AppendChild(parent, child);
      case InsertBefore(sibling, added) => result := InsertBefore(sibling, added);
      case Detach(id) => result := Detach(id);
      case ReparentChildren(from, to) => result := ReparentChildren(from, to);
    }

    /** Any finite sequence of operations: the links stay an exact picture of the abstract run. */
    method ApplyAll(ops: seq<Op>, kind: NodeKind)
      requires Valid()
      modifies this
      ensures Valid() && kids == After(old(kids), ops)
    {
      hide Step, Forest.WellFormed;
      for i := 0 to |ops|
        invariant Valid() && |kids| > 0 && After(kids, ops[i..]) == After(old(kids), ops)
      {
        var _ := Apply(ops[i], kind);
        assert ops[i..][1..] == ops[i + 1..];
      }
    }
  }
}
