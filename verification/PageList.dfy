/**
 The intrusive doubly linked list of free pages: links live in the pages themselves.
 */
module PageLists {

  /** A page used as a list node. */
  class Page {
    var prev: Page?
    var next: Page?

    constructor ()
      ensures prev == null && next == null
    {
      prev, next := null, null;
    }
  }

  /** How an operation ended: normally, in the kernel panic, or by following a null link. */
  datatype Outcome = Done(page: Page) | Panic | NullDeref

  function NodeAt(nodes: seq<Page>, i: int): Page? {
    if 0 <= i < |nodes| then nodes[i] else null
  }

  ghost predicate Distinct(nodes: seq<Page>) {
    forall i, j :: 0 <= i < j < |nodes| ==> nodes[i] != nodes[j]
  }

  lemma WithoutDistinct(nodes: seq<Page>, i: nat)
    requires Distinct(nodes) && i < |nodes|
    ensures Distinct(Without(nodes, i))
  {
  }

  /** No page twice, and the links of each page lead to its neighbours in the sequence. */
  ghost predicate Linked(nodes: seq<Page>)
    reads nodes
  {
    && Distinct(nodes)
    && forall i :: 0 <= i < |nodes| ==> LinkedAt(nodes, i)
  }

  ghost predicate LinkedAt(nodes: seq<Page>, i: int)
    requires 0 <= i < |nodes|
    reads nodes
  {
    nodes[i].prev == NodeAt(nodes, i - 1) && nodes[i].next == NodeAt(nodes, i + 1)
  }

  /** The sequence with its i-th page taken out. */
  ghost function Without(nodes: seq<Page>, i: nat): (r: seq<Page>)
    requires i < |nodes|
    ensures |r| == |nodes| - 1
    ensures forall k :: 0 <= k < |r| ==> r[k] == nodes[if k < i then k else k + 1]
  {
    nodes[..i] + nodes[i + 1..]
  }

  lemma WithoutEnds(nodes: seq<Page>, i: nat)
    requires 0 < i < |nodes| - 1
    ensures var rest := Without(nodes, i);
      NodeAt(rest, 0) == NodeAt(nodes, 0) && NodeAt(rest, |rest| - 1) == NodeAt(nodes, |nodes| - 1)
  {
  }

  /** Makes the neighbours of an interior page point at each other. */
  method Bypass(prev: Page, next: Page, ghost nodes: seq<Page>, ghost i: nat)
    requires Linked(nodes) && 0 < i < |nodes| - 1
    requires prev == nodes[i - 1] && next == nodes[i + 1]
    modifies prev`next, next`prev
    ensures Linked(Without(nodes, i))
  {
    prev.next := next;
    next.prev := prev;
    ghost var rest := Without(nodes, i);
    WithoutDistinct(nodes, i);
    forall k | 0 <= k < |rest|
      ensures LinkedAt(rest, k)
    {
      NeighboursWithout(nodes, i, k);
      var j := if k < i then k else k + 1;
      assert old(LinkedAt(nodes, j));
      assert (nodes[j] == prev <==> j == i - 1) && (nodes[j] == next <==> j == i + 1);
    }
  }

  /** Only the two neighbours of the page taken out get new neighbours. */
  lemma NeighboursWithout(nodes: seq<Page>, i: nat, k: nat)
    requires 0 < i < |nodes| - 1 && k < |nodes| - 1
    ensures var rest := Without(nodes, i); var j := if k < i then k else k + 1;
      && rest[k] == nodes[j]
      && NodeAt(rest, k - 1) == (if j == i + 1 then nodes[i - 1] else NodeAt(nodes, j - 1))
      && NodeAt(rest, k + 1) == (if j == i - 1 then nodes[i + 1] else NodeAt(nodes, j + 1))
  {
  }

  /** Takes a page out of the chain; fails where a null neighbour is followed. */
  method Detach(node: Page, ghost nodes: seq<Page>, ghost i: nat) returns (ok: bool)
    requires Linked(nodes) && i < |nodes| && nodes[i] == node
    modifies nodes
    ensures ok <==> 0 < i < |nodes| - 1
    ensures ok ==> Linked(Without(nodes, i))
  {
    assert LinkedAt(nodes, i);
    var prev, next := node.prev, node.next;
    if prev == null {
      return false;
    }
    if next == null {
      prev.next := null;
      return false;
    }
    Bypass(prev, next, nodes, i);
    ok := true;
  }

  /** The sequence a list stands for is determined by the heap: walking two well-linked
      sequences from the same first page visits the same pages. */
  lemma {:induction false} SameWalk(a: seq<Page>, b: seq<Page>, k: nat)
    requires Linked(a) && Linked(b) && b != [] && k < |a| && a[0] == b[0]
    ensures k < |b| && a[k] == b[k]
    decreases k
  {
    if k > 0 {
      SameWalk(a, b, k - 1);
      assert LinkedAt(a, k - 1) && LinkedAt(b, k - 1);
    }
  }

  lemma LinksDetermineList(a: seq<Page>, b: seq<Page>)
    requires Linked(a) && Linked(b) && NodeAt(a, 0) == NodeAt(b, 0)
    ensures a == b
  {
    if a != [] {
      SameWalk(a, b, |a| - 1);
      SameWalk(b, a, |b| - 1);
      forall k | 0 <= k < |a|
        ensures a[k] == b[k]
      {
        SameWalk(a, b, k);
      }
    }
  }

  class PageList {
    var head: Page?
    var tail: Page?
    ghost var nodes: seq<Page>

    ghost predicate Valid()
      reads this, nodes
    {
      && Linked(nodes)
      && head == NodeAt(nodes, 0)
      && tail == NodeAt(nodes, |nodes| - 1)
    }

    constructor ()
      ensures Valid() && nodes == []
    {
      head, tail, nodes := null, null, [];
    }

    method Empty() returns (e: bool)
      requires Valid()
      ensures e <==> nodes == []
    {
      e := head == null;
    }

    method InsertFirst(page: Page)
      requires Valid() && page !in nodes
      modifies this, page, if head == null then {} else {head}
      ensures Valid() && nodes == [page] + old(nodes)
      ensures head == page && page.next == old(head) && page.prev == null
    {
      ghost var was := nodes;
      nodes := [page] + nodes;
      if head == null {
        head := page;
        tail := page;
        page.next := null;
        page.prev := null;
        return;
      }
      head.prev := page;
      page.next := head;
      page.prev := null;
      head := page;
      forall k | 0 <= k < |nodes|
        ensures LinkedAt(nodes, k)
      {
        if k > 0 {
          assert nodes[k] == was[k - 1] && old(LinkedAt(was, k - 1));
        }
      }
    }

    /** On a one-page list the source follows the null link of its only page. */
    method Pop() returns (r: Outcome)
      requires Valid()
      modifies this, if |nodes| < 2 then {} else {nodes[1]}
      ensures r.Panic? <==> old(nodes) == []
      ensures r.NullDeref? <==> |old(nodes)| == 1
      ensures |old(nodes)| >= 2 ==> Valid() && r == Done(old(nodes)[0]) && nodes == old(nodes)[1..]
    {
      if head == null {
        return Panic;
      }
      assert LinkedAt(nodes, 0);
      var page := head;
      head := head.next;
      if head == null {
        return NullDeref;
      }
      head.prev := null;
      ghost var was := nodes;
      nodes := nodes[1..];
      forall k | 0 <= k < |nodes|
        ensures LinkedAt(nodes, k)
      {
        assert nodes[k] == was[k + 1] && old(LinkedAt(was, k + 1));
      }
      r := Done(page);
    }

    /** Works on interior pages only: at either end a null neighbour is followed. */
    method Unlink(node: Page, ghost i: nat)
      returns (r: Outcome)
      requires Valid() && i < |nodes| && nodes[i] == node
      modifies this, nodes
      ensures r.NullDeref? <==> i == 0 || i == |old(nodes)| - 1
      ensures r == NullDeref || r == Done(node)
      ensures r.Done? ==> Valid() && nodes == Without(old(nodes), i)
      ensures r.Done? ==> head == old(head) && tail == old(tail)
    {
      assert LinkedAt(nodes, i);
      assert (head == node <==> i == 0) && (tail == node <==> i == |nodes| - 1);
      if head == node {
        head := node.next;
      }
      if tail == node {
        tail := node.prev;
      }
      if node != head && node != tail {
        var ok := Detach(node, nodes, i);
        if !ok {
          return NullDeref;
        }
        WithoutEnds(nodes, i);
      }
      nodes := Without(nodes, i);
      r := Done(node);
    }

    /** Inserting a page into a non-empty list and popping it restores the list. */
    method InsertThenPop(page: Page) returns (r: Outcome)
      requires Valid() && page !in nodes && nodes != []
      modifies this, page, head
      ensures Valid() && r == Done(page)
      ensures nodes == old(nodes) && head == old(head) && tail == old(tail)
    {
      InsertFirst(page);
      r := Pop();
    }
  }
}
