/**
 The doubly linked list the cache keeps its recency order in: a ring of elements
 closed by a sentinel, edited by relinking neighbours.
 */
module LinkedList {
  import opened Basics

  class Element {
    const value: string
    var prev: Element?
    var next: Element?

    constructor (value: string)
      ensures this.value == value
    {
      this.value := value;
      prev, next := null, null;
    }
  }

  /** The i-th element of a ring; the sentinel stands at both ends. */
  ghost function At(root: Element, nodes: seq<Element>, i: int): Element {
    if 0 <= i < |nodes| then nodes[i] else root
  }

  /** The elements of nodes, in this order, are linked into a ring with root. */
  ghost predicate Ring(root: Element, nodes: seq<Element>)
    reads root, nodes
  {
    && root !in nodes
    && NoDup(nodes)
    && root.next == At(root, nodes, 0)
    && root.prev == At(root, nodes, |nodes| - 1)
    && (forall i {:trigger nodes[i].prev} :: 0 <= i < |nodes| ==> nodes[i].prev == At(root, nodes, i - 1))
    && (forall i {:trigger nodes[i].next} :: 0 <= i < |nodes| ==> nodes[i].next == At(root, nodes, i + 1))
  }

  /** Like Ring, but the neighbours of nodes[k] point past it. */
  ghost predicate RingBypassing(root: Element, nodes: seq<Element>, k: nat)
    requires k < |nodes|
    reads root, nodes
  {
    && root !in nodes
    && NoDup(nodes)
    && root.next == At(root, nodes, if k == 0 then 1 else 0)
    && root.prev == At(root, nodes, if k == |nodes| - 1 then k - 1 else |nodes| - 1)
    && (forall i {:trigger nodes[i].prev} :: 0 <= i < |nodes| && i != k ==>
          nodes[i].prev == At(root, nodes, if i == k + 1 then k - 1 else i - 1))
    && (forall i {:trigger nodes[i].next} :: 0 <= i < |nodes| && i != k ==>
          nodes[i].next == At(root, nodes, if i == k - 1 then k + 1 else i + 1))
  }

  /** Once nodes[k] is left out, what is left is a ring again. */
  lemma BypassedRing(root: Element, nodes: seq<Element>, k: nat, r: seq<Element>)
    requires k < |nodes| && RingBypassing(root, nodes, k)
    requires |r| == |nodes| - 1
    requires forall i :: 0 <= i < k ==> r[i] == nodes[i]
    requires forall i :: k <= i < |r| ==> r[i] == nodes[i + 1]
    ensures Ring(root, r)
  {
    forall i | 0 <= i < |r|
      ensures r[i].prev == At(root, r, i - 1) && r[i].next == At(root, r, i + 1)
    {
      if i < k {
        assert nodes[i].prev == At(root, nodes, i - 1) == At(root, r, i - 1);
        assert nodes[i].next == At(root, r, i + 1);
      } else {
        var j := i + 1;
        assert nodes[j].prev == At(root, r, i - 1);
        assert nodes[j].next == At(root, nodes, j + 1) == At(root, r, i + 1);
      }
    }
  }

  class List {
    const root: Element
    var len: nat
    ghost var nodes: seq<Element>

    ghost predicate Valid()
      reads this, root, nodes
    {
      len == |nodes| && Ring(root, nodes)
    }

    constructor ()
      ensures Valid() && nodes == [] && fresh(root)
    {
      var r := new Element("");
      root := r;
      len := 0;
      nodes := [];
      new;
      root.next, root.prev := root, root;
    }

    method PushFront(value: string) returns (e: Element)
      requires Valid()
      modifies this, root, nodes
      ensures Valid() && fresh(e) && e.value == value
      ensures nodes == [e] + old(nodes)
    {
      e := new Element(value);
      InsertFront(e);
      len := len + 1;
    }

    /** Links e in behind the sentinel. */
    method InsertFront(e: Element)
      requires Ring(root, nodes) && e !in nodes && e != root
      modifies this`nodes, root, nodes, e
      ensures nodes == [e] + old(nodes) && Ring(root, nodes)
    {
      e.prev := root;
      e.next := root.next;
      e.prev.next := e;
      e.next.prev := e;
      nodes := [e] + nodes;
    }

    method Remove(e: Element)
      requires Valid() && e in nodes
      modifies this, root, nodes
      ensures Valid()
      ensures nodes == Basics.Remove(old(nodes), e)
      ensures forall x :: x in nodes <==> x in old(nodes) && x != e
    {
      RemoveMembers(nodes, e);
      Unlink(e);
      len := len - 1;
    }

    /** Takes e out of the ring. */
    method Unlink(e: Element)
      requires Ring(root, nodes) && e in nodes
      modifies this`nodes, root, nodes
      ensures nodes == Basics.Remove(old(nodes), e) && Ring(root, nodes)
    {
      ghost var was, k := nodes, IndexOf(nodes, e);
      Bypass(e, k);
      nodes := was[..k] + was[k + 1..];
      BypassedRing(root, was, k, nodes);
    }

    /** Makes e's neighbours point past it. */
    method Bypass(e: Element, ghost k: int)
      requires Ring(root, nodes) && 0 <= k < |nodes| && nodes[k] == e
      modifies root, nodes
      ensures RingBypassing(root, nodes, k)
    {
      ghost var p, n := At(root, nodes, k - 1), At(root, nodes, k + 1);
      assert nodes[k].prev == p && nodes[k].next == n;
      assert forall i :: 0 <= i < |nodes| && nodes[i] == p ==> i == k - 1;
      assert forall i :: 0 <= i < |nodes| && nodes[i] == n ==> i == k + 1;
      e.prev.next := e.next;
      e.next.prev := e.prev;
    }

    method MoveToFront(e: Element)
      requires Valid() && e in nodes
      modifies this, root, nodes
      ensures Valid()
      ensures nodes == [e] + Basics.Remove(old(nodes), e)
      ensures forall x :: x in nodes <==> x in old(nodes)
    {
      if root.next == e {
        assert nodes == [e] + nodes[1..];
        return;
      }
      RemoveMembers(nodes, e);
      Unlink(e);
      InsertFront(e);
    }

    method Back() returns (e: Element?)
      requires Valid()
      ensures nodes == [] ==> e == null
      ensures nodes != [] ==> e == nodes[|nodes| - 1]
    {
      if len == 0 {
        return null;
      }
      e := root.prev;
    }
  }
}
