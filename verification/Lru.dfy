/**
 Eviction order: the linked list of keys, front most recently used, together with
 the map from each key to its list element.
 */
module Lru {
  import opened Basics
  import opened LinkedList

  ghost function Values(nodes: seq<Element>): (vs: seq<string>)
    ensures |vs| == |nodes|
    ensures forall i :: 0 <= i < |vs| ==> vs[i] == nodes[i].value
  {
    seq(|nodes|, i requires 0 <= i < |nodes| => nodes[i].value)
  }

  /** The map and the list hold exactly the same keys, none of them twice. */
  ghost predicate Agree(nodes: seq<Element>, keys: map<string, Element>) {
    && NoDup(nodes)
    && (forall x :: x in nodes ==> x.value in keys && keys[x.value] == x)
    && (forall k :: k in keys ==> keys[k] in nodes && keys[k].value == k)
  }

  lemma Agreement(nodes: seq<Element>, keys: map<string, Element>, key: string)
    requires Agree(nodes, keys)
    ensures NoDup(Values(nodes))
    ensures key in keys <==> key in Values(nodes)
    ensures key in keys ==> keys[key] in nodes && keys[key].value == key
  {
    forall i, j | 0 <= i < j < |nodes| ensures Values(nodes)[i] != Values(nodes)[j] {
      assert nodes[i] != nodes[j];
    }
    if key in keys {
      assert Values(nodes)[IndexOf(nodes, keys[key])] == key;
    }
  }

  /** Removing an element from the list removes its key from the key order. */
  lemma RemoveElementRemovesKey(nodes: seq<Element>, keys: map<string, Element>, e: Element)
    requires Agree(nodes, keys) && e in nodes
    ensures Values(Basics.Remove(nodes, e)) == Basics.Remove(Values(nodes), e.value)
  {
    Agreement(nodes, keys, e.value);
    var i, k := IndexOf(nodes, e), IndexOf(Values(nodes), e.value);
    assert Values(nodes)[i] == e.value;
    assert i == k;
  }

  lemma AgreeRemove(nodes: seq<Element>, keys: map<string, Element>, e: Element)
    requires Agree(nodes, keys) && e in nodes
    ensures Agree(Basics.Remove(nodes, e), keys - {e.value})
  {
    RemoveMembers(nodes, e);
  }

  lemma AgreeMoveToFront(nodes: seq<Element>, keys: map<string, Element>, e: Element)
    requires Agree(nodes, keys) && e in nodes
    ensures Agree([e] + Basics.Remove(nodes, e), keys)
    ensures Values([e] + Basics.Remove(nodes, e)) == [e.value] + Basics.Remove(Values(nodes), e.value)
  {
    RemoveMembers(nodes, e);
    RemoveElementRemovesKey(nodes, keys, e);
    hide Basics.Remove;
  }

  lemma AgreeAdd(nodes: seq<Element>, keys: map<string, Element>, e: Element)
    requires Agree(nodes, keys) && e.value !in Values(nodes)
    ensures Agree([e] + nodes, keys[e.value := e])
    ensures Values([e] + nodes) == [e.value] + Values(nodes)
  {
    Agreement(nodes, keys, e.value);
  }

  lemma RemoveLast(nodes: seq<Element>, keys: map<string, Element>)
    requires Agree(nodes, keys) && nodes != []
    ensures Values(nodes) == Values(Basics.Remove(nodes, nodes[|nodes| - 1])) + [nodes[|nodes| - 1].value]
  {
    assert IndexOf(nodes, nodes[|nodes| - 1]) == |nodes| - 1;
  }

  class LruList {
    const l: List
    var keys: map<string, Element>

    ghost predicate Valid()
      reads this, l, Footprint()
    {
      && l.Valid()
      && Agree(l.nodes, keys)
    }

    ghost function Footprint(): set<object>
      reads this, l
    {
      {this, l, l.root} + set x | x in l.nodes
    }

    /** The keys, most recently used first. */
    ghost function Order(): (o: seq<string>)
      reads this, l
    {
      Values(l.nodes)
    }

    constructor ()
      ensures Valid() && Order() == []
      ensures fresh(Footprint())
    {
      l := new List();
      keys := map[];
    }

    /** Moves key to the front. */
    method Touch(key: string)
      requires Valid()
      modifies Footprint()
      ensures Valid()
      ensures Order() == if key in old(Order()) then [key] + Basics.Remove(old(Order()), key) else old(Order())
      ensures Footprint() <= old(Footprint())
    {
      hide Ring, Agree;
      Agreement(l.nodes, keys, key);
      if key in keys {
        var el := keys[key];
        AgreeMoveToFront(l.nodes, keys, el);
        l.MoveToFront(el);
      }
    }

    /** Puts key at the front; it must not be there already. */
    method Add(key: string)
      requires Valid() && key !in Order()
      modifies Footprint()
      ensures Valid()
      ensures Order() == [key] + old(Order())
      ensures forall o :: o in Footprint() ==> o in old(Footprint()) || fresh(o)
    {
      hide Ring, Agree;
      ghost var was := l.nodes;
      var el := l.PushFront(key);
      AgreeAdd(was, keys, el);
      keys := keys[key := el];
    }

    method Remove(key: string)
      requires Valid()
      modifies Footprint()
      ensures Valid()
      ensures Order() == Basics.Remove(old(Order()), key)
      ensures Footprint() <= old(Footprint())
    {
      hide Ring, Agree;
      Agreement(l.nodes, keys, key);
      if key in keys {
        var el := keys[key];
        AgreeRemove(l.nodes, keys, el);
        RemoveElementRemovesKey(l.nodes, keys, el);
        l.Remove(el);
        keys := keys - {key};
      }
    }

    /** Removes the oldest key. The result is "" when the list is empty, and also
        when the oldest key happens to be "". */
    method EvictOldest() returns (key: string)
      requires Valid()
      modifies Footprint()
      ensures Valid()
      ensures old(Order()) == [] ==> key == "" && Order() == []
      ensures old(Order()) != [] ==> old(Order()) == Order() + [key]
      ensures Footprint() <= old(Footprint())
    {
      hide Ring, Agree;
      var back := l.Back();
      if back == null {
        return "";
      }
      key := back.value;
      AgreeRemove(l.nodes, keys, back);
      RemoveLast(l.nodes, keys);
      l.Remove(back);
      keys := keys - {key};
    }
  }
}
