/**
  The doubly linked list of Go's standard package container/list, as far as the
  caches use it: a ring of elements through a sentinel `root`, so that the
  front is root.next and the back is root.prev. The ghost sequence `nodes`
  lists the elements from front to back.
 */
module LinkedList {
  import opened Prelude

  /** What the caches store in an element: a pointer to a key and a mutable value. */
  class Entry<V> {
    const key: Str
    var value: V

    constructor (key: Str, value: V)
      ensures this.key == key && this.value == value
    {
      this.key := key;
      this.value := value;
    }
  }

  class Element<V> {
    var next: Element?<V>
    var prev: Element?<V>
    const value: Entry?<V>  // null in the sentinel only

    constructor (value: Entry?<V>)
      ensures this.value == value
    {
      this.value := value;
      next, prev := null, null;
    }
  }

  class List<V> {
    const root: Element<V>
    var length: int
    ghost var nodes: seq<Element<V>>

    ghost predicate Valid()
      reads this, root, nodes
    {
      && root !in nodes
      && (forall i, j :: 0 <= i < j < |nodes| ==> nodes[i] != nodes[j])
      && length == |nodes|
      && root.next == (if nodes == [] then root else nodes[0])
      && root.prev == (if nodes == [] then root else nodes[|nodes| - 1])
      && (forall i {:trigger nodes[i].next} :: 0 <= i < |nodes| ==>
            nodes[i].next == (if i + 1 < |nodes| then nodes[i + 1] else root))
      && (forall i {:trigger nodes[i].prev} :: 0 <= i < |nodes| ==>
            nodes[i].prev == (if i > 0 then nodes[i - 1] else root))
    }

    constructor ()
      ensures Valid() && nodes == [] && fresh(root)
    {
      var r := new Element<V>(null);
      r.next, r.prev := r, r;
      root := r;
      length := 0;
      nodes := [];
    }

    /** The list is emptied in place; the old elements stay linked among themselves. */
    method Init()
      modifies `nodes, `length, root`next, root`prev
      ensures Valid() && nodes == []
    {
      root.next, root.prev := root, root;
      length := 0;
      nodes := [];
    }

    method Back() returns (e: Element?<V>)
      requires Valid()
      ensures e == if nodes == [] then null else nodes[|nodes| - 1]
    {
      if length == 0 {
        return null;
      }
      e := root.prev;
    }

    method PushFront(value: Entry<V>) returns (e: Element<V>)
      requires Valid()
      modifies `nodes, `length, root`next, root`prev, nodes`next, nodes`prev
      ensures Valid() && fresh(e) && e.value == value
      ensures nodes == [e] + old(nodes)
    {
      e := new Element<V>(value);
      InsertAfterRoot(e);
    }

    method InsertAfterRoot(e: Element<V>)
      requires Valid() && e != root && e !in nodes
      modifies `nodes, `length, root`next, root`prev, nodes`next, nodes`prev, e`next, e`prev
      ensures Valid() && nodes == [e] + old(nodes)
    {
      e.prev := root;
      e.next := root.next;
      root.next := e;
      e.next.prev := e;
      length := length + 1;
      nodes := [e] + nodes;
    }

    method Unlink(e: Element<V>, ghost i: nat)
      requires Valid() && i < |nodes| && nodes[i] == e
      modifies `nodes, `length, root`next, root`prev, nodes`next, nodes`prev
      ensures Valid() && nodes == old(nodes)[..i] + old(nodes)[i + 1..]
    {
      e.prev.next := e.next;
      e.next.prev := e.prev;
      length := length - 1;
      nodes := nodes[..i] + nodes[i + 1..];
    }

    method Remove(e: Element<V>, ghost i: nat)
      requires Valid() && i < |nodes| && nodes[i] == e
      modifies `nodes, `length, root`next, root`prev, nodes`next, nodes`prev
      ensures Valid() && nodes == old(nodes)[..i] + old(nodes)[i + 1..]
    {
      Unlink(e, i);
      e.next, e.prev := null, null;  // as the package does, so that a removed element holds nothing alive
    }

    method MoveToFront(e: Element<V>, ghost i: nat)
      requires Valid() && i < |nodes| && nodes[i] == e
      modifies `nodes, `length, root`next, root`prev, nodes`next, nodes`prev
      ensures Valid() && nodes == [e] + (old(nodes)[..i] + old(nodes)[i + 1..])
    {
      if root.next == e {
        assert i == 0;
        return;
      }
      Unlink(e, i);
      InsertAfterRoot(e);
    }
  }
}
