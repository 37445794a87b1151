/**
  The linked list, the index into it and the byte counter: the three fields
  that lru.Cache and lruShard both have, with the code both repeat for a hit, for
  an insert or overwrite, and for dropping the oldest entry.
 */
module Store {
  import opened Prelude
  import opened LruSpec
  import opened LinkedList

  function Spliced<T>(xs: seq<T>, i: nat): seq<T>
    requires i < |xs|
  {
    xs[..i] + xs[i + 1..]
  }

  lemma FrontMembers<T>(xs: seq<T>, i: nat)
    requires i < |xs|
    ensures forall x :: x in [xs[i]] + Spliced(xs, i) ==> x in xs
  {}

  lemma LastSpliced<T>(xs: seq<T>)
    requires xs != []
    ensures xs[..|xs| - 1] + xs[|xs|..] == xs[..|xs| - 1]
    ensures forall x :: x in xs[..|xs| - 1] ==> x in xs
  {}

  /** The map sends exactly the keys of `items` to the nodes at the same positions. */
  ghost predicate Indexed<V>(cache: map<Str, Element<V>>, nodes: seq<Element<V>>, items: seq<Item<V>>) {
    && |nodes| == |items|
    && (forall i :: 0 <= i < |items| ==> items[i].key in cache && cache[items[i].key] == nodes[i])
    && (forall k :: k in cache ==> HasKey(items, k))
  }

  lemma HasKeyFront<V>(items: seq<Item<V>>, i: nat, x: Item<V>, k: Str)
    requires i < |items| && x.key == items[i].key && HasKey(items, k)
    ensures HasKey([x] + Spliced(items, i), k)
  {
    var j :| 0 <= j < |items| && items[j].key == k;
    assert ([x] + Spliced(items, i))[if j == i then 0 else if j < i then j + 1 else j].key == k;
  }

  lemma IndexedFront<V>(cache: map<Str, Element<V>>, nodes: seq<Element<V>>, items: seq<Item<V>>, i: nat, x: Item<V>)
    requires Indexed(cache, nodes, items) && UniqueKeys(items)
    requires i < |items| && x.key == items[i].key
    ensures Indexed(cache, [nodes[i]] + Spliced(nodes, i), [x] + Spliced(items, i))
  {
    hide HasKey;
    OtherKeys(items, i);
    var its, ns := [x] + Spliced(items, i), [nodes[i]] + Spliced(nodes, i);
    forall j | 0 <= j < |its| ensures its[j].key in cache && cache[its[j].key] == ns[j] {
      var from := if j == 0 then i else if j <= i then j - 1 else j;
      assert its[j].key == items[from].key && ns[j] == nodes[from];
    }
    forall k | k in cache ensures HasKey(its, k) {
      HasKeyFront(items, i, x, k);
    }
  }

  lemma IndexedInsert<V>(cache: map<Str, Element<V>>, nodes: seq<Element<V>>, items: seq<Item<V>>, e: Element<V>, x: Item<V>)
    requires Indexed(cache, nodes, items) && x.key !in cache
    ensures Indexed(cache[x.key := e], [e] + nodes, [x] + items)
  {
    var its := [x] + items;
    forall k | k in cache[x.key := e] ensures HasKey(its, k) {
      if k == x.key {
        assert its[0].key == k;
      } else {
        var j :| 0 <= j < |items| && items[j].key == k;
        assert its[j + 1].key == k;
      }
    }
  }

  lemma IndexedDropLast<V>(cache: map<Str, Element<V>>, nodes: seq<Element<V>>, items: seq<Item<V>>)
    requires Indexed(cache, nodes, items) && UniqueKeys(items) && items != []
    ensures var n := |items| - 1;
            Indexed(cache - {items[n].key}, nodes[..n], items[..n])
  {
    var n := |items| - 1;
    forall k | k in cache - {items[n].key} ensures HasKey(items[..n], k) {
      var j :| 0 <= j < |items| && items[j].key == k;
      assert items[..n][j].key == k;
    }
  }

  lemma BytesDropLast<V>(len: V -> int, items: seq<Item<V>>)
    requires items != []
    ensures Bytes(len, items[..|items| - 1]) == Bytes(len, items) - ItemBytes(len, items[|items| - 1])
  {}

  lemma UniqueDropLast<V>(items: seq<Item<V>>, n: nat)
    requires UniqueKeys(items) && n <= |items|
    ensures UniqueKeys(items[..n])
  {}

  lemma OtherKeys<V>(items: seq<Item<V>>, i: nat)
    requires UniqueKeys(items) && i < |items|
    ensures forall j :: 0 <= j < |items| && j != i ==> items[j].key != items[i].key
  {}

  lemma NotIndexed<V>(cache: map<Str, Element<V>>, nodes: seq<Element<V>>, items: seq<Item<V>>, key: Str)
    requires Indexed(cache, nodes, items) && key !in cache
    ensures !HasKey(items, key)
  {}

  /** Another value for the first item, under the same key. */
  lemma HeadChanged<V>(len: V -> int, cache: map<Str, Element<V>>, nodes: seq<Element<V>>, items: seq<Item<V>>, value: V)
    requires Indexed(cache, nodes, items) && UniqueKeys(items) && items != []
    ensures var its := [Item(items[0].key, value)] + items[1..];
            && Indexed(cache, nodes, its) && UniqueKeys(its)
            && Bytes(len, its) == Bytes(len, items) + len(value) - len(items[0].value)
  {
    var its := [Item(items[0].key, value)] + items[1..];
    HeadBytes(len, items, its);
    hide Bytes;
    SameKeys(cache, nodes, items, its);
  }

  /** A key that the map lacks comes in front of everything, for map, counter and order. */
  lemma InsertShapes<V>(len: V -> int, cache: map<Str, Element<V>>, nodes: seq<Element<V>>, items: seq<Item<V>>,
                        key: Str, value: V, e: Element<V>)
    requires Indexed(cache, nodes, items) && UniqueKeys(items) && key !in cache
    ensures Put(items, key, value) == [Item(key, value)] + items
    ensures UniqueKeys(Put(items, key, value))
    ensures Bytes(len, Put(items, key, value)) == Bytes(len, items) + |key| + len(value)
    ensures Indexed(cache[key := e], [e] + nodes, Put(items, key, value))
  {
    NotIndexed(cache, nodes, items, key);
    AbsentKey(items, key);
    PutKeepsUnique(items, key, value);
    PutBytes(len, items, key, value);
    hide Indexed, UniqueKeys, Bytes;
    IndexedInsert(cache, nodes, items, e, Item(key, value));
  }

  /** The last item goes, for map, counter and order. */
  lemma DropShapes<V>(len: V -> int, cache: map<Str, Element<V>>, nodes: seq<Element<V>>, items: seq<Item<V>>)
    requires Indexed(cache, nodes, items) && UniqueKeys(items) && items != []
    ensures var n := |items| - 1;
            && Indexed(cache - {items[n].key}, nodes[..n], items[..n])
            && UniqueKeys(items[..n])
            && Bytes(len, items[..n]) == Bytes(len, items) - ItemBytes(len, items[n])
            && items == items[..n] + [items[n]]
  {
    hide Indexed, UniqueKeys, Bytes;
    IndexedDropLast(cache, nodes, items);
    UniqueDropLast(items, |items| - 1);
    BytesDropLast(len, items);
    FrontAndLast(items);
  }

  lemma FrontAndLast<T>(xs: seq<T>)
    requires xs != []
    ensures xs == xs[..|xs| - 1] + [xs[|xs| - 1]]
  {}

  lemma SameKeys<V>(cache: map<Str, Element<V>>, nodes: seq<Element<V>>, items: seq<Item<V>>, its: seq<Item<V>>)
    requires |items| == |its| && forall i :: 0 <= i < |items| ==> items[i].key == its[i].key
    requires Indexed(cache, nodes, items) && UniqueKeys(items)
    ensures Indexed(cache, nodes, its) && UniqueKeys(its)
  {
    forall k | k in cache ensures HasKey(its, k) {
      var j :| 0 <= j < |items| && items[j].key == k;
      assert its[j].key == k;
    }
  }

  /** The two updates that bring the key at position `i` to the front. */
  lemma FrontShapes<V>(items: seq<Item<V>>, key: Str, i: nat, value: V)
    requires UniqueKeys(items) && i < |items| && items[i].key == key
    ensures Find(items, key) == Some(items[i].value)
    ensures Touch(items, key) == [items[i]] + Spliced(items, i)
    ensures Put(items, key, value) == [Item(key, value)] + Spliced(items, i)
  {
    assert HasKey(items, key);
    UpdateShape(items, key, i);
  }

  /** Nothing changes but the order when the item at position `i` comes to the front. */
  lemma FrontKept<V>(len: V -> int, cache: map<Str, Element<V>>, nodes: seq<Element<V>>, items: seq<Item<V>>, i: nat)
    requires Indexed(cache, nodes, items) && UniqueKeys(items) && i < |items|
    ensures var its := [items[i]] + Spliced(items, i);
            && Indexed(cache, [nodes[i]] + Spliced(nodes, i), its)
            && UniqueKeys(its) && Bytes(len, its) == Bytes(len, items)
  {
    FrontShapes(items, items[i].key, i, items[i].value);
    TouchKeepsBytes(len, items, items[i].key);
    hide Bytes, Spliced, UniqueKeys, Indexed;
    IndexedFront(cache, nodes, items, i, items[i]);
  }

  lemma HeadBytes<V>(len: V -> int, items: seq<Item<V>>, its: seq<Item<V>>)
    requires items != [] && its != [] && items[1..] == its[1..] && items[0].key == its[0].key
    ensures Bytes(len, its) == Bytes(len, items) + len(its[0].value) - len(items[0].value)
  {
    hide Bytes;
    BytesPrepend(len, items[0], items[1..]);
    BytesPrepend(len, its[0], its[1..]);
    assert items == [items[0]] + items[1..] && its == [its[0]] + its[1..];
  }

  class Store<V> {
    const len: V -> int  // Value.Len
    const ll: List<V>
    var cache: map<Str, Element<V>>
    var nBytes: int

    ghost var items: seq<Item<V>>
    ghost var Repr: set<object>

    /** The list and the map agree with `items`, and the counter is their sum. */
    ghost predicate Valid()
      reads this, Repr
      ensures Valid() ==> this in Repr
    {
      && Linked()
      && Indexed(cache, ll.nodes, items)
      && UniqueKeys(items)
      && nBytes == Bytes(len, items)
    }

    /** The list holds the items, in elements and entries of its own. */
    ghost predicate Linked()
      reads this, Repr
      ensures Linked() ==> this in Repr
    {
      && this in Repr && ll in Repr && ll.root in Repr
      && (forall e :: e in ll.nodes ==> e in Repr && e.value != null && e.value in Repr)
      && ll.Valid()
      && Stores(ll.nodes, items)
    }

    /** The entry behind each node is the item at the same position. */
    ghost predicate Stores(nodes: seq<Element<V>>, items: seq<Item<V>>)
      requires forall e :: e in nodes ==> e.value != null
      reads set e | e in nodes :: e.value
    {
      && |items| == |nodes|
      && forall i :: 0 <= i < |nodes| ==> items[i] == Item(nodes[i].value.key, nodes[i].value.value)
    }

    constructor (len: V -> int)
      ensures Valid() && fresh(Repr)
      ensures items == [] && this.len == len
    {
      this.len := len;
      var l := new List<V>();
      ll := l;
      cache := map[];
      nBytes := 0;
      items := [];
      Repr := {this, l, l.root};
    }

    /** Where the element that the map gives for `key` stands in the list. */
    ghost function IndexOf(key: Str): (i: nat)
      requires Valid() && key in cache
      reads this, Repr
      ensures i < |items| && items[i].key == key && ll.nodes[i] == cache[key]
    {
      assert HasKey(items, key);
      var i :| 0 <= i < |items| && items[i].key == key;
      i
    }

    method Get(key: Str) returns (r: Option<V>)
      requires Valid()
      modifies Repr
      ensures Valid() && Repr == old(Repr)
      ensures r == Find(old(items), key)
      ensures items == Touch(old(items), key)
    {
      if key !in cache {
        AbsentKey(items, key);
        return None;
      }
      var ele := cache[key];
      ghost var i := IndexOf(key);
      FrontShapes(items, key, i, items[i].value);
      hide Valid, Touch, Find, Spliced;
      ToFront(ele, i);
      r := Some(ele.value.value);
    }

    /** A hit: the element goes to the front. */
    method ToFront(ele: Element<V>, ghost i: nat)
      requires Valid() && i < |items| && ll.nodes[i] == ele
      modifies Repr
      ensures Valid() && Repr == old(Repr)
      ensures items == [old(items)[i]] + Spliced(old(items), i)
      ensures ll.nodes == [ele] + Spliced(old(ll.nodes), i) && cache == old(cache)
      ensures ele.value != null && ele.value.value == old(items)[i].value
    {
      hide List.Valid, Indexed, UniqueKeys, Bytes, Stores, Spliced;
      FrontKept(len, cache, ll.nodes, items, i);
      Lift(ele, i);
    }

    /** The list's part of a hit. */
    method Lift(ele: Element<V>, ghost i: nat)
      requires Valid() && i < |items| && ll.nodes[i] == ele
      modifies Repr
      ensures Linked() && Repr == old(Repr)
      ensures items == [old(items)[i]] + Spliced(old(items), i)
      ensures ll.nodes == [ele] + Spliced(old(ll.nodes), i)
      ensures ele.value != null && ele.value.value == old(items)[i].value
      ensures cache == old(cache) && nBytes == old(nBytes)
    {
      hide List.Valid, Indexed, UniqueKeys, Bytes;
      ghost var its := [items[i]] + Spliced(items, i);
      FrontMembers(ll.nodes, i);
      StoresFront(ll.nodes, items, i);
      ll.MoveToFront(ele, i);
      items := its;
    }

    lemma StoresFront(nodes: seq<Element<V>>, items: seq<Item<V>>, i: nat)
      requires forall e :: e in nodes ==> e.value != null
      requires Stores(nodes, items) && i < |items|
      ensures Stores([nodes[i]] + Spliced(nodes, i), [items[i]] + Spliced(items, i))
    {}

    /** The entry of the first element gets another value. */
    method Overwrite(ele: Element<V>, value: V)
      requires Valid() && items != [] && ll.nodes[0] == ele
      modifies Repr
      ensures Valid() && Repr == old(Repr)
      ensures items == [Item(old(items)[0].key, value)] + old(items)[1..]
    {
      hide List.Valid, Indexed, UniqueKeys, Bytes, Without, Find;
      ghost var its := [Item(items[0].key, value)] + items[1..];
      var kv := ele.value;
      HeadChanged(len, cache, ll.nodes, items, value);
      OtherKeys(items, 0);
      nBytes := nBytes + len(value) - len(kv.value);
      kv.value := value;
      items := its;
    }

    method Upsert(key: Str, value: V)
      requires Valid()
      modifies Repr
      ensures Valid() && fresh(Repr - old(Repr))
      ensures items == Put(old(items), key, value)
    {
      if key in cache {
        var ele := cache[key];
        ghost var i := IndexOf(key);
        FrontShapes(items, key, i, value);
        ghost var rest := Spliced(items, i);
        assert ([items[i]] + rest)[1..] == rest;
        hide Valid, Put, Spliced;
        ToFront(ele, i);
        Overwrite(ele, value);
      } else {
        Insert(key, value);
      }
    }

    method Insert(key: Str, value: V)
      requires Valid() && key !in cache
      modifies Repr
      ensures Valid() && fresh(Repr - old(Repr))
      ensures items == Put(old(items), key, value)
    {
      hide List.Valid, Indexed, UniqueKeys, Bytes, Without, Find, HasKey, Stores;
      var entry := new Entry<V>(key, value);
      var ele := Push(entry);
      InsertShapes(len, cache, old(ll.nodes), old(items), key, value, ele);
      hide Put;
      cache := cache[key := ele];
      nBytes := nBytes + |key| + len(value);
    }

    /** The list's part of an insertion; map and counter still know nothing of it. */
    method Push(entry: Entry<V>) returns (ele: Element<V>)
      requires Valid() && entry !in Repr
      modifies Repr
      ensures fresh(ele) && Repr == old(Repr) + {ele, entry}
      ensures Linked() && ll.nodes == [ele] + old(ll.nodes)
      ensures items == [Item(entry.key, entry.value)] + old(items)
      ensures cache == old(cache) && nBytes == old(nBytes)
    {
      hide List.Valid, Indexed, UniqueKeys, Bytes;
      ghost var nodes, its := ll.nodes, items;
      ele := ll.PushFront(entry);
      StoresInsert(ele, nodes, its);
      hide Stores;
      items := [Item(entry.key, entry.value)] + its;
      Repr := Repr + {ele, entry};
    }

    lemma StoresInsert(e: Element<V>, nodes: seq<Element<V>>, items: seq<Item<V>>)
      requires e.value != null && forall n :: n in nodes ==> n.value != null
      requires Stores(nodes, items)
      ensures Stores([e] + nodes, [Item(e.value.key, e.value.value)] + items)
    {}

    lemma CounterIsSum()
      requires Valid()
      ensures nBytes == Bytes(len, items)
    {}

    /** RemoveOldest without its callback: the entry taken out, or null when there is none. */
    method DropOldest() returns (victim: Entry?<V>)
      requires Valid()
      modifies Repr
      ensures Valid() && Repr == old(Repr)
      ensures old(items) == [] ==> victim == null && items == []
      ensures old(items) != [] ==> victim != null && old(items) == items + [Item(victim.key, victim.value)]
    {
      var ele := ll.Back();
      if ele == null {
        return null;
      }
      victim := DropBack(ele);
    }

    method DropBack(ele: Element<V>) returns (victim: Entry<V>)
      requires Valid() && items != [] && ele == ll.nodes[|items| - 1]
      modifies Repr
      ensures Valid() && Repr == old(Repr)
      ensures old(items) == items + [Item(victim.key, victim.value)]
    {
      hide List.Valid, Indexed, UniqueKeys, Bytes, Stores;
      DropShapes(len, cache, ll.nodes, items);
      victim := Pop(ele);
      cache := cache - {victim.key};
      nBytes := nBytes - (|victim.key| + len(victim.value));
    }

    /** The list's part of a removal. */
    method Pop(ele: Element<V>) returns (victim: Entry<V>)
      requires Valid() && items != [] && ele == ll.nodes[|items| - 1]
      modifies Repr
      ensures Linked() && Repr == old(Repr)
      ensures items == old(items)[..|old(items)| - 1] && ll.nodes == old(ll.nodes)[..|old(items)| - 1]
      ensures Item(victim.key, victim.value) == old(items)[|old(items)| - 1]
      ensures cache == old(cache) && nBytes == old(nBytes)
    {
      hide List.Valid, Indexed, UniqueKeys, Bytes;
      ghost var n := |items| - 1;
      LastSpliced(ll.nodes);
      victim := ele.value;
      ll.Remove(ele, n);
      items := items[..n];
    }

    method Clear()
      requires Valid()
      modifies Repr
      ensures Valid() && Repr == old(Repr)
      ensures items == []
    {
      hide List.Valid;
      cache := map[];
      ll.Init();
      nBytes := 0;
      items := [];
    }
  }
}
