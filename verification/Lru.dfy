/**
  lru.Cache, and the lock-protected, lazily created cache of the cache package. A
  critical section of the latter is one method call here.
 */
module Lru {
  import opened Prelude
  import opened LruSpec
  import opened Store

  function Reverse<T>(xs: seq<T>): seq<T> {
    if xs == [] then [] else [xs[|xs| - 1]] + Reverse(xs[..|xs| - 1])
  }

  /** What the callback is told when the eviction loop cuts `xs` down to its first `n` items: last item first. */
  function Told<V>(callback: bool, xs: seq<Item<V>>, n: nat): seq<Item<V>>
    requires n <= |xs|
  {
    if callback then Reverse(xs[n..]) else []
  }

  lemma ToldOneMore<V>(callback: bool, xs: seq<Item<V>>, n: nat)
    requires n < |xs|
    ensures Told(callback, xs, n) == Told(callback, xs, n + 1) + (if callback then [xs[n]] else [])
  {
    ReverseAppend([xs[n]], xs[n + 1..]);
    assert xs[n..] == [xs[n]] + xs[n + 1..];
  }

  lemma ToldNothing<V>(callback: bool, xs: seq<Item<V>>)
    ensures Told(callback, xs, |xs|) == []
  {}

  /** One turn of the eviction loop, on values: the goal does not move. */
  lemma EvictionStep<V>(len: V -> int, max: int, callback: bool, full: seq<Item<V>>, xs: seq<Item<V>>)
    requires xs <= full && xs != [] && !Fits(len, max, xs)
    ensures Trim(len, max, xs) == Trim(len, max, xs[..|xs| - 1])
    ensures xs[..|xs| - 1] <= full
    ensures Told(callback, full, |xs| - 1)
            == Told(callback, full, |xs|) + (if callback then [xs[|xs| - 1]] else [])
  {
    ToldOneMore(callback, full, |xs| - 1);
  }

  lemma TrimStops<V>(len: V -> int, max: int, xs: seq<Item<V>>)
    requires Fits(len, max, xs)
    ensures Trim(len, max, xs) == xs
  {}

  lemma {:induction false} ReverseAppend<T>(xs: seq<T>, ys: seq<T>)
    ensures Reverse(xs + ys) == Reverse(ys) + Reverse(xs)
  {
    if ys == [] {
      assert xs + ys == xs;
    } else {
      ReverseAppend(xs, ys[..|ys| - 1]);
      assert (xs + ys)[..|xs + ys| - 1] == xs + ys[..|ys| - 1];
    }
  }

  class Cache<V> {
    const maxBytes: int
    const callback: bool         // OnEvicted is not nil
    const store: Store<V>
    var evicted: seq<Item<V>>    // the calls made to OnEvicted so far

    ghost predicate Valid()
      reads this, store, store.Repr
    {
      store.Valid() && this !in store.Repr
    }

    constructor (maxBytes: int, len: V -> int, callback: bool)
      ensures Valid() && fresh(store) && fresh(store.Repr)
      ensures this.maxBytes == maxBytes && this.callback == callback && store.len == len
      ensures store.items == [] && evicted == []
    {
      this.maxBytes := maxBytes;
      this.callback := callback;
      store := new Store<V>(len);
      evicted := [];
    }

    method Get(key: Str) returns (r: Option<V>)
      requires Valid()
      modifies store.Repr
      ensures Valid() && fresh(store.Repr - old(store.Repr))
      ensures r == Find(old(store.items), key)
      ensures store.items == Touch(old(store.items), key)
    {
      r := store.Get(key);
    }

    method RemoveOldest()
      requires Valid()
      modifies this, store.Repr
      ensures Valid() && store.Repr == old(store.Repr)
      ensures old(store.items) == [] ==> store.items == [] && evicted == old(evicted)
      ensures old(store.items) != [] ==>
                && store.items == old(store.items)[..|old(store.items)| - 1]
                && evicted == old(evicted)
                              + (if callback then [old(store.items)[|old(store.items)| - 1]] else [])
    {
      var kv := store.DropOldest();
      if kv != null && callback {
        evicted := evicted + [Item(kv.key, kv.value)];
      }
    }

    /**
      The items left are the ones LruSpec.Add leaves; the callback hears of the others, oldest first.
      For which budgets the loop comes to an end, EvictionLoopStopsIff says; elsewhere the source hangs.
     */
    method Add(key: Str, value: V)
      requires Valid() && LoopStops(store.len, maxBytes, Put(store.items, key, value))
      modifies this, store.Repr
      ensures Valid() && fresh(store.Repr - old(store.Repr))
      ensures store.items == LruSpec.Add(store.len, maxBytes, old(store.items), key, value)
      ensures store.items <= Put(old(store.items), key, value)
      ensures maxBytes == 0 ==> store.items == Put(old(store.items), key, value)
      ensures maxBytes > 0 ==> Bytes(store.len, store.items) <= maxBytes
      ensures var full := Put(old(store.items), key, value);
              maxBytes != 0 ==> forall n :: |store.items| < n <= |full| ==> Bytes(store.len, full[..n]) > maxBytes
      ensures evicted == old(evicted) + Told(callback, Put(old(store.items), key, value), |store.items|)
    {
      hide Store.Valid, LruSpec.Put, Trim, Told, LoopStops;
      store.Upsert(key, value);
      ghost var full := store.items;
      ToldNothing(callback, full);
      store.CounterIsSum();
      while maxBytes != 0 && maxBytes < store.nBytes
        invariant Valid() && fresh(store.Repr - old(store.Repr))
        invariant store.nBytes == Bytes(store.len, store.items)
        invariant store.items <= full
        invariant Trim(store.len, maxBytes, store.items) == Trim(store.len, maxBytes, full)
        invariant evicted == old(evicted) + Told(callback, full, |store.items|)
        invariant LoopStops(store.len, maxBytes, store.items)
        decreases |store.items|
      {
        LoopGoesOn(store.len, maxBytes, store.items);
        EvictionStep(store.len, maxBytes, callback, full, store.items);
        RemoveOldest();
        store.CounterIsSum();
      }
      TrimStops(store.len, maxBytes, store.items);
      TrimInBytes(store.len, maxBytes, full);
    }

    method Len() returns (n: int)
      requires Valid()
      ensures n == |store.items|
    {
      n := store.ll.length;
    }
  }

  /** The type `cache`: an LRU cache without callback, created by the first `add`. */
  class MainCache<V> {
    const cacheBytes: int
    const len: V -> int
    var lru: Cache?<V>

    /** Everything the cache's state depends on. */
    ghost function Footprint(): set<object>
      reads this, lru, if lru == null then {} else {lru.store}
    {
      if lru == null then {this} else {this, lru, lru.store} + lru.store.Repr
    }

    ghost predicate Valid()
      reads this, lru, if lru == null then {} else {lru.store} + lru.store.Repr
    {
      lru != null ==>
        && lru.Valid() && lru.maxBytes == cacheBytes && lru.store.len == len && !lru.callback
        && this !in lru.store.Repr
    }

    ghost function Items(): seq<Item<V>>
      reads this, lru, if lru == null then {} else {lru.store}
    {
      if lru == null then [] else lru.store.items
    }

    ghost function Owned(): set<object>
      reads this, lru, if lru == null then {} else {lru.store}
    {
      if lru == null then {} else {lru} + lru.store.Repr
    }

    constructor (cacheBytes: int, len: V -> int)
      ensures Valid() && Items() == [] && Owned() == {}
      ensures this.cacheBytes == cacheBytes && this.len == len
    {
      this.cacheBytes := cacheBytes;
      this.len := len;
      lru := null;
    }

    method Add(key: Str, value: V)
      requires Valid() && LoopStops(len, cacheBytes, Put(Items(), key, value))
      modifies this, Owned()
      ensures Valid() && fresh(Owned() - old(Owned()))
      ensures Items() == LruSpec.Add(len, cacheBytes, old(Items()), key, value)
    {
      if lru == null {
        lru := new Cache<V>(cacheBytes, len, false);
      }
      lru.Add(key, value);
    }

    method Get(key: Str) returns (r: Option<V>)
      requires Valid()
      modifies Owned()
      ensures Valid() && fresh(Owned() - old(Owned()))
      ensures r == Find(old(Items()), key)
      ensures Items() == Touch(old(Items()), key)
    {
      if lru == null {
        return None;
      }
      r := lru.Get(key);
    }
  }
}
