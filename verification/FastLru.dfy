/**
  FastLRU: one list, map and byte counter per shard, chosen by the hash of the key.
  The methods are the code run by one caller at a time.
 */
module FastLru {
  import opened Prelude
  import opened LruSpec
  import opened Store
  import opened Rounding
  import opened ShardChoice
  import opened ShardedSpec
  import opened Lru

  class LruShard<V> {
    const maxBytes: int
    const callback: bool       // OnEvicted is not nil
    const store: Store<V>
    var evicted: seq<Item<V>>  // the calls made to OnEvicted so far

    ghost predicate Valid()
      reads this, store, store.Repr
    {
      store.Valid() && this !in store.Repr
    }

    constructor (maxBytes: int, len: V -> int, callback: bool)
      ensures Valid() && fresh(store) && fresh(store.Repr) && store.items == [] && evicted == []
      ensures this.maxBytes == maxBytes && store.len == len && this.callback == callback
    {
      this.maxBytes := maxBytes;
      this.callback := callback;
      store := new Store<V>(len);
      evicted := [];
    }

    method Get(key: Str) returns (r: Option<V>)
      requires Valid()
      modifies this, store.Repr
      ensures Valid() && fresh(store.Repr - old(store.Repr)) && evicted == old(evicted)
      ensures r == Find(old(store.items), key)
      ensures store.items == Touch(old(store.items), key)
    {
      r := store.Get(key);
    }

    method Clear()
      requires Valid()
      modifies this, store.Repr
      ensures Valid() && store.Repr == old(store.Repr) && evicted == old(evicted)
      ensures store.items == []
    {
      store.Clear();
    }

    /** Under the shard's lock. Only the last victim is remembered, and told if its key is not empty. */
    method Add(key: Str, value: V)
      requires Valid() && LoopStops(store.len, maxBytes, Put(store.items, key, value))
      modifies this, store.Repr
      ensures Valid() && fresh(store.Repr - old(store.Repr))
      ensures store.items == LruSpec.Add(store.len, maxBytes, old(store.items), key, value)
      ensures store.items <= Put(old(store.items), key, value)
      ensures maxBytes == 0 ==> store.items == Put(old(store.items), key, value)
      ensures maxBytes > 0 ==> Bytes(store.len, store.items) <= maxBytes
      ensures var full := Put(old(store.items), key, value);
              maxBytes != 0 ==> forall n :: |store.items| < n <= |full| ==> Bytes(store.len, full[..n]) > maxBytes
      ensures var full := Put(old(store.items), key, value);
              var n := |store.items|;
              evicted == old(evicted) + (if callback && n < |full| && full[n].key != [] then [full[n]] else [])
    {
      hide Store.Valid, LruSpec.Put, Trim, LoopStops;
      store.Upsert(key, value);
      ghost var full := store.items;
      store.CounterIsSum();
      var evictedKey: Str := [];
      var victim: Option<V> := None;
      while maxBytes != 0 && store.nBytes > maxBytes
        invariant Valid() && fresh(store.Repr - old(store.Repr)) && evicted == old(evicted)
        invariant store.nBytes == Bytes(store.len, store.items)
        invariant store.items <= full
        invariant Trim(store.len, maxBytes, store.items) == Trim(store.len, maxBytes, full)
        invariant |store.items| == |full| ==> evictedKey == []
        invariant |store.items| < |full| ==> victim.Some? && Item(evictedKey, victim.value) == full[|store.items|]
        invariant LoopStops(store.len, maxBytes, store.items)
        decreases |store.items|
      {
        LoopGoesOn(store.len, maxBytes, store.items);
        EvictionStep(store.len, maxBytes, false, full, store.items);
        var kv := store.DropOldest();
        store.CounterIsSum();
        if kv != null {
          evictedKey := kv.key;
          victim := Some(kv.value);
        }
      }
      TrimStops(store.len, maxBytes, store.items);
      TrimInBytes(store.len, maxBytes, full);
      if evictedKey != [] && callback {
        evicted := evicted + [Item(evictedKey, victim.value)];
      }
    }
  }

  /** Two shards share no object. */
  ghost predicate Apart<V>(s: LruShard<V>, t: LruShard<V>)
    reads s, s.store, t, t.store
  {
    var (ss, ts) := ({s as object, s.store} + s.store.Repr, {t as object, t.store} + t.store.Repr);
    ss !! ts
  }

  /** The shard count that NewFastLRU settles on. */
  function Rounded(shardCount: bv64): bv64 {
    RoundUp(if shardCount == 0 || Negative(shardCount) then 32 else shardCount)
  }

  /** Positive, though not always a power of two. */
  lemma RoundedIsPositive(shardCount: bv64)
    ensures Rounded(shardCount) != 0 && ToNat(Rounded(shardCount)) > 0
  {
    RoundUpIsNotZero(if shardCount == 0 || Negative(shardCount) then 32 else shardCount);
    hide Rounded;
    NatOfPredecessor(Rounded(shardCount));
  }

  /** A power of two whenever the cascade makes one, 32 where no count is given. */
  lemma RoundedIff(shardCount: bv64)
    ensures IsRoundedUp(if shardCount == 0 || Negative(shardCount) then 32 else shardCount, Rounded(shardCount))
            <==> Roundable(if shardCount == 0 || Negative(shardCount) then 32 else shardCount)
  {
    hide RoundUp, IsRoundedUp, Roundable;
    RoundsUpIff(if shardCount == 0 || Negative(shardCount) then 32 else shardCount);
  }

  lemma RoundUpIsNotZero(count: bv64)
    requires count != 0 && !Negative(count)
    ensures RoundUp(count) != 0
  {}

  method ChooseCount(shardCount: bv64) returns (n: bv64)
    ensures n == Rounded(shardCount)
  {
    n := shardCount;
    if n == 0 || Negative(n) {
      n := 32;
    }
    n := NextPowerOfTwo(n);
  }

  /** A shard as NewFastLRU makes it. */
  ghost predicate Made<V>(s: LruShard<V>, maxBytes: int, len: V -> int, callback: bool)
    reads s, s.store, s.store.Repr
  {
    && s.Valid() && s.store.items == [] && s.evicted == []
    && s.maxBytes == maxBytes && s.store.len == len && s.callback == callback
  }

  method MakeShards<V>(n: nat, maxBytes: int, len: V -> int, callback: bool)
    returns (shards: seq<LruShard<V>>, ghost repr: set<object>)
    ensures |shards| == n && fresh(repr)
    ensures forall i :: 0 <= i < n ==>
              shards[i] in repr && shards[i].store in repr && shards[i].store.Repr <= repr
              && Made(shards[i], maxBytes, len, callback)
    ensures forall i, j :: 0 <= i < n && 0 <= j < n && i != j ==> Apart(shards[i], shards[j])
  {
    hide Store.Valid;
    shards, repr := [], {};
    for k := 0 to n
      invariant |shards| == k && fresh(repr)
      invariant forall i :: 0 <= i < k ==>
                  shards[i] in repr && shards[i].store in repr && shards[i].store.Repr <= repr
                  && Made(shards[i], maxBytes, len, callback)
      invariant forall i, j :: 0 <= i < k && 0 <= j < k && i != j ==> Apart(shards[i], shards[j])
    {
      var s := new LruShard<V>(maxBytes, len, callback);
      shards := shards + [s];
      repr := repr + {s, s.store} + s.store.Repr;
    }
  }

  class FastLRU<V> {
    const shards: seq<LruShard<V>>
    const count: bv64          // len(shards); shardMask is count - 1
    const len: V -> int
    const shardBytes: int
    var gets: int
    var hits: int
    var misses: int
    ghost var items: seq<seq<Item<V>>>
    ghost var Repr: set<object>

    /** Where the rounding overflows to a negative number, make panics in the source. */
    constructor (maxBytes: int, len: V -> int, callback: bool, shardCount: bv64)
      requires !Negative(Rounded(shardCount))
      ensures Valid() && fresh(Repr) && this.len == len
      ensures count == Rounded(shardCount) && ToNat(count) > 0
      ensures IsRoundedUp(if shardCount == 0 || Negative(shardCount) then 32 else shardCount, count)
              <==> Roundable(if shardCount == 0 || Negative(shardCount) then 32 else shardCount)
      ensures shardBytes == TruncDiv(maxBytes, ToNat(count))
      ensures maxBytes >= 0 ==> ToNat(count) * shardBytes <= maxBytes < ToNat(count) * (shardBytes + 1)
      ensures maxBytes < 0 ==> ToNat(count) * -shardBytes <= -maxBytes < ToNat(count) * (-shardBytes + 1)
      ensures items == seq(ToNat(count), _ => [])
    {
      hide Store.Valid, WellPlaced, ToNat, TruncDiv, Rounded, IsRoundedUp, Roundable;
      RoundedIsPositive(shardCount);
      RoundedIff(shardCount);
      ShareMeaning(if maxBytes >= 0 then maxBytes else -maxBytes, ToNat(Rounded(shardCount)));
      var n := ChooseCount(shardCount);
      var budget := TruncDiv(maxBytes, ToNat(n));
      var made, repr := MakeShards<V>(ToNat(n), budget, len, callback);
      count := n;
      shardBytes := budget;
      this.len := len;
      shards := made;
      gets, hits, misses := 0, 0, 0;
      items := seq(ToNat(n), _ => []);
      new;
      Repr := {this as object} + repr;
      assert forall i :: 0 <= i < |shards| ==> Made(shards[i], shardBytes, len, callback);
      assert forall i :: 0 <= i < |shards| ==> Holds(i);
      NothingPlaced<V>(count, ToNat(count));
    }

    ghost predicate Valid()
      reads this, Repr
    {
      && count != 0 && |shards| == ToNat(count)
      && this in Repr
      && |items| == |shards|
      && InOrder()
      && WellPlaced(count, items)
    }

    ghost predicate InOrder()
      requires |items| == |shards|
      reads this, Repr
    {
      && (forall i :: 0 <= i < |shards| ==> Holds(i))
      && (forall i, j :: 0 <= i < |shards| && 0 <= j < |shards| && i != j ==>
            shards[i] in Repr && shards[i].store in Repr && shards[j] in Repr && shards[j].store in Repr
            && Apart(shards[i], shards[j]))
    }

    lemma HoldsAt(i: nat)
      requires |items| == |shards| && InOrder() && i < |shards|
      ensures shards[i] in Repr && shards[i].store.Repr <= Repr
      ensures this !in shards[i].store.Repr && this as object != shards[i]
      ensures shards[i].Valid() && shards[i].store.items == items[i]
      ensures shards[i].maxBytes == shardBytes && shards[i].store.len == len
    {
      assert Holds(i);
    }

    /** Shard `i` is in order, within the cache's footprint, and holds items[i]. */
    ghost predicate Holds(i: nat)
      requires i < |shards| == |items|
      reads this, Repr
    {
      var s := shards[i];
      && s in Repr && s.store in Repr && s.store.Repr <= Repr && this !in s.store.Repr && this as object != s
      && s.Valid() && s.maxBytes == shardBytes && s.store.len == len
      && s.store.items == items[i]
    }

    /** If nothing of the cache has changed but shard `i` and the bookkeeping, all shards are still in order and apart. */
    twostate lemma OneShardChanged(i: nat)
      requires |old(items)| == |shards| && old(InOrder()) && i < |shards|
      requires old(Repr) <= Repr && |items| == |shards|
      requires shards[i].Valid() && shards[i].store.items == items[i] && shards[i].store.Repr <= Repr
      requires forall j :: 0 <= j < |shards| && j != i ==> items[j] == old(items)[j]
      requires fresh(shards[i].store.Repr - old(shards[i].store.Repr))
      requires unchanged(old(Repr) - ({this as object, shards[i]} + old(shards[i].store.Repr)))
      ensures InOrder()
    {
      hide Store.Valid;
      assert old(Holds(i));
      forall j | 0 <= j < |shards| ensures Holds(j) {
        if j != i {
          assert old(Holds(j)) && old(Apart(shards[i], shards[j]));
          assert shards[j].store.Valid();
        }
      }
      forall j, k | 0 <= j < |shards| && 0 <= k < |shards| && j != k ensures Apart(shards[j], shards[k]) {
        assert Holds(j) && Holds(k);
        assert old(Holds(j)) && old(Holds(k));
        assert old(Apart(shards[j], shards[k]));
        assert j != i ==> old(Apart(shards[i], shards[j]));
        assert k != i ==> old(Apart(shards[i], shards[k]));
      }
    }

    method Get(key: Str) returns (r: Option<V>)
      requires Valid()
      modifies Repr
      ensures Valid() && fresh(Repr - old(Repr))
      ensures items == Step(count, len, shardBytes, old(items), DoGet(key))
      ensures ShardOf(count, key) < |old(items)| && r == Find(old(items)[ShardOf(count, key)], key)
      ensures gets == old(gets) + 1
      ensures hits == old(hits) + (if r.Some? then 1 else 0) && misses == old(misses) + (if r.None? then 1 else 0)
    {
      hide Store.Valid, InOrder, Holds, WellPlaced, Touch, Find, ToNat, ShardOf;
      StepKeepsPlaced(count, len, shardBytes, items, DoGet(key));
      var i := GetShard(key);
      HoldsAt(i);
      r := shards[i].Get(key);
      gets := gets + 1;
      if r.Some? {
        hits := hits + 1;
      } else {
        misses := misses + 1;
      }
      items := items[i := shards[i].store.items];
      Repr := Repr + shards[i].store.Repr;
      OneShardChanged(i);
    }

    method Add(key: Str, value: V)
      requires Valid()
      requires ShardOf(count, key) < |items| && LoopStops(len, shardBytes, Put(items[ShardOf(count, key)], key, value))
      modifies Repr
      ensures Valid() && fresh(Repr - old(Repr))
      ensures items == Step(count, len, shardBytes, old(items), DoAdd(key, value))
    {
      hide Store.Valid, InOrder, Holds, WellPlaced, LruSpec.Add, LruSpec.Put, ToNat, ShardOf, LoopStops;
      StepKeepsPlaced(count, len, shardBytes, items, DoAdd(key, value));
      var i := GetShard(key);
      HoldsAt(i);
      shards[i].Add(key, value);
      items := items[i := shards[i].store.items];
      Repr := Repr + shards[i].store.Repr;
      OneShardChanged(i);
    }

    /** The number of distinct keys in the cache. */
    method Len() returns (total: nat)
      requires Valid()
      ensures total == |AllKeys(items)|
    {
      hide WellPlaced, AllKeys, ToNat;
      LenCountsKeys(count, items);
      total := 0;
      for i := 0 to |shards|
        invariant total == TotalLen(items[..i])
      {
        assert Holds(i);
        assert items[..i + 1][..i] == items[..i];
        total := total + shards[i].store.ll.length;
      }
      assert items[..|shards|] == items;
    }

    method Clear()
      requires Valid()
      modifies Repr
      ensures Valid() && Repr == old(Repr)
      ensures items == Step(count, len, shardBytes, old(items), DoClear)
    {
      hide Store.Valid, InOrder, Holds, WellPlaced, ToNat;
      for i := 0 to |shards|
        invariant Valid() && Repr == old(Repr)
        invariant |items| == |old(items)|
        invariant forall j :: 0 <= j < i ==> items[j] == []
      {
        ClearShard(i);
      }
    }

    method ClearShard(i: nat)
      requires Valid() && i < |shards|
      modifies Repr
      ensures Valid() && Repr == old(Repr)
      ensures items == old(items)[i := []]
    {
      hide Store.Valid, InOrder, Holds, WellPlaced, ToNat;
      HoldsAt(i);
      EmptiedKeepsPlaced(count, items, i);
      shards[i].Clear();
      items := items[i := []];
      OneShardChanged(i);
    }

    /** f.shards[fastHash(key) & f.shardMask] */
    method GetShard(key: Str) returns (i: nat)
      requires Valid()
      ensures i == ShardOf(count, key) < |shards|
    {
      ShardInRange(count, key);
      var hash := FastHash(key);
      i := ToNat(ShardIndex(hash, count));
    }
  }

  lemma EmptiedKeepsPlaced<V>(count: bv64, shards: seq<seq<Item<V>>>, i: nat)
    requires WellPlaced(count, shards) && i < |shards|
    ensures WellPlaced(count, shards[i := []])
  {
    hide ShardOf, ShardPlaced;
    EmptyPlaced<V>(count, i);
  }

  lemma NothingPlaced<V>(count: bv64, n: nat)
    ensures WellPlaced<V>(count, seq(n, _ => []))
  {
    hide ShardOf, ShardPlaced;
    forall i | 0 <= i < n ensures ShardPlaced<V>(count, [], i) {
      EmptyPlaced<V>(count, i);
    }
  }
}
