/**
  What a byte-bounded LRU cache means, on values: a most-recent-first
  sequence of items, and the operations on it. The classes of Store.dfy, Lru.dfy and
  FastLru.dfy are proved against these functions; the laws the cache exists
  for are proved here about them.
 */
module LruSpec {
  import opened Prelude

  datatype Item<V> = Item(key: Str, value: V)

  function ItemBytes<V>(len: V -> int, x: Item<V>): int {
    |x.key| + len(x.value)
  }

  function Bytes<V>(len: V -> int, xs: seq<Item<V>>): int {
    if xs == [] then 0 else Bytes(len, xs[..|xs| - 1]) + ItemBytes(len, xs[|xs| - 1])
  }

  predicate HasKey<V>(xs: seq<Item<V>>, key: Str) {
    exists i :: 0 <= i < |xs| && xs[i].key == key
  }

  ghost predicate UniqueKeys<V>(xs: seq<Item<V>>) {
    forall i, j :: 0 <= i < j < |xs| ==> xs[i].key != xs[j].key
  }

  function Find<V>(xs: seq<Item<V>>, key: Str): Option<V> {
    if xs == [] then None
    else if xs[0].key == key then Some(xs[0].value)
    else Find(xs[1..], key)
  }

  function Without<V>(xs: seq<Item<V>>, key: Str): seq<Item<V>> {
    if xs == [] then []
    else if xs[0].key == key then Without(xs[1..], key)
    else [xs[0]] + Without(xs[1..], key)
  }

  /** A hit moves the item to the front; a miss changes nothing. */
  function Touch<V>(xs: seq<Item<V>>, key: Str): seq<Item<V>> {
    match Find(xs, key)
    case None => xs
    case Some(v) => [Item(key, v)] + Without(xs, key)
  }

  function Put<V>(xs: seq<Item<V>>, key: Str, value: V): seq<Item<V>> {
    [Item(key, value)] + Without(xs, key)
  }

  /** Whether the eviction loop stops at `xs`; a budget of 0 means unlimited. */
  predicate Fits<V>(len: V -> int, max: int, xs: seq<Item<V>>) {
    max == 0 || Bytes(len, xs) <= max
  }

  function Trim<V>(len: V -> int, max: int, xs: seq<Item<V>>): seq<Item<V>> {
    if xs == [] || Fits(len, max, xs) then xs else Trim(len, max, xs[..|xs| - 1])
  }

  function Add<V>(len: V -> int, max: int, xs: seq<Item<V>>, key: Str, value: V): seq<Item<V>> {
    Trim(len, max, Put(xs, key, value))
  }

  // ---- what the operations mean ---------------------------------------------

  lemma {:induction false} BytesConcat<V>(len: V -> int, xs: seq<Item<V>>, ys: seq<Item<V>>)
    ensures Bytes(len, xs + ys) == Bytes(len, xs) + Bytes(len, ys)
  {
    if ys == [] {
      assert xs + ys == xs;
    } else {
      BytesConcat(len, xs, ys[..|ys| - 1]);
      assert (xs + ys)[..|xs + ys| - 1] == xs + ys[..|ys| - 1];
    }
  }

  lemma {:induction false} AbsentKey<V>(xs: seq<Item<V>>, key: Str)
    requires !HasKey(xs, key)
    ensures Find(xs, key) == None && Without(xs, key) == xs
  {
    if xs != [] {
      assert xs[0].key != key;
      forall i | 0 <= i < |xs[1..]| ensures xs[1..][i].key != key {
        assert xs[1..][i] == xs[i + 1];
      }
      AbsentKey(xs[1..], key);
    }
  }

  /** With unique keys, `Without` splices out the one position that holds the key. */
  lemma {:induction false} PresentKey<V>(xs: seq<Item<V>>, i: nat)
    requires UniqueKeys(xs) && i < |xs|
    ensures Find(xs, xs[i].key) == Some(xs[i].value)
    ensures Without(xs, xs[i].key) == xs[..i] + xs[i + 1..]
  {
    if i == 0 {
      assert !HasKey(xs[1..], xs[0].key);
      AbsentKey(xs[1..], xs[0].key);
    } else {
      PresentKey(xs[1..], i - 1);
      assert xs[0].key != xs[i].key;
      assert xs[..i] + xs[i + 1..] == [xs[0]] + (xs[1..][..i - 1] + xs[1..][i..]);
    }
  }

  lemma {:induction false} WithoutKeys<V>(xs: seq<Item<V>>, key: Str)
    ensures !HasKey(Without(xs, key), key)
    ensures forall x :: x in Without(xs, key) ==> x in xs
    ensures forall x :: x in xs && x.key != key ==> x in Without(xs, key)
    ensures UniqueKeys(xs) ==> UniqueKeys(Without(xs, key))
  {
    if xs != [] {
      hide UniqueKeys;
      WithoutKeys(xs[1..], key);
      assert xs == [xs[0]] + xs[1..];
      if UniqueKeys(xs) {
        UniqueInFront(xs, Without(xs[1..], key));
      }
    }
  }

  lemma UniqueInFront<V>(xs: seq<Item<V>>, rest: seq<Item<V>>)
    requires xs != [] && UniqueKeys(xs) && forall x :: x in rest ==> x in xs[1..]
    ensures UniqueKeys(xs[1..])
    ensures UniqueKeys(rest) ==> UniqueKeys([xs[0]] + rest)
  {
    forall j | 0 <= j < |rest| ensures rest[j].key != xs[0].key {
      assert rest[j] in rest;
      assert rest[j] in xs[1..];
    }
  }

  lemma {:induction false} FindMeaning<V>(xs: seq<Item<V>>, key: Str)
    ensures Find(xs, key).Some? <==> HasKey(xs, key)
    ensures Find(xs, key).Some? ==> Item(key, Find(xs, key).value) in xs
  {
    if xs != [] && xs[0].key != key {
      FindMeaning(xs[1..], key);
      if HasKey(xs, key) {
        var i :| 0 <= i < |xs| && xs[i].key == key;
        assert xs[1..][i - 1].key == key;
      }
    }
  }

  /**
    The eviction loop leaves the longest prefix of the recency order that fits
    the budget: the least recently used items go, and only as many as needed.
   */
  lemma {:induction false} TrimLongestFittingPrefix<V>(len: V -> int, max: int, xs: seq<Item<V>>)
    ensures Trim(len, max, xs) <= xs
    ensures max >= 0 ==> Fits(len, max, Trim(len, max, xs))
    ensures forall n :: |Trim(len, max, xs)| < n <= |xs| ==> !Fits(len, max, xs[..n])
  {
    if xs != [] && !Fits(len, max, xs) {
      var ys := xs[..|xs| - 1];
      TrimLongestFittingPrefix(len, max, ys);
      forall n | |Trim(len, max, xs)| < n <= |xs| ensures !Fits(len, max, xs[..n]) {
        if n == |xs| {
          assert xs[..n] == xs;
        } else {
          assert ys[..n] == xs[..n];
        }
      }
    }
  }

  /** The sum of the lengths of keys and values, item by item. */
  lemma BytesMeaning<V>(len: V -> int, xs: seq<Item<V>>, key: Str, value: V)
    ensures Bytes(len, []) == 0
    ensures Bytes(len, xs + [Item(key, value)]) == Bytes(len, xs) + |key| + len(value)
  {
    assert (xs + [Item(key, value)])[..|xs|] == xs;
  }

  /**
    The same in bytes: a budget of 0 keeps everything, and so does one that is just met; otherwise
    what is left is within the budget, and one item more would exceed it.
   */
  lemma TrimInBytes<V>(len: V -> int, max: int, xs: seq<Item<V>>)
    ensures max == 0 || Bytes(len, xs) <= max ==> Trim(len, max, xs) == xs
    ensures max > 0 ==> Bytes(len, Trim(len, max, xs)) <= max
    ensures max != 0 ==> forall n :: |Trim(len, max, xs)| < n <= |xs| ==> Bytes(len, xs[..n]) > max
  {
    TrimLongestFittingPrefix(len, max, xs);
  }

  /** Conversely, those three facts determine the result. */
  lemma {:induction false} TrimIsTheOnlyOne<V>(len: V -> int, max: int, xs: seq<Item<V>>, ys: seq<Item<V>>)
    requires max >= 0 && ys <= xs && Fits(len, max, ys)
    requires forall n :: |ys| < n <= |xs| ==> !Fits(len, max, xs[..n])
    ensures ys == Trim(len, max, xs)
  {
    TrimLongestFittingPrefix(len, max, xs);
    var t := Trim(len, max, xs);
    assert xs[..|t|] == t && xs[..|ys|] == ys;
  }

  // ---- when the eviction loop terminates --------------------------------------

  /** `n` calls of RemoveOldest; on an empty list the call does nothing. */
  function Drop<V>(xs: seq<Item<V>>, n: nat): seq<Item<V>> {
    if n == 0 || xs == [] then xs else Drop(xs[..|xs| - 1], n - 1)
  }

  lemma {:induction false} DropIsPrefix<V>(xs: seq<Item<V>>, n: nat)
    ensures Drop(xs, n) == if n <= |xs| then xs[..|xs| - n] else []
  {
    if n != 0 && xs != [] {
      DropIsPrefix(xs[..|xs| - 1], n - 1);
      if n <= |xs| {
        assert xs[..|xs| - 1][..|xs| - n] == xs[..|xs| - n];
      }
    } else if n == 0 {
      assert xs[..|xs|] == xs;
    }
  }

  ghost predicate LoopStops<V>(len: V -> int, max: int, xs: seq<Item<V>>) {
    exists n: nat :: Fits(len, max, Drop(xs, n))
  }

  /** The loop condition and the list it leaves: while the loop goes on there is something to remove. */
  lemma LoopGoesOn<V>(len: V -> int, max: int, xs: seq<Item<V>>)
    requires LoopStops(len, max, xs) && !Fits(len, max, xs)
    ensures xs != [] && LoopStops(len, max, xs[..|xs| - 1])
  {
    hide Fits;
    var n: nat :| Fits(len, max, Drop(xs, n));
    DropIsPrefix(xs, n);
    if xs != [] {
      DropIsPrefix(xs[..|xs| - 1], n - 1);
      assert Drop(xs, n) == Drop(xs[..|xs| - 1], n - 1);
    }
  }

  /**
    The loop `for maxBytes != 0 && maxBytes < nBytes` ends exactly when some
    prefix fits. Every non-negative budget meets this through the empty
    prefix, even when one item alone exceeds the budget; a negative budget
    with non-negative lengths never does, and the loop spins on an empty list.
   */
  lemma EvictionLoopStopsIff<V>(len: V -> int, max: int, xs: seq<Item<V>>)
    ensures LoopStops(len, max, xs) <==> exists n :: 0 <= n <= |xs| && Fits(len, max, xs[..n])
    ensures max >= 0 ==> LoopStops(len, max, xs)
    ensures max < 0 && (forall x :: x in xs ==> len(x.value) >= 0) ==> !LoopStops(len, max, xs)
  {
    if LoopStops(len, max, xs) {
      var n: nat :| Fits(len, max, Drop(xs, n));
      DropIsPrefix(xs, n);
      var k := if n <= |xs| then |xs| - n else 0;
      assert Drop(xs, n) == xs[..k];
    }
    forall n | 0 <= n <= |xs| && Fits(len, max, xs[..n]) ensures LoopStops(len, max, xs) {
      DropIsPrefix(xs, |xs| - n);
      assert Drop(xs, |xs| - n) == xs[..n];
    }
    DropIsPrefix(xs, |xs|);
    assert Drop(xs, |xs|) == [];
    if max < 0 && (forall x :: x in xs ==> len(x.value) >= 0) {
      forall n: nat | 0 <= n <= |xs| ensures !Fits(len, max, xs[..n]) {
        BytesNonNegative(len, xs[..n]);
      }
    }
  }

  lemma {:induction false} BytesNonNegative<V>(len: V -> int, xs: seq<Item<V>>)
    requires forall x :: x in xs ==> len(x.value) >= 0
    ensures Bytes(len, xs) >= 0
  {
    if xs != [] {
      BytesNonNegative(len, xs[..|xs| - 1]);
      assert xs[|xs| - 1] in xs;
    }
  }

  lemma BytesOfOne<V>(len: V -> int, x: Item<V>)
    ensures Bytes(len, [x]) == ItemBytes(len, x)
  {
    assert [x][..0] == [];
  }

  lemma BytesOfThree<V>(len: V -> int, xs: seq<Item<V>>, x: Item<V>, ys: seq<Item<V>>)
    ensures Bytes(len, xs + [x] + ys) == Bytes(len, xs) + ItemBytes(len, x) + Bytes(len, ys)
  {
    BytesConcat(len, xs + [x], ys);
    BytesConcat(len, xs, [x]);
    BytesOfOne(len, x);
  }

  lemma SplitAt<T>(xs: seq<T>, i: nat)
    requires i < |xs|
    ensures xs == xs[..i] + [xs[i]] + xs[i + 1..]
  {}

  /** Taking an item out of the middle takes exactly its bytes out of the sum. */
  lemma BytesSplice<V>(len: V -> int, xs: seq<Item<V>>, i: nat)
    requires i < |xs|
    ensures Bytes(len, xs[..i] + xs[i + 1..]) == Bytes(len, xs) - ItemBytes(len, xs[i])
  {
    SplitAt(xs, i);
    BytesOfThree(len, xs[..i], xs[i], xs[i + 1..]);
    BytesConcat(len, xs[..i], xs[i + 1..]);
  }

  lemma BytesPrepend<V>(len: V -> int, x: Item<V>, xs: seq<Item<V>>)
    ensures Bytes(len, [x] + xs) == ItemBytes(len, x) + Bytes(len, xs)
  {
    BytesConcat(len, [x], xs);
    BytesOfOne(len, x);
  }

  /** Both ways an update reaches the front: the key's old position is spliced out, or there is none. */
  lemma UpdateShape<V>(xs: seq<Item<V>>, key: Str, i: nat)
    requires UniqueKeys(xs)
    requires if HasKey(xs, key) then i < |xs| && xs[i].key == key else i == |xs|
    ensures Find(xs, key) == if i < |xs| then Some(xs[i].value) else None
    ensures Without(xs, key) == if i < |xs| then xs[..i] + xs[i + 1..] else xs
  {
    if HasKey(xs, key) {
      PresentKey(xs, i);
    } else {
      AbsentKey(xs, key);
    }
  }

  lemma PutKeepsUnique<V>(xs: seq<Item<V>>, key: Str, value: V)
    requires UniqueKeys(xs)
    ensures UniqueKeys(Put(xs, key, value))
  {
    WithoutKeys(xs, key);
  }

  /** What an update does to the byte counter: the code's own two increments. */
  lemma PutBytes<V>(len: V -> int, xs: seq<Item<V>>, key: Str, value: V)
    requires UniqueKeys(xs)
    ensures Bytes(len, Put(xs, key, value)) == Bytes(len, xs)
            + (match Find(xs, key) case Some(v) => len(value) - len(v) case None => |key| + len(value))
  {
    BytesPrepend(len, Item(key, value), Without(xs, key));
    if HasKey(xs, key) {
      var i :| 0 <= i < |xs| && xs[i].key == key;
      UpdateShape(xs, key, i);
      BytesSplice(len, xs, i);
    } else {
      UpdateShape(xs, key, |xs|);
    }
  }

  /** A Touch is the Put of the value already there, so it moves no bytes. */
  lemma TouchKeepsBytes<V>(len: V -> int, xs: seq<Item<V>>, key: Str)
    requires UniqueKeys(xs)
    ensures UniqueKeys(Touch(xs, key)) && Bytes(len, Touch(xs, key)) == Bytes(len, xs)
    ensures multiset(Touch(xs, key)) == multiset(xs)
  {
    hide Bytes, UniqueKeys, Without;
    FindMeaning(xs, key);
    if HasKey(xs, key) {
      var v := Find(xs, key).value;
      PutKeepsUnique(xs, key, v);
      PutBytes(len, xs, key, v);
      var i :| 0 <= i < |xs| && xs[i].key == key;
      UpdateShape(xs, key, i);
      SplitAt(xs, i);
    }
  }

  /** Add keeps keys unique and, for a non-negative budget, ends within it. */
  lemma AddKeepsInvariant<V>(len: V -> int, max: int, xs: seq<Item<V>>, key: Str, value: V)
    requires UniqueKeys(xs) && max >= 0
    ensures UniqueKeys(Add(len, max, xs, key, value)) && Fits(len, max, Add(len, max, xs, key, value))
  {
    PutKeepsUnique(xs, key, value);
    TrimLongestFittingPrefix(len, max, Put(xs, key, value));
  }
}
