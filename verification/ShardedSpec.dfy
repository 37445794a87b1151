/**
  What the sharded cache means: one LRU recency order per shard, each key in the shard
  that its hash chooses. FastLru.dfy is proved against this; the laws are proved here.
 */
module ShardedSpec {
  import opened Prelude
  import opened LruSpec
  import opened Rounding
  import opened ShardChoice

  /** Division of Go's integers: towards zero. */
  function TruncDiv(a: int, b: int): int
    requires b > 0
  {
    if a >= 0 then a / b else -(-a / b)
  }

  /** The share of a budget: as much as n equal shares can have of it; of a negative one, the mirror image. */
  lemma ShareMeaning(a: int, n: int)
    requires n > 0 && a >= 0
    ensures n * TruncDiv(a, n) <= a < n * (TruncDiv(a, n) + 1)
    ensures TruncDiv(-a, n) == -TruncDiv(a, n)
  {
    assert a == n * (a / n) + a % n;
    assert n * (a / n + 1) == n * (a / n) + n;
  }

  datatype Op<V> = DoGet(key: Str) | DoAdd(key: Str, value: V) | DoClear

  /** An operation on one LRU cache of budget `max`. */
  function LruStep<V>(len: V -> int, max: int, xs: seq<Item<V>>, op: Op<V>): seq<Item<V>> {
    match op
    case DoGet(key) => Touch(xs, key)
    case DoAdd(key, value) => Add(len, max, xs, key, value)
    case DoClear => []
  }

  /** Whether an operation concerns shard `i`: Clear concerns all, the others that of their key. */
  predicate Concerns<V>(count: bv64, i: nat, op: Op<V>)
  {
    op.DoClear? || ShardOf(count, op.key) == i
  }

  /** The operation on the sharded cache: it acts on the shards that it concerns. */
  function Step<V>(count: bv64, len: V -> int, max: int, shards: seq<seq<Item<V>>>, op: Op<V>): (r: seq<seq<Item<V>>>)
    ensures |r| == |shards|
  {
    match op
    case DoClear => seq(|shards|, _ => [])
    case _ =>
      var i := ShardOf(count, op.key);
      if i < |shards| then shards[i := LruStep(len, max, shards[i], op)] else shards
  }

  function Run<V>(count: bv64, len: V -> int, max: int, n: nat, ops: seq<Op<V>>): (r: seq<seq<Item<V>>>)
    ensures |r| == n
  {
    if ops == [] then seq(n, _ => []) else Step(count, len, max, Run(count, len, max, n, ops[..|ops| - 1]), ops[|ops| - 1])
  }

  function LruRun<V>(len: V -> int, max: int, ops: seq<Op<V>>): seq<Item<V>> {
    if ops == [] then [] else LruStep(len, max, LruRun(len, max, ops[..|ops| - 1]), ops[|ops| - 1])
  }

  /** The operations of a run that concern shard `i`, in their order. */
  function Concerning<V>(count: bv64, i: nat, ops: seq<Op<V>>): seq<Op<V>>
  {
    if ops == [] then []
    else
      var before := Concerning(count, i, ops[..|ops| - 1]);
      if Concerns(count, i, ops[|ops| - 1]) then before + [ops[|ops| - 1]] else before
  }

  /** Any sequential run leaves each shard as an independent LRU cache of the shard budget, given the operations
      that concern the shard. */
  lemma {:induction false} ShardsAreIndependent<V>(count: bv64, len: V -> int, max: int, n: nat, ops: seq<Op<V>>, i: nat)
    requires i < n
    ensures Run(count, len, max, n, ops)[i] == LruRun(len, max, Concerning(count, i, ops))
  {
    if ops != [] {
      var op := ops[|ops| - 1];
      var before := Concerning(count, i, ops[..|ops| - 1]);
      ShardsAreIndependent(count, len, max, n, ops[..|ops| - 1], i);
      if Concerns(count, i, op) {
        assert (before + [op])[..|before + [op]| - 1] == before;
      }
    }
  }

  // ---- keys -------------------------------------------------------------------------------

  /** Keys are unique in each shard, and each is in its own shard. */
  ghost predicate WellPlaced<V>(count: bv64, shards: seq<seq<Item<V>>>)
  {
    forall i :: 0 <= i < |shards| ==> ShardPlaced(count, shards[i], i)
  }

  ghost predicate ShardPlaced<V>(count: bv64, xs: seq<Item<V>>, i: nat)
  {
    UniqueKeys(xs) && forall x :: x in xs ==> ShardOf(count, x.key) == i
  }

  lemma LruStepKeepsPlaced<V>(count: bv64, len: V -> int, max: int, xs: seq<Item<V>>, op: Op<V>, i: nat)
    requires ShardPlaced(count, xs, i) && Concerns(count, i, op)
    ensures ShardPlaced(count, LruStep(len, max, xs, op), i)
  {
    hide ShardOf;
    match op
    case DoGet(key) =>
      FindMeaning(xs, key);
      WithoutKeys(xs, key);
    case DoAdd(key, value) =>
      WithoutKeys(xs, key);
      TrimLongestFittingPrefix(len, max, Put(xs, key, value));
      PrefixPlaced(count, Put(xs, key, value), Add(len, max, xs, key, value), i);
    case DoClear =>
  }

  lemma PrefixPlaced<V>(count: bv64, xs: seq<Item<V>>, ys: seq<Item<V>>, i: nat)
    requires ShardPlaced(count, xs, i) && ys <= xs
    ensures ShardPlaced(count, ys, i)
  {
    hide ShardOf;
    forall y | y in ys ensures y in xs {
      var k :| 0 <= k < |ys| && ys[k] == y;
      assert xs[k] == y;
    }
  }

  lemma StepKeepsPlaced<V>(count: bv64, len: V -> int, max: int, shards: seq<seq<Item<V>>>, op: Op<V>)
    requires WellPlaced(count, shards)
    ensures WellPlaced(count, Step(count, len, max, shards, op))
  {
    hide ShardOf, ShardPlaced, LruStep;
    var next := Step(count, len, max, shards, op);
    forall i | 0 <= i < |next| ensures ShardPlaced(count, next[i], i) {
      if op.DoClear? {
        EmptyPlaced<V>(count, i);
      } else if Concerns(count, i, op) {
        LruStepKeepsPlaced(count, len, max, shards[i], op, i);
      }
    }
  }

  lemma EmptyPlaced<V>(count: bv64, i: nat)
    ensures ShardPlaced<V>(count, [], i)
  {}

  /** Each key lives in no shard but that of its hash, over every run. */
  lemma {:induction false} EachKeyInItsShard<V>(count: bv64, len: V -> int, max: int, n: nat, ops: seq<Op<V>>)
    ensures WellPlaced(count, Run(count, len, max, n, ops))
  {
    if ops == [] {
      forall i | 0 <= i < n ensures ShardPlaced<V>(count, [], i) {
        EmptyPlaced<V>(count, i);
      }
    } else {
      EachKeyInItsShard(count, len, max, n, ops[..|ops| - 1]);
      StepKeepsPlaced(count, len, max, Run(count, len, max, n, ops[..|ops| - 1]), ops[|ops| - 1]);
    }
  }

  ghost function KeySet<V>(xs: seq<Item<V>>): set<Str> {
    set x | x in xs :: x.key
  }

  ghost function AllKeys<V>(shards: seq<seq<Item<V>>>): set<Str> {
    if shards == [] then {} else AllKeys(shards[..|shards| - 1]) + KeySet(shards[|shards| - 1])
  }

  function TotalLen<V>(shards: seq<seq<Item<V>>>): nat {
    if shards == [] then 0 else TotalLen(shards[..|shards| - 1]) + |shards[|shards| - 1]|
  }

  lemma {:induction false} UniqueKeysCount<V>(xs: seq<Item<V>>)
    requires UniqueKeys(xs)
    ensures |KeySet(xs)| == |xs|
  {
    if xs != [] {
      var ys, x := xs[..|xs| - 1], xs[|xs| - 1];
      UniqueKeysCount(ys);
      assert xs == ys + [x];
      assert KeySet(xs) == KeySet(ys) + {x.key};
      assert x.key !in KeySet(ys);
    }
  }

  lemma {:induction false} AllKeysPlaced<V>(count: bv64, shards: seq<seq<Item<V>>>, key: Str)
    requires WellPlaced(count, shards) && key in AllKeys(shards)
    ensures ShardOf(count, key) < |shards|
  {
    hide ShardOf;
    var n := |shards| - 1;
    assert ShardPlaced(count, shards[n], n);
    if key !in KeySet(shards[n]) {
      assert WellPlaced(count, shards[..n]);
      AllKeysPlaced(count, shards[..n], key);
    }
  }

  /** The sum of the shards' lengths counts distinct keys. */
  lemma {:induction false} LenCountsKeys<V>(count: bv64, shards: seq<seq<Item<V>>>)
    requires WellPlaced(count, shards)
    ensures TotalLen(shards) == |AllKeys(shards)|
  {
    hide ShardOf;
    if shards != [] {
      var n := |shards| - 1;
      assert WellPlaced(count, shards[..n]);
      LenCountsKeys(count, shards[..n]);
      assert ShardPlaced(count, shards[n], n);
      UniqueKeysCount(shards[n]);
      forall k | k in KeySet(shards[n]) ensures k !in AllKeys(shards[..n]) {
        if k in AllKeys(shards[..n]) {
          AllKeysPlaced(count, shards[..n], k);
        }
      }
      assert AllKeys(shards[..n]) !! KeySet(shards[n]);
    }
  }

  // ---- bytes ------------------------------------------------------------------------------

  function TotalBytes<V>(len: V -> int, shards: seq<seq<Item<V>>>): int {
    if shards == [] then 0 else TotalBytes(len, shards[..|shards| - 1]) + Bytes(len, shards[|shards| - 1])
  }

  lemma {:induction false} EachWithinBudget<V>(len: V -> int, max: int, shards: seq<seq<Item<V>>>)
    requires max != 0 && forall i :: 0 <= i < |shards| ==> Fits(len, max, shards[i])
    ensures TotalBytes(len, shards) <= |shards| * max
  {
    if shards != [] {
      EachWithinBudget(len, max, shards[..|shards| - 1]);
    }
  }

  lemma {:induction false} RunFits<V>(count: bv64, len: V -> int, max: int, n: nat, ops: seq<Op<V>>)
    requires max >= 0
    ensures forall i :: 0 <= i < n ==>
              UniqueKeys(Run(count, len, max, n, ops)[i]) && Fits(len, max, Run(count, len, max, n, ops)[i])
  {
    hide ShardOf;
    if ops != [] {
      RunFits(count, len, max, n, ops[..|ops| - 1]);
      var shards, op := Run(count, len, max, n, ops[..|ops| - 1]), ops[|ops| - 1];
      if !op.DoClear? && ShardOf(count, op.key) < n {
        var xs := shards[ShardOf(count, op.key)];
        if op.DoGet? {
          TouchKeepsBytes(len, xs, op.key);
        } else {
          AddKeepsInvariant(len, max, xs, op.key, op.value);
        }
      }
    }
  }

  /**
    The whole cache respects its budget over every run exactly when the budget is
    at least the number of shards. A smaller positive budget is rounded to 0 for each
    shard, which means unlimited: one key that is too long stays. (A length is not negative.)
   */
  lemma BudgetHoldsIff<V>(count: bv64, len: V -> int, maxBytes: int, v: V)
    requires count != 0
    requires 0 < maxBytes && len(v) >= 0
    ensures ToNat(count) > 0
    ensures (forall ops: seq<Op<V>> ::
               TotalBytes(len, Run(count, len, TruncDiv(maxBytes, ToNat(count)), ToNat(count), ops)) <= maxBytes)
            <==> ToNat(count) <= maxBytes
  {
    hide Run, TotalBytes, ToNat, ShardOf, TruncDiv;
    ShardInRange(count, []);
    var n := ToNat(count);
    var max := TruncDiv(maxBytes, n);
    if n <= maxBytes {
      forall ops: seq<Op<V>> ensures TotalBytes(len, Run(count, len, max, n, ops)) <= maxBytes {
        LargeBudgetHolds(count, len, maxBytes, n, ops);
      }
    } else {
      var ops := SmallBudgetFails(count, len, maxBytes, v);
      assert TotalBytes(len, Run(count, len, max, n, ops)) > maxBytes;
    }
  }

  lemma LargeBudgetHolds<V>(count: bv64, len: V -> int, maxBytes: int, n: nat, ops: seq<Op<V>>)
    requires 0 < n <= maxBytes
    ensures TotalBytes(len, Run(count, len, TruncDiv(maxBytes, n), n, ops)) <= maxBytes
  {
    hide ShardOf;
    ShareIsPositive(maxBytes, n);
    RunFits(count, len, TruncDiv(maxBytes, n), n, ops);
    EachWithinBudget(len, TruncDiv(maxBytes, n), Run(count, len, TruncDiv(maxBytes, n), n, ops));
  }

  lemma SmallBudgetFails<V>(count: bv64, len: V -> int, maxBytes: int, v: V) returns (ops: seq<Op<V>>)
    requires count != 0
    requires 0 < maxBytes < ToNat(count) && len(v) >= 0
    ensures TotalBytes(len, Run(count, len, TruncDiv(maxBytes, ToNat(count)), ToNat(count), ops)) > maxBytes
  {
    hide ShardOf, ToNat, Run, TotalBytes, TruncDiv;
    var key := seq(maxBytes + 1, _ => 0 as Byte);
    ShardInRange(count, key);
    ops := [DoAdd(key, v)];
    ShareIsZero(maxBytes, ToNat(count));
    OneBigKey(count, len, key, v, ToNat(count));
  }

  lemma ShareIsZero(a: nat, n: nat)
    requires a < n
    ensures TruncDiv(a, n) == 0
  {}

  lemma ShareIsPositive(a: nat, n: nat)
    requires 0 < n <= a
    ensures 0 < TruncDiv(a, n) && n * TruncDiv(a, n) <= a
  {
    assert a == n * (a / n) + a % n;
  }

  lemma OneBigKey<V>(count: bv64, len: V -> int, key: Str, v: V, n: nat)
    requires ShardOf(count, key) < n
    ensures TotalBytes(len, Run(count, len, 0, n, [DoAdd(key, v)])) == |key| + len(v)
  {
    var i := ShardOf(count, key);
    var before: seq<seq<Item<V>>> := seq(n, _ => []);
    var ops := [DoAdd(key, v)];
    assert ops[..0] == [];
    assert Run(count, len, 0, n, ops[..0]) == before;
    assert LruStep(len, 0, [], DoAdd(key, v)) == [Item(key, v)] by {
      assert Without<V>([], key) == [];
    }
    assert Run(count, len, 0, n, ops) == before[i := [Item(key, v)]];
    BytesOfOne(len, Item(key, v));
    BytesAt(len, before, i, [Item(key, v)]);
  }

  lemma {:induction false} BytesAt<V>(len: V -> int, shards: seq<seq<Item<V>>>, i: nat, xs: seq<Item<V>>)
    requires i < |shards| && forall j :: 0 <= j < |shards| ==> shards[j] == []
    ensures TotalBytes(len, shards[i := xs]) == Bytes(len, xs)
  {
    var n := |shards| - 1;
    if i < n {
      BytesAt(len, shards[..n], i, xs);
      assert shards[i := xs][..n] == shards[..n][i := xs];
    } else {
      assert shards[i := xs][..n] == shards[..n];
      NoBytes(len, shards[..n]);
    }
  }

  lemma {:induction false} NoBytes<V>(len: V -> int, shards: seq<seq<Item<V>>>)
    requires forall j :: 0 <= j < |shards| ==> shards[j] == []
    ensures TotalBytes(len, shards) == 0
  {
    if shards != [] {
      NoBytes(len, shards[..|shards| - 1]);
    }
  }
}
