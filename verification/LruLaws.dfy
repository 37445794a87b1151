/**
  Laws of the byte-bounded LRU over whole runs: a larger budget never loses a hit,
  and nothing that was inserted is ever unaccounted for.
 */
module LruLaws {
  import opened Prelude
  import opened LruSpec
  import opened Lru
  import opened Group

  // ---- inclusion: no Belady anomaly -------------------------------------------

  /** The recency order after the Gets of `trace`, in a group without peers. */
  function Replay<V>(len: V -> int, max: int, source: Source<V>, trace: seq<Str>): seq<Item<V>> {
    if trace == [] then []
    else GetItems(len, max, source, Replay(len, max, source, trace[..|trace| - 1]), trace[|trace| - 1], NoPeer)
  }

  /** How many of the Gets of `trace` found their key in the cache. */
  function Hits<V>(len: V -> int, max: int, source: Source<V>, trace: seq<Str>): nat {
    if trace == [] then 0
    else
      var before := trace[..|trace| - 1];
      var key := trace[|trace| - 1];
      Hits(len, max, source, before)
      + if key != [] && Find(Replay(len, max, source, before), key).Some? then 1 else 0
  }

  /** `big` never evicts more than `small`: 0 is unlimited. */
  predicate AtLeast(big: int, small: int) {
    big == 0 || 0 < small <= big
  }

  lemma {:induction false} ReplayKeepsInvariant<V>(len: V -> int, max: int, source: Source<V>, trace: seq<Str>)
    requires max >= 0
    ensures UniqueKeys(Replay(len, max, source, trace))
    ensures FromSource(source, Replay(len, max, source, trace))
    ensures Fits(len, max, Replay(len, max, source, trace))
  {
    if trace != [] {
      var key := trace[|trace| - 1];
      var xs := Replay(len, max, source, trace[..|trace| - 1]);
      ReplayKeepsInvariant(len, max, source, trace[..|trace| - 1]);
      GetStaysRight(len, max, source, xs, key, NoPeer);
    }
  }

  /** Deleting one key from a list and from a prefix of it leaves a list and a prefix of it, if the prefix
      has the key; if it has not, it is a prefix of the list without the key as it stands. */
  lemma {:induction false} WithoutKeepsPrefix<V>(xs: seq<Item<V>>, ys: seq<Item<V>>, key: Str)
    requires xs <= ys
    ensures Without(xs, key) <= Without(ys, key)
  {
    if xs != [] {
      assert xs[1..] <= ys[1..];
      WithoutKeepsPrefix(xs[1..], ys[1..], key);
    }
  }

  lemma {:induction false} FindInPrefix<V>(xs: seq<Item<V>>, ys: seq<Item<V>>, key: Str)
    requires xs <= ys && Find(xs, key).Some?
    ensures Find(ys, key) == Find(xs, key)
  {
    if xs[0].key != key {
      assert xs[1..] <= ys[1..];
      FindInPrefix(xs[1..], ys[1..], key);
    }
  }

  lemma TrimKeepsPrefix<V>(len: V -> int, small: int, big: int, xs: seq<Item<V>>, ys: seq<Item<V>>)
    requires xs <= ys && 0 < small && AtLeast(big, small)
    ensures Trim(len, small, xs) <= Trim(len, big, ys)
  {
    TrimLongestFittingPrefix(len, small, xs);
    TrimLongestFittingPrefix(len, big, ys);
    var t := Trim(len, small, xs);
    assert ys[..|t|] == t;
  }

  /** One Get keeps the recency order of the small cache a prefix of that of the big one. */
  lemma GetKeepsPrefix<V>(len: V -> int, small: int, big: int, source: Source<V>,
                          xs: seq<Item<V>>, ys: seq<Item<V>>, key: Str)
    requires 0 < small && AtLeast(big, small)
    requires xs <= ys && UniqueKeys(xs) && UniqueKeys(ys) && FromSource(source, ys)
    ensures GetItems(len, small, source, xs, key, NoPeer) <= GetItems(len, big, source, ys, key, NoPeer)
  {
    WithoutKeepsPrefix(xs, ys, key);
    FindMeaning(ys, key);
    if Find(xs, key).Some? {
      FindInPrefix(xs, ys, key);
    } else if source(key).Some? {
      var v := source(key).value;
      TrimKeepsPrefix(len, small, big, Put(xs, key, v), Put(ys, key, v));
      TrimLongestFittingPrefix(len, small, Put(xs, key, v));
    }
  }

  /**
    Inclusion. After every trace, what a cache of the smaller budget holds is a
    prefix of what a cache of the larger budget holds, in the same recency order.
   */
  lemma {:induction false} Inclusion<V>(len: V -> int, small: int, big: int, source: Source<V>, trace: seq<Str>)
    requires 0 < small && AtLeast(big, small)
    ensures Replay(len, small, source, trace) <= Replay(len, big, source, trace)
  {
    if trace != [] {
      var before := trace[..|trace| - 1];
      Inclusion(len, small, big, source, before);
      ReplayKeepsInvariant(len, small, source, before);
      ReplayKeepsInvariant(len, big, source, before);
      GetKeepsPrefix(len, small, big, source,
                     Replay(len, small, source, before), Replay(len, big, source, before), trace[|trace| - 1]);
    }
  }

  /** Every hit of the smaller cache is a hit of the larger one with the same value; so its hits are no fewer. */
  lemma {:induction false} LargerBudgetHitsMore<V>(len: V -> int, small: int, big: int, source: Source<V>,
                                                   trace: seq<Str>, key: Str)
    requires 0 < small && AtLeast(big, small)
    ensures Find(Replay(len, small, source, trace), key).Some? ==>
              Find(Replay(len, big, source, trace), key) == Find(Replay(len, small, source, trace), key)
    ensures Hits(len, small, source, trace) <= Hits(len, big, source, trace)
    decreases |trace|
  {
    Inclusion(len, small, big, source, trace);
    if Find(Replay(len, small, source, trace), key).Some? {
      FindInPrefix(Replay(len, small, source, trace), Replay(len, big, source, trace), key);
    }
    if trace != [] {
      LargerBudgetHitsMore(len, small, big, source, trace[..|trace| - 1], trace[|trace| - 1]);
    }
  }

  /** Whatever the trace and the budget, each Get replies with what the getter defines, cached or not. */
  lemma RepliesAreTheSources<V>(len: V -> int, max: int, source: Source<V>, trace: seq<Str>, key: Str)
    requires max >= 0
    ensures GetReply(source, Replay(len, max, source, trace), key, NoPeer) == Expected(source, key)
  {
    ReplayKeepsInvariant(len, max, source, trace);
    GetStaysRight(len, max, source, Replay(len, max, source, trace), key, NoPeer);
  }

  // ---- the eviction ledger ------------------------------------------------------

  datatype Op<V> = DoGet(key: Str) | DoAdd(key: Str, value: V) | DoRemoveOldest

  /** The items of a cache with a callback, and what the callback has been told. */
  datatype State<V> = State(items: seq<Item<V>>, told: seq<Item<V>>)

  /** The three methods of lru.Cache on values, as their contracts in Lru.dfy state them. */
  function Step<V>(len: V -> int, max: int, s: State<V>, op: Op<V>): State<V> {
    match op
    case DoGet(key) => s.(items := Touch(s.items, key))
    case DoAdd(key, value) =>
      var full := Put(s.items, key, value);
      var items := Trim(len, max, full);
      TrimLongestFittingPrefix(len, max, full);
      State(items, s.told + Told(true, full, |items|))
    case DoRemoveOldest =>
      if s.items == [] then s
      else State(s.items[..|s.items| - 1], s.told + [s.items[|s.items| - 1]])
  }

  function Run<V>(len: V -> int, max: int, ops: seq<Op<V>>): State<V> {
    if ops == [] then State([], []) else Step(len, max, Run(len, max, ops[..|ops| - 1]), ops[|ops| - 1])
  }

  /** How often an Add put `key` into the cache anew. */
  function Inserted<V>(len: V -> int, max: int, ops: seq<Op<V>>, key: Str): nat {
    if ops == [] then 0
    else
      var before := ops[..|ops| - 1];
      Inserted(len, max, before, key) + Inserts(Run(len, max, before).items, ops[|ops| - 1], key)
  }

  function Inserts<V>(items: seq<Item<V>>, op: Op<V>, key: Str): nat {
    if op.DoAdd? && op.key == key && Find(items, key).None? then 1 else 0
  }

  /** The bytes of those insertions plus the size changes of the overwrites. */
  function BytesIn<V>(len: V -> int, max: int, ops: seq<Op<V>>): int {
    if ops == [] then 0
    else
      var before := ops[..|ops| - 1];
      BytesIn(len, max, before) + Growth(len, Run(len, max, before).items, ops[|ops| - 1])
  }

  function Growth<V>(len: V -> int, items: seq<Item<V>>, op: Op<V>): int {
    match op
    case DoAdd(key, value) =>
      (match Find(items, key)
       case None => |key| + len(value)
       case Some(v) => len(value) - len(v))
    case _ => 0
  }

  function Count<V>(xs: seq<Item<V>>, key: Str): nat {
    if xs == [] then 0 else Count(xs[..|xs| - 1], key) + if xs[|xs| - 1].key == key then 1 else 0
  }

  lemma {:induction false} CountConcat<V>(xs: seq<Item<V>>, ys: seq<Item<V>>, key: Str)
    ensures Count(xs + ys, key) == Count(xs, key) + Count(ys, key)
  {
    if ys == [] {
      assert xs + ys == xs;
    } else {
      CountConcat(xs, ys[..|ys| - 1], key);
      assert (xs + ys)[..|xs + ys| - 1] == xs + ys[..|ys| - 1];
    }
  }

  lemma CountOfOne<V>(x: Item<V>, key: Str)
    ensures Count([x], key) == if x.key == key then 1 else 0
  {
    assert [x][..0] == [];
  }

  lemma {:induction false} ReverseKeepsSums<V>(len: V -> int, xs: seq<Item<V>>, key: Str)
    ensures Count(Reverse(xs), key) == Count(xs, key) && Bytes(len, Reverse(xs)) == Bytes(len, xs)
  {
    if xs != [] {
      var x, ys := xs[|xs| - 1], xs[..|xs| - 1];
      ReverseKeepsSums(len, ys, key);
      CountConcat([x], Reverse(ys), key);
      CountOfOne(x, key);
      BytesPrepend(len, x, Reverse(ys));
    }
  }

  lemma {:induction false} ReverseTwice<T>(xs: seq<T>)
    ensures Reverse(Reverse(xs)) == xs
  {
    if xs != [] {
      ReverseTwice(xs[..|xs| - 1]);
      ReverseAppend([xs[|xs| - 1]], Reverse(xs[..|xs| - 1]));
      assert xs == xs[..|xs| - 1] + [xs[|xs| - 1]];
    }
  }

  lemma PutCount<V>(xs: seq<Item<V>>, key: Str, value: V, k: Str)
    requires UniqueKeys(xs)
    ensures Count(Put(xs, key, value), k) == Count(xs, k) + if k == key && Find(xs, key).None? then 1 else 0
  {
    CountConcat([Item(key, value)], Without(xs, key), k);
    CountOfOne(Item(key, value), k);
    if HasKey(xs, key) {
      var i :| 0 <= i < |xs| && xs[i].key == key;
      UpdateShape(xs, key, i);
      SplitAt(xs, i);
      CountConcat(xs[..i] + [xs[i]], xs[i + 1..], k);
      CountConcat(xs[..i], [xs[i]], k);
      CountConcat(xs[..i], xs[i + 1..], k);
      CountOfOne(xs[i], k);
    } else {
      UpdateShape(xs, key, |xs|);
    }
  }

  lemma TouchKeepsCount<V>(xs: seq<Item<V>>, key: Str, k: Str)
    requires UniqueKeys(xs)
    ensures Count(Touch(xs, key), k) == Count(xs, k)
  {
    if Find(xs, key).Some? {
      PutCount(xs, key, Find(xs, key).value, k);
    }
  }

  lemma PrefixUnique<V>(xs: seq<Item<V>>, ys: seq<Item<V>>)
    requires ys <= xs && UniqueKeys(xs)
    ensures UniqueKeys(ys)
  {}

  /** One Add told apart: the updated order is what stays followed by what was reported, in the order of the list;
      so the reports come least recent first, each dropped item once. */
  lemma AddSplits<V>(len: V -> int, max: int, s: State<V>, key: Str, value: V)
    ensures var s' := Step(len, max, s, DoAdd(key, value));
            && s.told <= s'.told
            && Put(s.items, key, value) == s'.items + Reverse(s'.told[|s.told|..])
  {
    var full := Put(s.items, key, value);
    TrimLongestFittingPrefix(len, max, full);
    var n := |Trim(len, max, full)|;
    var s' := Step(len, max, s, DoAdd(key, value));
    assert s'.told[|s.told|..] == Reverse(full[n..]);
    ReverseTwice(full[n..]);
    assert full == full[..n] + full[n..];
  }

  lemma {:induction false} RunKeepsUnique<V>(len: V -> int, max: int, ops: seq<Op<V>>)
    ensures UniqueKeys(Run(len, max, ops).items)
  {
    if ops != [] {
      RunKeepsUnique(len, max, ops[..|ops| - 1]);
      var s := Run(len, max, ops[..|ops| - 1]);
      match ops[|ops| - 1]
      case DoGet(key) =>
        if Find(s.items, key).Some? {
          PutKeepsUnique(s.items, key, Find(s.items, key).value);
        }
      case DoAdd(key, value) =>
        PutKeepsUnique(s.items, key, value);
        TrimLongestFittingPrefix(len, max, Put(s.items, key, value));
        PrefixUnique(Put(s.items, key, value), Trim(len, max, Put(s.items, key, value)));
      case DoRemoveOldest =>
        if s.items != [] {
          PrefixUnique(s.items, s.items[..|s.items| - 1]);
        }
    }
  }

  lemma AddBalances<V>(len: V -> int, max: int, s: State<V>, key: Str, value: V, k: Str)
    ensures var s' := Step(len, max, s, DoAdd(key, value));
            && Count(s'.items, k) + Count(s'.told, k) == Count(Put(s.items, key, value), k) + Count(s.told, k)
            && Bytes(len, s'.items) + Bytes(len, s'.told)
               == Bytes(len, Put(s.items, key, value)) + Bytes(len, s.told)
  {
    var s' := Step(len, max, s, DoAdd(key, value));
    AddSplits(len, max, s, key, value);
    var told := s'.told[|s.told|..];
    ReverseKeepsSums(len, told, k);
    assert s'.told == s.told + told;
    CountConcat(s.told, told, k);
    BytesConcat(len, s.told, told);
    CountConcat(s'.items, Reverse(told), k);
    BytesConcat(len, s'.items, Reverse(told));
  }

  lemma RemoveBalances<V>(len: V -> int, max: int, s: State<V>, k: Str)
    ensures var s' := Step(len, max, s, DoRemoveOldest);
            && Count(s'.items, k) + Count(s'.told, k) == Count(s.items, k) + Count(s.told, k)
            && Bytes(len, s'.items) + Bytes(len, s'.told) == Bytes(len, s.items) + Bytes(len, s.told)
  {
    if s.items != [] {
      var x := s.items[|s.items| - 1];
      CountConcat(s.told, [x], k);
      BytesConcat(len, s.told, [x]);
      CountOfOne(x, k);
      BytesOfOne(len, x);
    }
  }

  /** What one step moves between the cache and the callback, in entries of a key and in bytes. */
  lemma StepBalances<V>(len: V -> int, max: int, s: State<V>, op: Op<V>, k: Str)
    requires UniqueKeys(s.items)
    ensures var s' := Step(len, max, s, op);
            && Count(s'.items, k) + Count(s'.told, k) == Count(s.items, k) + Count(s.told, k) + Inserts(s.items, op, k)
            && Bytes(len, s'.items) + Bytes(len, s'.told)
               == Bytes(len, s.items) + Bytes(len, s.told) + Growth(len, s.items, op)
  {
    match op
    case DoGet(key) =>
      TouchKeepsCount(s.items, key, k);
      TouchKeepsBytes(len, s.items, key);
    case DoAdd(key, value) =>
      AddBalances(len, max, s, key, value, k);
      PutCount(s.items, key, value, k);
      PutBytes(len, s.items, key, value);
    case DoRemoveOldest =>
      RemoveBalances(len, max, s, k);
  }

  /**
    The ledger. After any run, the insertions of each key are matched one for
    one by its presence in the cache (once at most) and the reports of its eviction,
    and the bytes that came in are the bytes held plus the bytes reported.
   */
  lemma {:induction false} Conservation<V>(len: V -> int, max: int, ops: seq<Op<V>>, key: Str)
    ensures var s := Run(len, max, ops);
            && Count(s.items, key) + Count(s.told, key) == Inserted(len, max, ops, key)
            && Count(s.items, key) == (if HasKey(s.items, key) then 1 else 0)
            && Bytes(len, s.items) + Bytes(len, s.told) == BytesIn(len, max, ops)
  {
    RunKeepsUnique(len, max, ops);
    UniqueCount(Run(len, max, ops).items, key);
    if ops != [] {
      Conservation(len, max, ops[..|ops| - 1], key);
      RunKeepsUnique(len, max, ops[..|ops| - 1]);
      StepBalances(len, max, Run(len, max, ops[..|ops| - 1]), ops[|ops| - 1], key);
    }
  }

  lemma {:induction false} UniqueCount<V>(xs: seq<Item<V>>, key: Str)
    requires UniqueKeys(xs)
    ensures Count(xs, key) == if HasKey(xs, key) then 1 else 0
  {
    if xs != [] {
      var ys := xs[..|xs| - 1];
      UniqueCount(ys, key);
      if HasKey(ys, key) {
        var i :| 0 <= i < |ys| && ys[i].key == key;
        assert xs[i].key == key;
      } else if xs[|xs| - 1].key != key {
        forall i | 0 <= i < |xs| ensures xs[i].key != key {
          if i < |ys| {
            assert ys[i].key != key;
          }
        }
      }
    }
  }

  /** The methods of the class take exactly these steps. */
  method Perform<V>(c: Cache<V>, op: Op<V>)
    requires c.Valid() && c.callback
    requires op.DoAdd? ==> LoopStops(c.store.len, c.maxBytes, Put(c.store.items, op.key, op.value))
    modifies c, c.store.Repr
    ensures c.Valid() && fresh(c.store.Repr - old(c.store.Repr))
    ensures State(c.store.items, c.evicted)
            == Step(c.store.len, c.maxBytes, State(old(c.store.items), old(c.evicted)), op)
  {
    match op
    case DoGet(key) => var _ := c.Get(key);
    case DoAdd(key, value) => c.Add(key, value);
    case DoRemoveOldest => c.RemoveOldest();
  }
}
