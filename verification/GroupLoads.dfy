/**
  How often the getter is called. A key is not loaded "at most once", as one may hope of
  single flight: a goroutine can miss the cache, be delayed until another has loaded the key and left,
  and then load it again. How often it can happen is proved here exactly, and what it takes for a key
  once loaded never to be loaded again.
 */
module GroupLoads {
  import opened Prelude
  import opened LruSpec
  import opened Group
  import opened GroupConcurrent
  import SF = Singleflight

  // ---- how long a key stays cached ---------------------------------------------------------

  lemma {:induction false} TrimEnds<V>(len: V -> int, max: int, xs: seq<Item<V>>)
    ensures Trim(len, max, xs) == [] || Fits(len, max, Trim(len, max, xs))
  {
    if xs != [] && !Fits(len, max, xs) {
      TrimEnds(len, max, xs[..|xs| - 1]);
    }
  }

  lemma HasKeyOfPrefix<V>(xs: seq<Item<V>>, n: nat, m: nat, key: Str)
    requires n <= m <= |xs| && HasKey(xs[..n], key)
    ensures HasKey(xs[..m], key)
  {
    var i :| 0 <= i < |xs[..n]| && xs[..n][i].key == key;
    assert xs[..m][i].key == key;
  }

  /** A key survives an eviction exactly if the order down to it fits the budget. */
  lemma SurvivesTrimIff<V>(len: V -> int, max: int, xs: seq<Item<V>>, key: Str)
    ensures HasKey(Trim(len, max, xs), key)
            <==> exists n :: 0 <= n <= |xs| && HasKey(xs[..n], key) && Fits(len, max, xs[..n])
  {
    TrimLongestFittingPrefix(len, max, xs);
    TrimEnds(len, max, xs);
    var t := Trim(len, max, xs);
    assert t == xs[..|t|];
    if n :| 0 <= n <= |xs| && HasKey(xs[..n], key) && Fits(len, max, xs[..n]) {
      HasKeyOfPrefix(xs, n, |t|, key);
    }
  }

  /** The step fills the cache, and nothing of the new order that reaches down to the key fits the budget. */
  ghost predicate Evicts<V>(cfg: Config<V>, s: State<V>, e: Event<V>, key: Str) {
    && Enabled(cfg, s, e) && e.Populate?
    && var order := Put(s.cache, s.threads[e.t].key, s.threads[e.t].fn.value);
       forall n :: 0 <= n <= |order| && HasKey(order[..n], key) ==> !Fits(cfg.len, cfg.max, order[..n])
  }

  lemma TouchKeepsKeys<V>(xs: seq<Item<V>>, k: Str, key: Str)
    ensures HasKey(Touch(xs, k), key) <==> HasKey(xs, key)
  {
    FindMeaning(xs, k);
    WithoutKeys(xs, k);
    if HasKey(xs, k) {
      PutHasKeys(xs, k, Find(xs, k).value, key);
    }
  }

  lemma PutHasKeys<V>(xs: seq<Item<V>>, k: Str, v: V, key: Str)
    ensures HasKey(Put(xs, k, v), key) <==> key == k || HasKey(xs, key)
  {
    WithoutKeys(xs, k);
    var ys := Put(xs, k, v);
    assert ys[0].key == k;
    if key != k && HasKey(xs, key) {
      var i :| 0 <= i < |xs| && xs[i].key == key;
      assert xs[i] in Without(xs, k);
      var j :| 0 <= j < |Without(xs, k)| && Without(xs, k)[j] == xs[i];
      assert ys[j + 1].key == key;
    }
    if key != k && HasKey(ys, key) {
      var j :| 0 <= j < |ys| && ys[j].key == key;
      assert ys[j] in Without(xs, k);
      assert ys[j] in xs;
    }
  }

  /** What a step does to a cached key: it stays, unless the step evicts it. */
  lemma CachedUntilEvictedIff<V>(cfg: Config<V>, s: State<V>, e: Event<V>, key: Str)
    requires HasKey(s.cache, key)
    ensures HasKey(Next(cfg, s, e).cache, key) <==> !Evicts(cfg, s, e, key)
  {
    hide HasKey, Fits, Touch, Put, Trim, SF.Apply, SF.Enabled;
    if Enabled(cfg, s, e) {
      match e
      case Lookup(t) => TouchKeepsKeys(s.cache, s.threads[t].key, key);
      case Populate(t) =>
        SurvivesTrimIff(cfg.len, cfg.max, Put(s.cache, s.threads[t].key, s.threads[t].fn.value), key);
      case _ =>
    }
  }

  /** No step of `fs`, taken after `es`, evicts the key. */
  ghost predicate Spared<V>(cfg: Config<V>, n: nat, es: seq<Event<V>>, fs: seq<Event<V>>, key: Str) {
    forall i :: 0 <= i < |fs| ==> !Evicts(cfg, After(cfg, n, es + fs[..i]), fs[i], key)
  }

  lemma {:induction false} StaysCached<V>(cfg: Config<V>, n: nat, es: seq<Event<V>>, fs: seq<Event<V>>, key: Str)
    requires HasKey(After(cfg, n, es).cache, key) && Spared(cfg, n, es, fs, key)
    ensures HasKey(After(cfg, n, es + fs).cache, key)
    decreases |fs|
  {
    hide After, Next, Evicts, HasKey;
    if fs == [] {
      assert es + fs == es;
    } else {
      var before := fs[..|fs| - 1];
      forall i | 0 <= i < |before| ensures !Evicts(cfg, After(cfg, n, es + before[..i]), before[i], key) {
        assert before[..i] == fs[..i];
      }
      StaysCached(cfg, n, es, before, key);
      CachedUntilEvictedIff(cfg, After(cfg, n, es + before), fs[|fs| - 1], key);
      AfterOneMore(cfg, n, es + before, fs[|fs| - 1]);
      SF.AppendLast(es, fs);
    }
  }

  /** Without a budget nothing is ever evicted. */
  lemma {:induction false} UnlimitedSpares<V>(cfg: Config<V>, n: nat, es: seq<Event<V>>, fs: seq<Event<V>>, key: Str)
    requires cfg.max == 0 && HasKey(After(cfg, n, es).cache, key)
    ensures Spared(cfg, n, es, fs, key)
    ensures HasKey(After(cfg, n, es + fs).cache, key)
    decreases |fs|
  {
    hide After, Next, Evicts, HasKey;
    if fs == [] {
      assert es + fs == es;
    } else {
      var before := fs[..|fs| - 1];
      UnlimitedSpares(cfg, n, es, before, key);
      NothingEvicted(cfg, After(cfg, n, es + before), fs[|fs| - 1], key);
      forall i | 0 <= i < |fs| ensures !Evicts(cfg, After(cfg, n, es + fs[..i]), fs[i], key) {
        if i < |before| {
          assert before[..i] == fs[..i];
          assert !Evicts(cfg, After(cfg, n, es + before[..i]), before[i], key);
        }
      }
      StaysCached(cfg, n, es, fs, key);
    }
  }

  lemma NothingEvicted<V>(cfg: Config<V>, s: State<V>, e: Event<V>, key: Str)
    requires cfg.max == 0 && HasKey(s.cache, key)
    ensures !Evicts(cfg, s, e, key)
  {
    if Enabled(cfg, s, e) && e.Populate? {
      var order := Put(s.cache, s.threads[e.t].key, s.threads[e.t].fn.value);
      PutHasKeys(s.cache, s.threads[e.t].key, s.threads[e.t].fn.value, key);
      assert order[..|order|] == order;
      assert HasKey(order[..|order|], key) && Fits(cfg.len, cfg.max, order[..|order|]);
    }
  }

  /** Once a key is cached, every later Get of it that looks before its eviction is a hit and calls no getter. */
  lemma LaterGetsHit<V>(cfg: Config<V>, n: nat, es: seq<Event<V>>, fs: seq<Event<V>>, t: nat, key: Str)
    requires HasKey(After(cfg, n, es).cache, key) && (cfg.max == 0 || Spared(cfg, n, es, fs, key))
    requires var s := After(cfg, n, es + fs); Enabled(cfg, s, Lookup(t)) && s.threads[t].key == key
    ensures var s := After(cfg, n, es + fs);
            var s' := Next(cfg, s, Lookup(t));
            && s'.threads[t] == Back(key, Expected(cfg.source, key)) && cfg.source(key).Some?
            && s'.loads == s.loads && s'.sf == s.sf
  {
    hide Spared, After, HasKey, Next, Enabled;
    if cfg.max == 0 {
      UnlimitedSpares(cfg, n, es, fs, key);
    }
    StaysCached(cfg, n, es, fs, key);
    CachedKeyIsNotLoaded(cfg, n, es + fs, t);
  }

  // ---- no more loads than misses --------------------------------------------------------------

  /** Missed looks into the cache for `key`, over the run: what the calls of the getter are bounded by. */
  ghost function Misses<V>(cfg: Config<V>, n: nat, es: seq<Event<V>>, key: Str): nat {
    if es == [] then 0
    else
      var s := After(cfg, n, es[..|es| - 1]);
      var e := es[|es| - 1];
      Misses(cfg, n, es[..|es| - 1], key)
      + if Enabled(cfg, s, e) && e.Lookup? && s.threads[e.t].key == key && Find(s.cache, key).None? then 1 else 0
  }

  function CountOf(xs: seq<Str>, key: Str): nat {
    if xs == [] then 0 else CountOf(xs[..|xs| - 1], key) + if xs[|xs| - 1] == key then 1 else 0
  }

  /** Goroutines that missed `key` and have not (yet) called the getter for it. */
  function Unspent<V>(threads: seq<Pc<V>>, key: Str): nat {
    if threads == [] then 0
    else Unspent(threads[1..], key) + if MaySpend(threads[0], key) then 1 else 0
  }

  predicate MaySpend<V>(pc: Pc<V>, key: Str) {
    pc.Loading? && pc.key == key && (pc.fn.AtPeer? || pc.fn.AtGetter?)
  }

  lemma {:induction false} UnspentAfterMove<V>(threads: seq<Pc<V>>, t: nat, pc: Pc<V>, key: Str)
    requires t < |threads|
    ensures Unspent(threads[t := pc], key)
            == Unspent(threads, key) + (if MaySpend(pc, key) then 1 else 0) - (if MaySpend(threads[t], key) then 1 else 0)
  {
    if t > 0 {
      UnspentAfterMove(threads[1..], t - 1, pc, key);
      assert threads[t := pc][1..] == threads[1..][t - 1 := pc];
    } else {
      assert threads[t := pc][1..] == threads[1..];
    }
  }

  /** The getter is called for a key at most once for each Get that missed it: followers and Gets that a peer served
      do not add to the count. */
  lemma {:induction false} LoadsNeedMisses<V>(cfg: Config<V>, n: nat, es: seq<Event<V>>, key: Str)
    ensures CountOf(After(cfg, n, es).loads, key) + Unspent(After(cfg, n, es).threads, key) <= Misses(cfg, n, es, key)
  {
    if es == [] {
      NothingUnspent<V>(n, key);
    } else {
      LoadsNeedMisses(cfg, n, es[..|es| - 1], key);
      Reachable(cfg, n, es[..|es| - 1]);
      SpendStep(cfg, After(cfg, n, es[..|es| - 1]), es[|es| - 1], key);
    }
  }

  lemma {:induction false} NothingUnspent<V>(n: nat, key: Str)
    ensures Unspent<V>(seq(n, _ => Out), key) == 0
  {
    if n > 0 {
      var xs := seq<Pc<V>>(n, _ => Out);
      assert xs[1..] == seq<Pc<V>>(n - 1, _ => Out);
      NothingUnspent<V>(n - 1, key);
    }
  }

  lemma SpendStep<V>(cfg: Config<V>, s: State<V>, e: Event<V>, key: Str)
    requires Inv(cfg, s)
    ensures var s' := Next(cfg, s, e);
            CountOf(s'.loads, key) + Unspent(s'.threads, key)
            <= CountOf(s.loads, key) + Unspent(s.threads, key)
               + if Enabled(cfg, s, e) && e.Lookup? && s.threads[e.t].key == key && Find(s.cache, key).None? then 1 else 0
  {
    hide SF.Inv, SF.Apply;
    if Enabled(cfg, s, e) && !e.Protocol? {
      var s' := Next(cfg, s, e);
      UnspentAfterMove(s.threads, e.t, s'.threads[e.t], key);
      if e.Getter? {
        assert s'.loads[..|s'.loads| - 1] == s.loads;
      }
    }
  }

  // ---- at most one load for each goroutine -------------------------------------------------

  /** Goroutines that have the getter's value for `key` and are about to cache it. */
  function Filling<V>(threads: seq<Pc<V>>, key: Str): nat {
    if threads == [] then 0
    else Filling(threads[1..], key) + if Fills(threads[0], key) then 1 else 0
  }

  predicate Fills<V>(pc: Pc<V>, key: Str) {
    pc.Loading? && pc.key == key && pc.fn.AtPopulate?
  }

  lemma {:induction false} FillingAfterMove<V>(threads: seq<Pc<V>>, t: nat, pc: Pc<V>, key: Str)
    requires t < |threads|
    ensures Filling(threads[t := pc], key)
            == Filling(threads, key) + (if Fills(pc, key) then 1 else 0) - (if Fills(threads[t], key) then 1 else 0)
  {
    if t > 0 {
      FillingAfterMove(threads[1..], t - 1, pc, key);
      assert threads[t := pc][1..] == threads[1..][t - 1 := pc];
    } else {
      assert threads[t := pc][1..] == threads[1..];
    }
  }

  lemma {:induction false} NothingFilling<V>(n: nat, key: Str)
    ensures Filling<V>(seq(n, _ => Out), key) == 0
  {
    if n > 0 {
      var xs := seq<Pc<V>>(n, _ => Out);
      assert xs[1..] == seq<Pc<V>>(n - 1, _ => Out);
      NothingFilling<V>(n - 1, key);
    }
  }

  lemma {:induction false} OneOrTheOther<V>(threads: seq<Pc<V>>, key: Str)
    ensures Unspent(threads, key) + Filling(threads, key) <= |threads|
  {
    if threads != [] {
      OneOrTheOther(threads[1..], key);
    }
  }

  /** A goroutine that is neither leaves room for one more. */
  lemma RoomForOne<V>(threads: seq<Pc<V>>, t: nat, key: Str)
    requires t < |threads| && !MaySpend(threads[t], key) && !Fills(threads[t], key)
    ensures Unspent(threads, key) + Filling(threads, key) < |threads|
  {
    var pc: Pc<V> := Loading(key, AtPeer);
    UnspentAfterMove(threads, t, pc, key);
    FillingAfterMove(threads, t, pc, key);
    OneOrTheOther(threads[t := pc], key);
  }

  /** The key has a value, and the budget holds it together with any other values that can ever be cached. */
  ghost predicate Keepable<V(!new)>(cfg: Config<V>, key: Str) {
    && cfg.source(key).Some?
    && forall xs: seq<Item<V>> :: Cacheable(cfg, xs) && HasKey(xs, key) ==> Fits(cfg.len, cfg.max, xs)
  }

  ghost predicate Cacheable<V>(cfg: Config<V>, xs: seq<Item<V>>) {
    UniqueKeys(xs) && FromSource(cfg.source, xs) && !HasKey(xs, [])
  }

  ghost predicate FillsInside<V>(s: State<V>)
    requires |s.threads| == |s.sf.threads|
  {
    forall t :: 0 <= t < |s.threads| && s.threads[t].Loading? && s.threads[t].fn.AtPopulate? ==>
      s.sf.threads[t].Running?
  }

  /** Loads so far and those still to come are bounded; until the key is cached, who has loaded it is about to cache it. */
  ghost predicate LoadInv<V>(s: State<V>, key: Str) {
    && |s.threads| == |s.sf.threads|
    && FillsInside(s)
    && !HasKey(s.cache, [])
    && CountOf(s.loads, key) + Unspent(s.threads, key) <= |s.threads|
    && (!HasKey(s.cache, key) ==> CountOf(s.loads, key) <= Filling(s.threads, key))
  }

  lemma FillsStayInside<V>(cfg: Config<V>, s: State<V>, e: Event<V>)
    requires Enabled(cfg, s, e) && FillsInside(s)
    ensures |Apply(cfg, s, e).threads| == |Apply(cfg, s, e).sf.threads| && FillsInside(Apply(cfg, s, e))
  {}

  /** With a key that can be kept, no step takes it out of the cache, and filling it in keeps it. */
  lemma KeepableStays<V(!new)>(cfg: Config<V>, s: State<V>, e: Event<V>, key: Str)
    requires Inv(cfg, s) && Keepable(cfg, key) && Enabled(cfg, s, e) && !HasKey(s.cache, [])
    ensures !HasKey(Apply(cfg, s, e).cache, [])
    ensures HasKey(s.cache, key) ==> HasKey(Apply(cfg, s, e).cache, key)
    ensures e.Populate? && s.threads[e.t].key == key ==> HasKey(Apply(cfg, s, e).cache, key)
    ensures e.Populate? && HasKey(Apply(cfg, s, e).cache, key) ==> s.threads[e.t].key == key || HasKey(s.cache, key)
    ensures !e.Populate? ==> (HasKey(s.cache, key) <==> HasKey(Apply(cfg, s, e).cache, key))
  {
    hide HasKey, Touch, Trim, Fits, UniqueKeys, FromSource, SF.Inv, SF.Apply, SF.Enabled;
    match e
    case Lookup(t) =>
      TouchKeepsKeys(s.cache, s.threads[t].key, key);
      TouchKeepsKeys(s.cache, s.threads[t].key, []);
    case Populate(t) =>
      assert ThreadOk(cfg, s, t);
      var k, v := s.threads[t].key, s.threads[t].fn.value;
      PutStaysCacheable(cfg, s.cache, k, v);
      PutHasKeys(s.cache, k, v, key);
      PutHasKeys(s.cache, k, v, []);
      var order := Put(s.cache, k, v);
      TrimOfFitting(cfg.len, cfg.max, order);
      TrimKeys(cfg.len, cfg.max, order, key);
      TrimKeys(cfg.len, cfg.max, order, []);
    case _ =>
  }

  lemma TrimOfFitting<V>(len: V -> int, max: int, xs: seq<Item<V>>)
    ensures Fits(len, max, xs) ==> Trim(len, max, xs) == xs
  {}

  lemma TrimKeys<V>(len: V -> int, max: int, xs: seq<Item<V>>, key: Str)
    ensures HasKey(Trim(len, max, xs), key) ==> HasKey(xs, key)
  {
    TrimLongestFittingPrefix(len, max, xs);
  }

  lemma PutStaysCacheable<V>(cfg: Config<V>, xs: seq<Item<V>>, k: Str, v: V)
    requires Cacheable(cfg, xs) && k != [] && cfg.source(k) == Some(v)
    ensures Cacheable(cfg, Put(xs, k, v))
  {
    PutKeepsUnique(xs, k, v);
    PutHasKeys(xs, k, v, []);
    WithoutKeys(xs, k);
    hide HasKey, UniqueKeys;
  }

  lemma StepKeepsLoadInv<V(!new)>(cfg: Config<V>, s: State<V>, e: Event<V>, key: Str)
    requires Inv(cfg, s) && Keepable(cfg, key) && LoadInv(s, key) && Enabled(cfg, s, e)
    ensures LoadInv(Apply(cfg, s, e), key) && |Apply(cfg, s, e).threads| == |s.threads|
  {
    var s' := Apply(cfg, s, e);
    FillsStayInside(cfg, s, e);
    KeepableStays(cfg, s, e, key);
    ThreadsKeepCount(cfg, s, e);
    CountsMove(cfg, s, e, key);
    if e.Lookup? {
      FindMeaning(s.cache, s.threads[e.t].key);
      RoomForOne(s.threads, e.t, key);
    }
    hide HasKey, FillsInside, Keepable, Inv, Apply;
  }

  /** How a step changes the three counts. */
  lemma CountsMove<V>(cfg: Config<V>, s: State<V>, e: Event<V>, key: Str)
    requires Inv(cfg, s) && FillsInside(s) && Enabled(cfg, s, e) && cfg.source(key).Some?
    ensures var s' := Apply(cfg, s, e);
            var misses := e.Lookup? && s.threads[e.t].key == key && Find(s.cache, key).None?;
            var gets := e.Getter? && s.threads[e.t].key == key;
            var fills := e.Populate? && s.threads[e.t].key == key;
            && CountOf(s'.loads, key) == CountOf(s.loads, key) + (if gets then 1 else 0)
            && Filling(s'.threads, key)
               == Filling(s.threads, key) + (if gets then 1 else 0) - (if fills then 1 else 0)
            && Unspent(s'.threads, key)
               <= Unspent(s.threads, key) + (if misses then 1 else 0) - (if gets then 1 else 0)
  {
    hide SF.Inv, HasKey, UniqueKeys, FromSource;
    if !e.Protocol? {
      var s' := Apply(cfg, s, e);
      UnspentAfterMove(s.threads, e.t, s'.threads[e.t], key);
      FillingAfterMove(s.threads, e.t, s'.threads[e.t], key);
      if e.Getter? {
        assert s'.loads[..|s'.loads| - 1] == s.loads;
      }
    }
  }

  /** Over every run of any length the getter is called for such a key at most once for each goroutine. */
  lemma {:induction false} AtMostOnePerGoroutine<V(!new)>(cfg: Config<V>, n: nat, es: seq<Event<V>>, key: Str)
    requires Keepable(cfg, key)
    ensures CountOf(After(cfg, n, es).loads, key) <= n
    ensures LoadInv(After(cfg, n, es), key) && |After(cfg, n, es).threads| == n
  {
    hide Keepable, Enabled, Apply, Inv;
    if es == [] {
      NothingUnspent<V>(n, key);
      NothingFilling<V>(n, key);
    } else {
      hide LoadInv;
      var before, e := es[..|es| - 1], es[|es| - 1];
      AtMostOnePerGoroutine(cfg, n, before, key);
      Reachable(cfg, n, before);
      if Enabled(cfg, After(cfg, n, before), e) {
        StepKeepsLoadInv(cfg, After(cfg, n, before), e, key);
      }
      LoadsBounded(After(cfg, n, es), key);
    }
  }

  lemma LoadsBounded<V>(s: State<V>, key: Str)
    requires LoadInv(s, key)
    ensures CountOf(s.loads, key) <= |s.threads|
  {}
}
