/**
  The other half of GroupLoads: runs that call the getter as often as it can be called. With a key
  that can be kept, once for each goroutine; with one that cannot, any number of times.
 */
module GroupLoadsExact {
  import opened Prelude
  import opened LruSpec
  import opened Group
  import opened GroupConcurrent
  import opened GroupLoads
  import SF = Singleflight

  // ---- one goroutine's way through a load ----------------------------------------------------

  /**
    Goroutine i of n is at `pc` and, inside Do, at `inner`; those after it up to w have missed the key and not yet entered Do; c calls have
    been made; the map is empty but for the key's call, if that is there.
   */
  ghost predicate Turn<V>(s: State<V>, key: Str, n: nat, i: nat, w: nat, pc: Pc<V>, inner: SF.Pc<Loaded<V>>,
                          c: nat, inMap: bool, cache: seq<Item<V>>, loads: seq<Str>)
  {
    && i < w <= n == |s.threads| == |s.sf.threads|
    && s.threads[i] == pc && s.sf.threads[i] == inner
    && (forall j :: i < j < w ==> s.threads[j] == Loading(key, AtPeer) && s.sf.threads[j] == SF.Entering(key))
    && |s.sf.shared.calls| == |s.sf.past| == c
    && s.sf.shared.m.Keys == (if inMap then {key} else {})
    && s.cache == cache && s.loads == loads
  }

  lemma EntersDo<V>(cfg: Config<V>, s: State<V>, key: Str, n: nat, i: nat, w: nat, c: nat, xs: seq<Item<V>>, loads: seq<Str>)
    requires Turn(s, key, n, i, w, Loading(key, AtPeer), SF.Entering(key), c, false, xs, loads)
    ensures Turn(Next(cfg, s, Protocol(SF.Enter(i))), key, n, i, w, Loading(key, AtPeer), SF.Running(key, c),
                 c + 1, true, xs, loads)
  {
    assert key !in s.sf.shared.m;
  }

  lemma HasNoPeer<V>(cfg: Config<V>, s: State<V>, key: Str, n: nat, i: nat, w: nat, c: nat, xs: seq<Item<V>>, loads: seq<Str>)
    requires Turn(s, key, n, i, w, Loading(key, AtPeer), SF.Running(key, c), c + 1, true, xs, loads)
    ensures Turn(Next(cfg, s, Peer(i, NoPeer)), key, n, i, w, Loading(key, AtGetter), SF.Running(key, c),
                 c + 1, true, xs, loads)
  {}

  lemma CallsGetter<V>(cfg: Config<V>, s: State<V>, key: Str, n: nat, i: nat, w: nat, c: nat, xs: seq<Item<V>>, loads: seq<Str>)
    requires Turn(s, key, n, i, w, Loading(key, AtGetter), SF.Running(key, c), c + 1, true, xs, loads)
    ensures Turn(Next(cfg, s, Getter(i)), key, n, i, w,
                 Loading(key, match cfg.source(key) case None => AtEnd(Failed) case Some(v) => AtPopulate(v)),
                 SF.Running(key, c), c + 1, true, xs, loads + [key])
  {}

  lemma Caches<V>(cfg: Config<V>, s: State<V>, key: Str, n: nat, i: nat, w: nat, c: nat, xs: seq<Item<V>>, loads: seq<Str>, v: V)
    requires Turn(s, key, n, i, w, Loading(key, AtPopulate(v)), SF.Running(key, c), c + 1, true, xs, loads)
    ensures Turn(Next(cfg, s, Populate(i)), key, n, i, w, Loading(key, AtEnd(Value(v))), SF.Running(key, c),
                 c + 1, true, LruSpec.Add(cfg.len, cfg.max, xs, key, v), loads)
  {
    hide LruSpec.Add;
  }

  lemma EndsFn<V>(cfg: Config<V>, s: State<V>, key: Str, n: nat, i: nat, w: nat, c: nat, xs: seq<Item<V>>, loads: seq<Str>,
                  r: Loaded<V>)
    requires Turn(s, key, n, i, w, Loading(key, AtEnd(r)), SF.Running(key, c), c + 1, true, xs, loads)
    ensures Turn(Next(cfg, s, FnReturns(i)), key, n, i, w, Loading(key, AtEnd(r)), SF.Storing(key, c, r),
                 c + 1, true, xs, loads)
  {}

  lemma Stores<V>(cfg: Config<V>, s: State<V>, key: Str, n: nat, i: nat, w: nat, c: nat, xs: seq<Item<V>>, loads: seq<Str>,
                  r: Loaded<V>)
    requires Turn(s, key, n, i, w, Loading(key, AtEnd(r)), SF.Storing(key, c, r), c + 1, true, xs, loads)
    ensures Turn(Next(cfg, s, Protocol(SF.SetsResult(i))), key, n, i, w, Loading(key, AtEnd(r)), SF.Stored(key, c),
                 c + 1, true, xs, loads)
  {}

  lemma Releases<V>(cfg: Config<V>, s: State<V>, key: Str, n: nat, i: nat, w: nat, c: nat, xs: seq<Item<V>>, loads: seq<Str>,
                    r: Loaded<V>)
    requires Turn(s, key, n, i, w, Loading(key, AtEnd(r)), SF.Stored(key, c), c + 1, true, xs, loads)
    ensures Turn(Next(cfg, s, Protocol(SF.Signals(i))), key, n, i, w, Loading(key, AtEnd(r)), SF.Signalled(key, c),
                 c + 1, true, xs, loads)
  {}

  lemma LeavesMap<V>(cfg: Config<V>, s: State<V>, key: Str, n: nat, i: nat, w: nat, c: nat, xs: seq<Item<V>>, loads: seq<Str>,
                     r: Loaded<V>)
    requires Turn(s, key, n, i, w, Loading(key, AtEnd(r)), SF.Signalled(key, c), c + 1, true, xs, loads)
    ensures Turn(Next(cfg, s, Protocol(SF.Deletes(i))), key, n, i, w, Loading(key, AtEnd(r)), SF.Leaving(key, c),
                 c + 1, false, xs, loads)
  {}

  /** The cache after a load of a key that was not in it. */
  function Filled<V>(cfg: Config<V>, xs: seq<Item<V>>, key: Str): seq<Item<V>> {
    match cfg.source(key)
    case None => xs
    case Some(v) => LruSpec.Add(cfg.len, cfg.max, xs, key, v)
  }

  /** From before Do until the getter has been asked and its value, if any, is cached. */
  lemma LoadsKey<V>(cfg: Config<V>, n: nat, es: seq<Event<V>>, key: Str, i: nat, w: nat, c: nat, xs: seq<Item<V>>, loads: seq<Str>)
    returns (fs: seq<Event<V>>, r: Loaded<V>)
    requires Turn(After(cfg, n, es), key, n, i, w, Loading(key, AtPeer), SF.Entering(key), c, false, xs, loads)
    ensures Turn(After(cfg, n, fs), key, n, i, w, Loading(key, AtEnd(r)), SF.Running(key, c), c + 1, true,
                 Filled(cfg, xs, key), loads + [key])
  {
    hide Turn, Next, After, LruSpec.Add;
    fs := es;
    EntersDo(cfg, After(cfg, n, fs), key, n, i, w, c, xs, loads);
    AfterOneMore(cfg, n, fs, Protocol(SF.Enter(i)));
    fs := fs + [Protocol(SF.Enter(i))];
    HasNoPeer(cfg, After(cfg, n, fs), key, n, i, w, c, xs, loads);
    AfterOneMore(cfg, n, fs, Peer(i, NoPeer));
    fs := fs + [Peer(i, NoPeer)];
    CallsGetter(cfg, After(cfg, n, fs), key, n, i, w, c, xs, loads);
    AfterOneMore(cfg, n, fs, Getter(i));
    fs := fs + [Getter(i)];
    r := Failed;
    if cfg.source(key).Some? {
      var v := cfg.source(key).value;
      r := Value(v);
      Caches(cfg, After(cfg, n, fs), key, n, i, w, c, xs, loads + [key], v);
      AfterOneMore(cfg, n, fs, Populate(i));
      fs := fs + [Populate(i)];
    }
  }

  /** From there until the map is empty again. */
  lemma LeavesDo<V>(cfg: Config<V>, n: nat, es: seq<Event<V>>, key: Str, i: nat, w: nat, c: nat, xs: seq<Item<V>>, loads: seq<Str>,
                    r: Loaded<V>)
    returns (fs: seq<Event<V>>)
    requires Turn(After(cfg, n, es), key, n, i, w, Loading(key, AtEnd(r)), SF.Running(key, c), c + 1, true, xs, loads)
    ensures Turn(After(cfg, n, fs), key, n, i, w, Loading(key, AtEnd(r)), SF.Leaving(key, c), c + 1, false, xs, loads)
  {
    hide Turn, Next, After;
    fs := es;
    EndsFn(cfg, After(cfg, n, fs), key, n, i, w, c, xs, loads, r);
    AfterOneMore(cfg, n, fs, FnReturns(i));
    fs := fs + [FnReturns(i)];
    Stores(cfg, After(cfg, n, fs), key, n, i, w, c, xs, loads, r);
    AfterOneMore(cfg, n, fs, Protocol(SF.SetsResult(i)));
    fs := fs + [Protocol(SF.SetsResult(i))];
    Releases(cfg, After(cfg, n, fs), key, n, i, w, c, xs, loads, r);
    AfterOneMore(cfg, n, fs, Protocol(SF.Signals(i)));
    fs := fs + [Protocol(SF.Signals(i))];
    LeavesMap(cfg, After(cfg, n, fs), key, n, i, w, c, xs, loads, r);
    AfterOneMore(cfg, n, fs, Protocol(SF.Deletes(i)));
    fs := fs + [Protocol(SF.Deletes(i))];
  }

  // ---- all goroutines miss, and then load one after the other ----------------------------------

  /** The first i of n goroutines have missed the key, the others have not begun. */
  ghost predicate Gathered<V>(s: State<V>, key: Str, n: nat, i: nat) {
    && i <= n == |s.threads| == |s.sf.threads|
    && (forall j :: 0 <= j < i ==> s.threads[j] == Loading(key, AtPeer) && s.sf.threads[j] == SF.Entering(key))
    && (forall j :: i <= j < n ==> s.threads[j].Out? && s.sf.threads[j].Idle?)
    && |s.sf.shared.calls| == |s.sf.past|
    && s.sf.shared.m.Keys == {} && s.cache == [] && s.loads == []
  }

  lemma MissesToo<V>(cfg: Config<V>, s: State<V>, key: Str, n: nat, i: nat)
    requires Gathered(s, key, n, i) && i < n && key != []
    ensures Gathered(Next(cfg, Next(cfg, s, Invoke(i, key)), Lookup(i)), key, n, i + 1)
  {
    var s1 := Next(cfg, s, Invoke(i, key));
    assert s1.threads[i] == Looking(key) && s1.sf.threads[i].Idle? && s1.cache == [];
    assert Enabled(cfg, s1, Lookup(i));
  }

  lemma {:induction false} AllMiss<V>(cfg: Config<V>, n: nat, key: Str, i: nat) returns (es: seq<Event<V>>)
    requires i <= n && key != []
    ensures Gathered(After(cfg, n, es), key, n, i)
  {
    if i == 0 {
      es := [];
    } else {
      hide Next, Gathered;
      var before := AllMiss(cfg, n, key, i - 1);
      MissesToo(cfg, After(cfg, n, before), key, n, i - 1);
      AfterOneMore(cfg, n, before, Invoke(i - 1, key));
      AfterOneMore(cfg, n, before + [Invoke(i - 1, key)], Lookup(i - 1));
      es := before + [Invoke(i - 1, key)] + [Lookup(i - 1)];
    }
  }

  /** The first i have loaded the key, the others have missed it. */
  ghost predicate Queued<V>(s: State<V>, key: Str, n: nat, i: nat) {
    && i <= n == |s.threads| == |s.sf.threads|
    && (forall j :: i <= j < n ==> s.threads[j] == Loading(key, AtPeer) && s.sf.threads[j] == SF.Entering(key))
    && |s.sf.shared.calls| == |s.sf.past|
    && s.sf.shared.m.Keys == {}
    && CountOf(s.loads, key) == i
  }

  lemma TakesTurn<V>(s: State<V>, key: Str, n: nat, i: nat)
    requires Queued(s, key, n, i) && i < n
    ensures Turn(s, key, n, i, n, Loading(key, AtPeer), SF.Entering(key), |s.sf.past|, false, s.cache, s.loads)
  {
  }

  lemma HasHadTurn<V>(s: State<V>, key: Str, n: nat, i: nat, pc: Pc<V>, inner: SF.Pc<Loaded<V>>, c: nat,
                      xs: seq<Item<V>>, loads: seq<Str>)
    requires Turn(s, key, n, i, n, pc, inner, c, false, xs, loads + [key]) && CountOf(loads, key) == i
    ensures Queued(s, key, n, i + 1)
  {
    assert (loads + [key])[..|loads + [key]| - 1] == loads;
  }

  lemma {:induction false} OneByOne<V>(cfg: Config<V>, n: nat, key: Str, i: nat) returns (es: seq<Event<V>>)
    requires i <= n && key != []
    ensures Queued(After(cfg, n, es), key, n, i)
  {
    if i == 0 {
      es := AllMiss(cfg, n, key, n);
    } else {
      hide Turn, After;
      var before := OneByOne(cfg, n, key, i - 1);
      var s := After(cfg, n, before);
      var c := |s.sf.past|;
      TakesTurn(s, key, n, i - 1);
      hide Queued;
      var loaded, r := LoadsKey(cfg, n, before, key, i - 1, n, c, s.cache, s.loads);
      es := LeavesDo(cfg, n, loaded, key, i - 1, n, c, Filled(cfg, s.cache, key), s.loads + [key], r);
      HasHadTurn(After(cfg, n, es), key, n, i - 1, Loading(key, AtEnd(r)), SF.Leaving(key, c), c + 1,
                 Filled(cfg, s.cache, key), s.loads);
    }
  }

  /** There is a run in which each of n goroutines calls the getter for the key. */
  lemma EveryoneLoads<V>(cfg: Config<V>, n: nat, key: Str) returns (es: seq<Event<V>>)
    requires key != []
    ensures CountOf(After(cfg, n, es).loads, key) == n
  {
    es := OneByOne(cfg, n, key, n);
  }

  /**
    "Loaded at most k times", exactly, when the key can be kept: if there are no more than k goroutines.
    For k = 1 that is what one may hope of single flight.
   */
  lemma KeepableLoadedAtMostIff<V(!new)>(cfg: Config<V>, n: nat, key: Str, k: nat)
    requires key != [] && Keepable(cfg, key)
    ensures (forall es :: CountOf(After(cfg, n, es).loads, key) <= k) <==> n <= k
  {
    hide After, Keepable;
    var worst := EveryoneLoads(cfg, n, key);
    forall es ensures CountOf(After(cfg, n, es).loads, key) <= n {
      AtMostOnePerGoroutine(cfg, n, es, key);
    }
  }

  /** Without a budget every key with a value can be kept. */
  lemma UnlimitedIsKeepable<V(!new)>(cfg: Config<V>, key: Str)
    requires cfg.max == 0
    ensures Keepable(cfg, key) <==> cfg.source(key).Some?
  {}

  // ---- one goroutine alone, Get after Get ------------------------------------------------------

  ghost predicate Resting<V>(s: State<V>, n: nat, cache: seq<Item<V>>, loads: seq<Str>) {
    && 0 < n == |s.threads| == |s.sf.threads|
    && (s.threads[0].Out? || s.threads[0].Back?) && (s.sf.threads[0].Idle? || s.sf.threads[0].Returned?)
    && |s.sf.shared.calls| == |s.sf.past|
    && s.sf.shared.m.Keys == {}
    && s.cache == cache && s.loads == loads
  }

  lemma Looks<V>(cfg: Config<V>, s: State<V>, n: nat, key: Str, xs: seq<Item<V>>, loads: seq<Str>)
    requires Resting(s, n, xs, loads) && key != []
    ensures var s' := Next(cfg, Next(cfg, s, Invoke(0, key)), Lookup(0));
            if Find(xs, key).Some? then Resting(s', n, Touch(xs, key), loads)
            else Turn(s', key, n, 0, 1, Loading(key, AtPeer), SF.Entering(key), |s.sf.past|, false, xs, loads)
  {
    hide Touch, Find;
    var s1 := Next(cfg, s, Invoke(0, key));
    assert s1.threads[0] == Looking(key) && s1.sf == s.sf && s1.cache == xs;
    assert Enabled(cfg, s1, Lookup(0));
  }

  lemma Returned<V>(cfg: Config<V>, s: State<V>, n: nat, key: Str, c: nat, xs: seq<Item<V>>, loads: seq<Str>, r: Loaded<V>)
    requires Turn(s, key, n, 0, 1, Loading(key, AtEnd(r)), SF.Leaving(key, c), c + 1, false, xs, loads)
    ensures Resting(Next(cfg, s, Returns(0)), n, xs, loads)
  {}

  /** What a Get that nobody disturbs loads. */
  function Loads<V>(xs: seq<Item<V>>, key: Str): seq<Str> {
    if Find(xs, key).None? then [key] else []
  }

  lemma LoneGet<V>(cfg: Config<V>, n: nat, es: seq<Event<V>>, key: Str, xs: seq<Item<V>>, loads: seq<Str>)
    returns (fs: seq<Event<V>>)
    requires Resting(After(cfg, n, es), n, xs, loads) && key != []
    ensures Resting(After(cfg, n, fs), n, GetItems(cfg.len, cfg.max, cfg.source, xs, key, NoPeer), loads + Loads(xs, key))
  {
    hide After, Next, Turn, Touch, Find, LruSpec.Add;
    var s := After(cfg, n, es);
    Looks(cfg, s, n, key, xs, loads);
    AfterOneMore(cfg, n, es, Invoke(0, key));
    AfterOneMore(cfg, n, es + [Invoke(0, key)], Lookup(0));
    fs := es + [Invoke(0, key)] + [Lookup(0)];
    if Find(xs, key).None? {
      var c := |s.sf.past|;
      hide Resting;
      var loaded, r := LoadsKey(cfg, n, fs, key, 0, 1, c, xs, loads);
      fs := LeavesDo(cfg, n, loaded, key, 0, 1, c, Filled(cfg, xs, key), loads + [key], r);
      Returned(cfg, After(cfg, n, fs), n, key, c, Filled(cfg, xs, key), loads + [key], r);
      AfterOneMore(cfg, n, fs, Returns(0));
      fs := fs + [Returns(0)];
    }
  }

  function CacheAfter<V>(cfg: Config<V>, xs: seq<Item<V>>, trace: seq<Str>): seq<Item<V>>
    decreases |trace|
  {
    if trace == [] then xs
    else CacheAfter(cfg, GetItems(cfg.len, cfg.max, cfg.source, xs, trace[0], NoPeer), trace[1..])
  }

  function LoadsOf<V>(cfg: Config<V>, xs: seq<Item<V>>, trace: seq<Str>): seq<Str>
    decreases |trace|
  {
    if trace == [] then []
    else Loads(xs, trace[0]) + LoadsOf(cfg, GetItems(cfg.len, cfg.max, cfg.source, xs, trace[0], NoPeer), trace[1..])
  }

  lemma {:induction false} LoneRun<V>(cfg: Config<V>, n: nat, es: seq<Event<V>>, trace: seq<Str>, xs: seq<Item<V>>, loads: seq<Str>)
    returns (fs: seq<Event<V>>)
    requires Resting(After(cfg, n, es), n, xs, loads) && [] !in trace
    ensures Resting(After(cfg, n, fs), n, CacheAfter(cfg, xs, trace), loads + LoadsOf(cfg, xs, trace))
    decreases |trace|
  {
    hide After, GetItems, Loads;
    if trace == [] {
      assert loads + [] == loads;
      fs := es;
    } else {
      hide Resting;
      fs := LoneGet(cfg, n, es, trace[0], xs, loads);
      var ys := GetItems(cfg.len, cfg.max, cfg.source, xs, trace[0], NoPeer);
      fs := LoneRun(cfg, n, fs, trace[1..], ys, loads + Loads(xs, trace[0]));
      Associative(loads, Loads(xs, trace[0]), LoadsOf(cfg, ys, trace[1..]));
    }
  }

  lemma Associative(a: seq<Str>, b: seq<Str>, c: seq<Str>)
    ensures a + b + c == a + (b + c)
  {}

  // ---- driving a key out of the cache ------------------------------------------------------------

  /** The keys in front of `key`. */
  ghost function AheadOf<V>(xs: seq<Item<V>>, key: Str): set<Str> {
    if xs == [] || xs[0].key == key then {} else {xs[0].key} + AheadOf(xs[1..], key)
  }

  lemma {:induction false} AheadWithout<V>(xs: seq<Item<V>>, key: Str, k: Str)
    requires k != key
    ensures AheadOf(xs, key) - {k} <= AheadOf(Without(xs, k), key)
  {
    if xs != [] && xs[0].key != key {
      AheadWithout(xs[1..], key, k);
      if xs[0].key != k {
        var ys := [xs[0]] + Without(xs[1..], k);
        assert ys[1..] == Without(xs[1..], k);
      }
    }
  }

  lemma {:induction false} AheadInPrefix<V>(xs: seq<Item<V>>, ys: seq<Item<V>>, key: Str)
    requires ys <= xs && HasKey(ys, key)
    ensures AheadOf(ys, key) == AheadOf(xs, key)
  {
    var i :| 0 <= i < |ys| && ys[i].key == key;
    if xs[0].key != key {
      assert ys[1..][i - 1].key == key;
      assert ys[1..] <= xs[1..];
      AheadInPrefix(xs[1..], ys[1..], key);
    }
  }

  lemma {:induction false} AheadIsThere<V>(xs: seq<Item<V>>, key: Str, k: Str)
    requires k in AheadOf(xs, key)
    ensures HasKey(xs, k)
  {
    if xs[0].key != k {
      AheadIsThere(xs[1..], key, k);
      var i :| 0 <= i < |xs[1..]| && xs[1..][i].key == k;
      assert xs[i + 1].key == k;
    }
  }

  lemma AheadAfterPut<V>(xs: seq<Item<V>>, key: Str, k: Str, v: V)
    requires k != key
    ensures AheadOf(xs, key) + {k} <= AheadOf(Put(xs, k, v), key)
  {
    AheadWithout(xs, key, k);
    assert Put(xs, k, v)[1..] == Without(xs, k);
  }

  /** A Get of another key brings it in front of `key`, whatever was there before; or `key` is gone. */
  lemma GetGoesAhead<V>(cfg: Config<V>, xs: seq<Item<V>>, key: Str, k: Str)
    requires k != key && k != [] && cfg.source(k).Some? && FromSource(cfg.source, xs)
    ensures var ys := GetItems(cfg.len, cfg.max, cfg.source, xs, k, NoPeer);
            HasKey(ys, key) ==> HasKey(xs, key) && AheadOf(xs, key) + {k} <= AheadOf(ys, key)
  {
    hide HasKey, AheadOf, Trim;
    FindMeaning(xs, k);
    var v := if Find(xs, k).Some? then Find(xs, k).value else cfg.source(k).value;
    AheadAfterPut(xs, key, k, v);
    PutHasKeys(xs, k, v, key);
    hide Put;
    if Find(xs, k).None? {
      var ys := Trim(cfg.len, cfg.max, Put(xs, k, v));
      TrimLongestFittingPrefix(cfg.len, cfg.max, Put(xs, k, v));
      TrimKeys(cfg.len, cfg.max, Put(xs, k, v), key);
      if HasKey(ys, key) {
        AheadInPrefix(Put(xs, k, v), ys, key);
      }
    } else {
      assert Touch(xs, k) == Put(xs, k, v) by { TouchIsPut(xs, k); }
    }
  }

  lemma TouchIsPut<V>(xs: seq<Item<V>>, k: Str)
    requires Find(xs, k).Some?
    ensures Touch(xs, k) == Put(xs, k, Find(xs, k).value)
  {}

  ghost predicate Sound<V>(cfg: Config<V>, xs: seq<Item<V>>) {
    UniqueKeys(xs) && FromSource(cfg.source, xs) && Fits(cfg.len, cfg.max, xs)
  }

  lemma {:induction false} TraceStaysSound<V>(cfg: Config<V>, xs: seq<Item<V>>, trace: seq<Str>)
    requires Sound(cfg, xs) && cfg.max >= 0
    ensures Sound(cfg, CacheAfter(cfg, xs, trace))
    decreases |trace|
  {
    if trace != [] {
      hide UniqueKeys, FromSource, Fits, GetItems;
      GetStaysRight(cfg.len, cfg.max, cfg.source, xs, trace[0], NoPeer);
      TraceStaysSound(cfg, GetItems(cfg.len, cfg.max, cfg.source, xs, trace[0], NoPeer), trace[1..]);
    }
  }

  /** After Gets of other keys, all of them are in front of `key`; or it is gone. */
  lemma {:induction false} AllGoAhead<V>(cfg: Config<V>, xs: seq<Item<V>>, key: Str, others: seq<Str>)
    requires Sound(cfg, xs) && cfg.max >= 0
    requires forall k :: k in others ==> k != key && k != [] && cfg.source(k).Some?
    ensures var ys := CacheAfter(cfg, xs, others);
            HasKey(ys, key) ==> HasKey(xs, key) && AheadOf(xs, key) + (set k | k in others) <= AheadOf(ys, key)
    decreases |others|
  {
    if others != [] {
      hide UniqueKeys, FromSource, Fits, GetItems, HasKey, AheadOf;
      var k, zs := others[0], GetItems(cfg.len, cfg.max, cfg.source, xs, others[0], NoPeer);
      GetGoesAhead(cfg, xs, key, k);
      GetStaysRight(cfg.len, cfg.max, cfg.source, xs, k, NoPeer);
      assert forall x :: x in others[1..] ==> x in others;
      AllGoAhead(cfg, zs, key, others[1..]);
      HeadAndRest(others);
    }
  }

  lemma HeadAndRest(s: seq<Str>)
    requires s != []
    ensures (set k | k in s) == {s[0]} + (set k | k in s[1..])
  {
    assert s == [s[0]] + s[1..];
  }

  lemma {:induction false} PartHasFewerBytes<V(!new)>(len: V -> int, xs: seq<Item<V>>, ys: seq<Item<V>>)
    requires UniqueKeys(xs) && UniqueKeys(ys) && forall v: V :: len(v) >= 0
    requires forall x :: x in xs ==> x in ys
    ensures Bytes(len, xs) <= Bytes(len, ys)
  {
    if xs == [] {
      BytesNonNegative(len, ys);
    } else {
      var before, x := xs[..|xs| - 1], xs[|xs| - 1];
      var i := IndexIn(ys, x);
      PartWithoutLast(xs, ys, i);
      PartHasFewerBytes(len, before, ys[..i] + ys[i + 1..]);
      BytesSplice(len, ys, i);
    }
  }

  lemma IndexIn<T>(s: seq<T>, x: T) returns (i: nat)
    requires x in s
    ensures i < |s| && s[i] == x
  {
    i :| 0 <= i < |s| && s[i] == x;
  }

  lemma PartWithoutLast<V>(xs: seq<Item<V>>, ys: seq<Item<V>>, i: nat)
    requires UniqueKeys(xs) && UniqueKeys(ys) && xs != [] && i < |ys| && ys[i] == xs[|xs| - 1]
    requires forall x :: x in xs ==> x in ys
    ensures UniqueKeys(xs[..|xs| - 1]) && UniqueKeys(ys[..i] + ys[i + 1..])
    ensures var zs := ys[..i] + ys[i + 1..]; forall x :: x in xs[..|xs| - 1] ==> x in zs
  {
    var zs := ys[..i] + ys[i + 1..];
    forall x | x in xs[..|xs| - 1] ensures x in zs {
      var j := IndexIn(xs[..|xs| - 1], x);
      assert x == xs[j] && x in xs;
      var k := IndexIn(ys, x);
      assert zs[if k < i then k else k - 1] == x;
    }
  }

  function KeysOf<V>(xs: seq<Item<V>>): seq<Str> {
    seq(|xs|, i requires 0 <= i < |xs| => xs[i].key)
  }

  /** A trace of Gets that starts with the key and, from any cache, ends with the key not cached. */
  ghost predicate DrivesOut<V(!new)>(cfg: Config<V>, key: Str, trace: seq<Str>) {
    && trace != [] && trace[0] == key && [] !in trace
    && forall xs :: Sound(cfg, xs) ==> !HasKey(CacheAfter(cfg, xs, trace), key)
  }

  /** If some values that can be cached do not fit the budget together, getting the others drives the key out. */
  lemma OthersDriveOut<V(!new)>(cfg: Config<V>, key: Str, items: seq<Item<V>>, xs: seq<Item<V>>)
    requires cfg.max >= 0 && key != [] && cfg.source(key).Some? && forall v: V :: cfg.len(v) >= 0
    requires Cacheable(cfg, items) && HasKey(items, key) && !Fits(cfg.len, cfg.max, items)
    requires Sound(cfg, xs)
    ensures !HasKey(CacheAfter(cfg, xs, KeysOf(Without(items, key))), key)
  {
    var others := KeysOf(Without(items, key));
    var ys := CacheAfter(cfg, xs, others);
    hide CacheAfter, Fits, AheadOf, Without;
    OthersOk(cfg, items, key);
    TraceStaysSound(cfg, xs, others);
    AllGoAhead(cfg, xs, key, others);
    if HasKey(ys, key) {
      forall x | x in items ensures x in ys {
        if x.key != key {
          OtherIsListed(items, key, x);
          AheadIsThere(ys, key, x.key);
        }
        SameItem(cfg, items, ys, x);
      }
      PartHasFewerBytes(cfg.len, items, ys);
      FewerBytesFit(cfg.len, cfg.max, items, ys);
    }
  }

  lemma FewerBytesFit<V>(len: V -> int, max: int, xs: seq<Item<V>>, ys: seq<Item<V>>)
    requires Bytes(len, xs) <= Bytes(len, ys) && Fits(len, max, ys)
    ensures Fits(len, max, xs)
  {}

  lemma OthersOk<V>(cfg: Config<V>, items: seq<Item<V>>, key: Str)
    requires Cacheable(cfg, items)
    ensures forall k :: k in KeysOf(Without(items, key)) ==> k != key && k != [] && cfg.source(k).Some?
  {
    WithoutKeys(items, key);
    var rest := Without(items, key);
    forall k | k in KeysOf(rest) ensures k != key && k != [] && cfg.source(k).Some? {
      var i := IndexIn(KeysOf(rest), k);
      assert rest[i] in rest && rest[i] in items;
      var j := IndexIn(items, rest[i]);
      assert items[j].key == k;
    }
  }

  lemma OtherIsListed<V>(items: seq<Item<V>>, key: Str, x: Item<V>)
    requires x in items && x.key != key
    ensures x.key in KeysOf(Without(items, key))
  {
    WithoutKeys(items, key);
    var i := IndexIn(Without(items, key), x);
    assert KeysOf(Without(items, key))[i] == x.key;
  }

  /** Two caches of the same source hold the same value under the same key. */
  lemma SameItem<V>(cfg: Config<V>, xs: seq<Item<V>>, ys: seq<Item<V>>, x: Item<V>)
    requires FromSource(cfg.source, xs) && FromSource(cfg.source, ys) && x in xs && HasKey(ys, x.key)
    ensures x in ys
  {
    var i :| 0 <= i < |ys| && ys[i].key == x.key;
    assert ys[i] in ys;
    assert Some(ys[i].value) == Some(x.value);
  }

  lemma UnkeepableCanBeDrivenOut<V(!new)>(cfg: Config<V>, key: Str) returns (trace: seq<Str>)
    requires cfg.max >= 0 && key != [] && !Keepable(cfg, key) && forall v: V :: cfg.len(v) >= 0
    ensures DrivesOut(cfg, key, trace)
  {
    hide Cacheable, Fits, HasKey, Without, UniqueKeys, FromSource;
    if cfg.source(key).None? {
      trace := [key];
      forall xs | Sound(cfg, xs) ensures !HasKey(CacheAfter(cfg, xs, trace), key) {
        TraceStaysSound(cfg, xs, trace);
        NeverHas(cfg, CacheAfter(cfg, xs, trace), key);
      }
    } else {
      var items :| Cacheable(cfg, items) && HasKey(items, key) && !Fits(cfg.len, cfg.max, items);
      OthersOk(cfg, items, key);
      var others := KeysOf(Without(items, key));
      hide KeysOf;
      trace := [key] + others;
      assert trace[1..] == others;
      forall xs | Sound(cfg, xs) ensures !HasKey(CacheAfter(cfg, xs, trace), key) {
        GetStaysRight(cfg.len, cfg.max, cfg.source, xs, key, NoPeer);
        OthersDriveOut(cfg, key, items, GetItems(cfg.len, cfg.max, cfg.source, xs, key, NoPeer));
      }
    }
  }

  lemma NeverHas<V>(cfg: Config<V>, xs: seq<Item<V>>, key: Str)
    requires FromSource(cfg.source, xs) && cfg.source(key).None?
    ensures !HasKey(xs, key)
  {
    forall i | 0 <= i < |xs| ensures xs[i].key != key {
      assert xs[i] in xs;
    }
  }

  lemma {:induction false} CountOfConcat(a: seq<Str>, b: seq<Str>, key: Str)
    ensures CountOf(a + b, key) == CountOf(a, key) + CountOf(b, key)
  {
    if b == [] {
      assert a + b == a;
    } else {
      CountOfConcat(a, b[..|b| - 1], key);
      assert (a + b)[..|a + b| - 1] == a + b[..|b| - 1];
    }
  }

  lemma LoadsTheFirst<V>(cfg: Config<V>, xs: seq<Item<V>>, trace: seq<Str>, key: Str)
    requires trace != [] && trace[0] == key && !HasKey(xs, key)
    ensures CountOf(LoadsOf(cfg, xs, trace), key) >= 1
  {
    AbsentKey(xs, key);
    hide HasKey, GetItems;
    var rest := LoadsOf(cfg, GetItems(cfg.len, cfg.max, cfg.source, xs, key, NoPeer), trace[1..]);
    CountOfConcat([key], rest, key);
    assert [key][..0] == [] && CountOf([], key) == 0;
  }

  /** One goroutine, getting the key and driving it out again and again, loads it k times. */
  lemma {:induction false} LoadsAgain<V(!new)>(cfg: Config<V>, n: nat, key: Str, trace: seq<Str>, k: nat)
    returns (es: seq<Event<V>>, xs: seq<Item<V>>, loads: seq<Str>)
    requires n > 0 && cfg.max >= 0 && DrivesOut(cfg, key, trace)
    ensures Resting(After(cfg, n, es), n, xs, loads) && Sound(cfg, xs) && !HasKey(xs, key)
    ensures CountOf(loads, key) >= k
    decreases k
  {
    if k == 0 {
      es, xs, loads := [], [], [];
    } else {
      hide After, Resting, HasKey, Sound, CacheAfter, LoadsOf;
      var es0, xs0, loads0 := LoadsAgain(cfg, n, key, trace, k - 1);
      es := LoneRun(cfg, n, es0, trace, xs0, loads0);
      xs, loads := CacheAfter(cfg, xs0, trace), loads0 + LoadsOf(cfg, xs0, trace);
      TraceStaysSound(cfg, xs0, trace);
      LoadsTheFirst(cfg, xs0, trace, key);
      CountOfConcat(loads0, LoadsOf(cfg, xs0, trace), key);
    }
  }

  lemma {:induction false} NobodyLoads<V>(cfg: Config<V>, es: seq<Event<V>>)
    ensures After(cfg, 0, es).threads == [] && After(cfg, 0, es).loads == []
  {
    if es != [] {
      NobodyLoads(cfg, es[..|es| - 1]);
    }
  }

  /**
    How often a key can be loaded, for every budget and every number of goroutines: never more than k
    times, in whatever run, exactly if there is no goroutine, or if the key can be kept and there are no
    more than k. (A length is not negative.)
   */
  lemma LoadedAtMostIff<V(!new)>(cfg: Config<V>, n: nat, key: Str, k: nat)
    requires key != [] && cfg.max >= 0 && forall v: V :: cfg.len(v) >= 0
    ensures (forall es :: CountOf(After(cfg, n, es).loads, key) <= k)
            <==> n == 0 || (Keepable(cfg, key) && n <= k)
  {
    hide After, Keepable, DrivesOut;
    if n == 0 {
      forall es ensures CountOf(After(cfg, n, es).loads, key) <= k {
        NobodyLoads(cfg, es);
      }
    } else if Keepable(cfg, key) {
      KeepableLoadedAtMostIff(cfg, n, key, k);
    } else {
      var trace := UnkeepableCanBeDrivenOut(cfg, key);
      var es, _, _ := LoadsAgain(cfg, n, key, trace, k + 1);
      assert CountOf(After(cfg, n, es).loads, key) > k;
    }
  }
}
