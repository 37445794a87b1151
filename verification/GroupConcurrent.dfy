/**
  Group.Get under concurrency: goroutines that look into the main cache, and on a
  miss run the singleflight protocol with fetching from a peer, calling the getter and
  filling the cache as the steps of fn. The cache's own operations are atomic, as
  they run under its lock.
 */
module GroupConcurrent {
  import opened Prelude
  import opened LruSpec
  import opened Group
  import SF = Singleflight

  /** What fn returns. */
  datatype Loaded<+V> = Value(value: V) | Failed

  /** Inside fn; it starts at the picker. */
  datatype FnPc<V> = AtPeer | AtGetter | AtPopulate(value: V) | AtEnd(result: Loaded<V>)

  datatype Pc<V> =
    | Out
    | Looking(key: Str)                   // before mainCache.get
    | Loading(key: Str, fn: FnPc<V>)      // in loader.Do; `fn` counts while the goroutine runs fn
    | Back(key: Str, reply: Reply<V>)

  /** The configuration: the getter as a function, the budget and the value length. */
  datatype Config<!V> = Config(len: V -> int, max: int, source: Source<V>)

  datatype State<V> = State(
    cache: seq<Item<V>>,
    sf: SF.State<Loaded<V>>,
    threads: seq<Pc<V>>,
    loads: seq<Str>)  // the keys for which the getter was called, in order

  datatype Event<V> =
    | Invoke(t: nat, key: Str)
    | Lookup(t: nat)
    | Protocol(e: SF.Event<Loaded<V>>)    // Enter, SetsResult, Signals, Deletes or Wakes
    | Peer(t: nat, reply: PeerReply<V>)
    | Getter(t: nat)
    | Populate(t: nat)
    | FnReturns(t: nat)
    | Returns(t: nat)

  function Init<V>(n: nat): State<V> {
    State([], SF.Init(n), seq(n, _ => Out), [])
  }

  predicate RunsFn<V>(s: State<V>, t: nat) {
    t < |s.threads| && t < |s.sf.threads| && s.threads[t].Loading? && s.sf.threads[t].Running?
  }

  /** A peer that answers gives the value that the getter would give: peers share the source. */
  ghost predicate Enabled<V>(cfg: Config<V>, s: State<V>, e: Event<V>) {
    && |s.threads| == |s.sf.threads|
    && match e
       case Invoke(t, _) => t < |s.threads| && (s.threads[t].Out? || s.threads[t].Back?)
       case Lookup(t) =>
         t < |s.threads| && s.threads[t].Looking? && SF.Enabled(s.sf, SF.Invoke(t, s.threads[t].key))
       case Protocol(f) =>
         !f.Invoke? && !f.FnReturns? && !f.Returns? && SF.Enabled(s.sf, f)
       case Peer(t, reply) =>
         RunsFn(s, t) && s.threads[t].fn.AtPeer?
         && (reply.PeerValue? ==> cfg.source(s.threads[t].key) == Some(reply.value))
       case Getter(t) => RunsFn(s, t) && s.threads[t].fn.AtGetter?
       case Populate(t) => RunsFn(s, t) && s.threads[t].fn.AtPopulate?
       case FnReturns(t) =>
         RunsFn(s, t) && s.threads[t].fn.AtEnd? && SF.Enabled(s.sf, SF.FnReturns(t, s.threads[t].fn.result))
       case Returns(t) => t < |s.threads| && s.threads[t].Loading? && SF.Enabled(s.sf, SF.Returns(t))
  }

  /** Group.load after Do: the error, the value, or the complaint about a nil value. */
  function ReplyOf<V>(r: Option<Loaded<V>>): Reply<V> {
    match r
    case None => NotFound
    case Some(Failed) => LoadFailed
    case Some(Value(v)) => Ok(v)
  }

  ghost function Apply<V>(cfg: Config<V>, s: State<V>, e: Event<V>): State<V>
    requires Enabled(cfg, s, e)
  {
    match e
    case Invoke(t, key) =>
      s.(threads := s.threads[t := if key == [] then Back(key, KeyRequired) else Looking(key)])
    case Lookup(t) =>
      var key := s.threads[t].key;
      (match Find(s.cache, key)
       case Some(v) => s.(cache := Touch(s.cache, key), threads := s.threads[t := Back(key, Ok(v))])
       case None => s.(sf := SF.Apply(s.sf, SF.Invoke(t, key)), threads := s.threads[t := Loading(key, AtPeer)]))
    case Protocol(f) => s.(sf := SF.Apply(s.sf, f))
    case Peer(t, reply) =>
      s.(threads := s.threads[t := s.threads[t].(
        fn := if reply.PeerValue? then AtEnd(Value(reply.value)) else AtGetter)])
    case Getter(t) =>
      var key := s.threads[t].key;
      s.(loads := s.loads + [key],
         threads := s.threads[t := s.threads[t].(
           fn := match cfg.source(key) case None => AtEnd(Failed) case Some(v) => AtPopulate(v))])
    case Populate(t) =>
      var v := s.threads[t].fn.value;
      s.(cache := LruSpec.Add(cfg.len, cfg.max, s.cache, s.threads[t].key, v),
         threads := s.threads[t := s.threads[t].(fn := AtEnd(Value(v)))])
    case FnReturns(t) => s.(sf := SF.Apply(s.sf, SF.FnReturns(t, s.threads[t].fn.result)))
    case Returns(t) =>
      var sf := SF.Apply(s.sf, SF.Returns(t));
      s.(sf := sf, threads := s.threads[t := Back(s.threads[t].key, ReplyOf(sf.threads[t].reply))])
  }

  ghost function Next<V>(cfg: Config<V>, s: State<V>, e: Event<V>): State<V> {
    if Enabled(cfg, s, e) then Apply(cfg, s, e) else s
  }

  ghost function After<V>(cfg: Config<V>, n: nat, es: seq<Event<V>>): State<V> {
    if es == [] then Init(n) else Next(cfg, After(cfg, n, es[..|es| - 1]), es[|es| - 1])
  }

  // ---- the protocol inside ------------------------------------------------------------

  /** The step of the singleflight protocol that a step of Get takes: one, or none. */
  ghost function ProtocolStep<V>(cfg: Config<V>, s: State<V>, e: Event<V>): seq<SF.Event<Loaded<V>>> {
    if !Enabled(cfg, s, e) then []
    else match e
      case Lookup(t) => if Find(s.cache, s.threads[t].key).None? then [SF.Invoke(t, s.threads[t].key)] else []
      case Protocol(f) => [f]
      case FnReturns(t) => [SF.FnReturns(t, s.threads[t].fn.result)]
      case Returns(t) => [SF.Returns(t)]
      case _ => []
  }

  ghost function ProtocolRun<V>(cfg: Config<V>, n: nat, es: seq<Event<V>>): seq<SF.Event<Loaded<V>>> {
    if es == [] then []
    else
      var before := es[..|es| - 1];
      ProtocolRun(cfg, n, before) + ProtocolStep(cfg, After(cfg, n, before), es[|es| - 1])
  }

  lemma StepProjects<V>(cfg: Config<V>, s: State<V>, e: Event<V>)
    ensures var step := ProtocolStep(cfg, s, e);
            && |step| <= 1
            && (step == [] ==> Next(cfg, s, e).sf == s.sf)
            && (step != [] ==> SF.Enabled(s.sf, step[0]) && Next(cfg, s, e).sf == SF.Apply(s.sf, step[0]))
  {
    hide SF.Apply;
  }

  lemma AfterAtMostOne<R>(n: nat, run: seq<SF.Event<R>>, step: seq<SF.Event<R>>)
    requires |step| <= 1 && (step != [] ==> SF.Enabled(SF.After(n, run), step[0]))
    ensures SF.After(n, run + step) == if step == [] then SF.After(n, run) else SF.Apply(SF.After(n, run), step[0])
  {
    if step == [] {
      assert run + step == run;
    } else {
      SF.AfterOneMore(n, run, step[0]);
      assert step == [step[0]];
    }
  }

  /** Every run of concurrent Gets contains a run of the singleflight protocol, so all that holds of those runs
      holds of the loader in these. */
  lemma {:induction false} ContainsAProtocolRun<V>(cfg: Config<V>, n: nat, es: seq<Event<V>>)
    ensures After(cfg, n, es).sf == SF.After(n, ProtocolRun(cfg, n, es))
  {
    if es != [] {
      hide Next, ProtocolStep, SF.Enabled, SF.Apply, SF.After;
      var before, e := es[..|es| - 1], es[|es| - 1];
      ContainsAProtocolRun(cfg, n, before);
      var s := After(cfg, n, before);
      StepProjects(cfg, s, e);
      AfterAtMostOne(n, ProtocolRun(cfg, n, before), ProtocolStep(cfg, s, e));
    }
  }

  // ---- coherence --------------------------------------------------------------------------

  ghost predicate Right<V>(source: Source<V>, key: Str, r: Loaded<V>) {
    source(key) == match r case Value(v) => Some(v) case Failed => None
  }

  /** A goroutine is inside Do exactly while it is Loading, with the same key. */
  ghost predicate Linked<V>(s: State<V>, t: nat)
    requires t < |s.threads| == |s.sf.threads|
  {
    var pc, inner := s.threads[t], s.sf.threads[t];
    if pc.Loading? then !inner.Idle? && !inner.Returned? && inner.key == pc.key
    else inner.Idle? || inner.Returned?
  }

  ghost predicate ThreadOk<V>(cfg: Config<V>, s: State<V>, t: nat)
    requires t < |s.threads| == |s.sf.threads|
  {
    var pc := s.threads[t];
    && Linked(s, t)
    && (pc.Loading? || pc.Looking? ==> pc.key != [])
    && (pc.Loading? && pc.fn.AtPopulate? ==> cfg.source(pc.key) == Some(pc.fn.value))
    && (pc.Loading? && pc.fn.AtEnd? ==> Right(cfg.source, pc.key, pc.fn.result))
    && (pc.Back? ==> pc.reply == Expected(cfg.source, pc.key))
  }

  ghost predicate Inv<V>(cfg: Config<V>, s: State<V>) {
    && SF.Inv(s.sf)
    && |s.threads| == |s.sf.threads|
    && UniqueKeys(s.cache) && FromSource(cfg.source, s.cache)
    && (forall t :: 0 <= t < |s.threads| ==> ThreadOk(cfg, s, t))
    && (forall c :: 0 <= c < |s.sf.past| && s.sf.past[c].output.Some? ==>
          Right(cfg.source, s.sf.past[c].key, s.sf.past[c].output.value))
  }

  lemma CacheStaysRight<V>(cfg: Config<V>, s: State<V>, e: Event<V>)
    requires Inv(cfg, s) && Enabled(cfg, s, e)
    ensures UniqueKeys(Apply(cfg, s, e).cache) && FromSource(cfg.source, Apply(cfg, s, e).cache)
  {
    match e
    case Lookup(t) =>
      var key := s.threads[t].key;
      TouchKeepsBytes(cfg.len, s.cache, key);
      FindMeaning(s.cache, key);
      WithoutKeys(s.cache, key);
    case Populate(t) =>
      assert ThreadOk(cfg, s, t);
      var key, v := s.threads[t].key, s.threads[t].fn.value;
      PutKeepsUnique(s.cache, key, v);
      WithoutKeys(s.cache, key);
      TrimLongestFittingPrefix(cfg.len, cfg.max, Put(s.cache, key, v));
      PrefixOk(cfg.source, Put(s.cache, key, v), LruSpec.Add(cfg.len, cfg.max, s.cache, key, v));
    case _ =>
  }

  lemma PrefixOk<V>(source: Source<V>, xs: seq<Item<V>>, ys: seq<Item<V>>)
    requires ys <= xs && UniqueKeys(xs) && FromSource(source, xs)
    ensures UniqueKeys(ys) && FromSource(source, ys)
  {
    forall y | y in ys ensures source(y.key) == Some(y.value) {
      var i :| 0 <= i < |ys| && ys[i] == y;
      assert xs[i] == y;
    }
  }

  lemma OutputsStayRight<V>(cfg: Config<V>, s: State<V>, e: Event<V>, c: nat)
    requires Inv(cfg, s) && Enabled(cfg, s, e)
    requires var s' := Apply(cfg, s, e); c < |s'.sf.past| && s'.sf.past[c].output.Some?
    ensures var s' := Apply(cfg, s, e); Right(cfg.source, s'.sf.past[c].key, s'.sf.past[c].output.value)
  {
    if e.FnReturns? {
      assert ThreadOk(cfg, s, e.t) && SF.PlaceOk(s.sf, e.t);
    }
  }

  lemma ThreadStaysOk<V>(cfg: Config<V>, s: State<V>, e: Event<V>, t: nat)
    requires Inv(cfg, s) && Enabled(cfg, s, e) && t < |s.threads|
    ensures var s' := Apply(cfg, s, e); |s'.threads| == |s'.sf.threads| == |s.threads| && ThreadOk(cfg, s', t)
  {
    hide UniqueKeys, HasKey, Touch;
    assert ThreadOk(cfg, s, t);
    match e
    case Lookup(u) => FindMeaning(s.cache, s.threads[u].key);
    case Returns(u) =>
      SF.StepKeepsInv(s.sf, SF.Returns(u));
      assert SF.PlaceOk(SF.Apply(s.sf, SF.Returns(u)), u) && SF.PlaceOk(s.sf, u);
    case _ =>
  }

  lemma StepKeepsInv<V>(cfg: Config<V>, s: State<V>, e: Event<V>)
    requires Inv(cfg, s) && Enabled(cfg, s, e)
    ensures Inv(cfg, Apply(cfg, s, e))
  {
    hide UniqueKeys, FromSource, ThreadOk, SF.Inv, Right;
    var s' := Apply(cfg, s, e);
    CacheStaysRight(cfg, s, e);
    ProtocolStaysOk(cfg, s, e);
    ThreadsKeepCount(cfg, s, e);
    forall t | 0 <= t < |s'.threads| ensures ThreadOk(cfg, s', t) {
      ThreadStaysOk(cfg, s, e, t);
    }
    forall c | 0 <= c < |s'.sf.past| && s'.sf.past[c].output.Some?
      ensures Right(cfg.source, s'.sf.past[c].key, s'.sf.past[c].output.value)
    {
      OutputsStayRight(cfg, s, e, c);
    }
  }

  lemma ThreadsKeepCount<V>(cfg: Config<V>, s: State<V>, e: Event<V>)
    requires Enabled(cfg, s, e)
    ensures |Apply(cfg, s, e).threads| == |Apply(cfg, s, e).sf.threads| == |s.threads|
  {}

  lemma ProtocolStaysOk<V>(cfg: Config<V>, s: State<V>, e: Event<V>)
    requires SF.Inv(s.sf) && Enabled(cfg, s, e)
    ensures SF.Inv(Apply(cfg, s, e).sf)
  {
    hide SF.Inv, SF.Apply;
    var step := ProtocolStep(cfg, s, e);
    if step != [] {
      SF.StepKeepsInv(s.sf, step[0]);
    }
  }

  lemma {:induction false} Reachable<V>(cfg: Config<V>, n: nat, es: seq<Event<V>>)
    ensures Inv(cfg, After(cfg, n, es))
  {
    if es != [] {
      Reachable(cfg, n, es[..|es| - 1]);
      var s := After(cfg, n, es[..|es| - 1]);
      if Enabled(cfg, s, es[|es| - 1]) {
        StepKeepsInv(cfg, s, es[|es| - 1]);
      }
    }
  }

  // ---- what a Get guarantees ------------------------------------------------------------

  /** Whatever the interleaving, every Get that returns replies with what the getter defines for its key. In
      particular the branch for a nil value without an error is never taken. */
  lemma EveryReplyIsTheSources<V>(cfg: Config<V>, n: nat, es: seq<Event<V>>, t: nat)
    requires t < |After(cfg, n, es).threads| && After(cfg, n, es).threads[t].Back?
    ensures var pc := After(cfg, n, es).threads[t];
            pc.reply == Expected(cfg.source, pc.key) && pc.reply != NotFound
  {
    Reachable(cfg, n, es);
    assert ThreadOk(cfg, After(cfg, n, es), t);
  }

  /** Only values of the getter are ever cached, each under its key once; a key whose load fails is never cached. */
  lemma CacheIsCoherent<V>(cfg: Config<V>, n: nat, es: seq<Event<V>>, key: Str)
    ensures var xs := After(cfg, n, es).cache;
            && UniqueKeys(xs)
            && (Find(xs, key).Some? ==> Find(xs, key) == cfg.source(key))
            && (cfg.source(key).None? ==> !HasKey(xs, key))
  {
    Reachable(cfg, n, es);
    FindMeaning(After(cfg, n, es).cache, key);
  }

  /** At most one goroutine per key is anywhere from entering fn to deleting its call; so at most one
      fetch or getter call for a key is under way. */
  lemma OneLoadInFlight<V>(cfg: Config<V>, n: nat, es: seq<Event<V>>, t: nat, u: nat)
    requires t < n && u < n
    requires |After(cfg, n, es).threads| == |After(cfg, n, es).sf.threads| == n
    requires var s := After(cfg, n, es);
             RunsFn(s, t) && RunsFn(s, u) && s.threads[t].key == s.threads[u].key
    ensures t == u
  {
    Reachable(cfg, n, es);
    ContainsAProtocolRun(cfg, n, es);
    var s := After(cfg, n, es);
    assert ThreadOk(cfg, s, t) && ThreadOk(cfg, s, u);
    SF.OneFlightPerKey(n, ProtocolRun(cfg, n, es), t, u);
  }

  /** A Get whose look into the cache finds its key is done with that step: it never calls the getter. */
  lemma CachedKeyIsNotLoaded<V>(cfg: Config<V>, n: nat, es: seq<Event<V>>, t: nat)
    requires var s := After(cfg, n, es); Enabled(cfg, s, Lookup(t)) && HasKey(s.cache, s.threads[t].key)
    ensures var s := After(cfg, n, es);
            var s' := Next(cfg, s, Lookup(t));
            && s'.threads[t] == Back(s.threads[t].key, Expected(cfg.source, s.threads[t].key))
            && cfg.source(s.threads[t].key).Some?
            && s'.loads == s.loads && s'.sf == s.sf
  {
    Reachable(cfg, n, es);
    var s := After(cfg, n, es);
    assert ThreadOk(cfg, s, t);
    FindMeaning(s.cache, s.threads[t].key);
  }

  lemma AfterOneMore<V>(cfg: Config<V>, n: nat, es: seq<Event<V>>, e: Event<V>)
    ensures After(cfg, n, es + [e]) == Next(cfg, After(cfg, n, es), e)
  {
    assert (es + [e])[..|es + [e]| - 1] == es;
  }
}
