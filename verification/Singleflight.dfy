/**
  singleflight.Group.Do as a protocol: any number of goroutines, each at its own
  place in Do, and one step for each critical section, each write that others can see
  and each wait that ends. A step is taken by any goroutine that can take it.
 */
module Singleflight {
  import opened Prelude

  /** The struct `call`. `pending` is its wait group's counter, `result` is val and err once they are set. */
  datatype Call<R> = Call(pending: bool, result: Option<R>, dup: bool)

  /** What all goroutines share: the map `m`, with calls named by the order of their creation. */
  datatype Shared<R> = Shared(m: map<Str, nat>, calls: seq<Call<R>>)

  /** Do up to its unlock (lines 20-33): join the call in the map, or install a new one. */
  function EnterDo<R>(sh: Shared<R>, key: Str): Shared<R> {
    if key in sh.m then
      if sh.m[key] < |sh.calls| then sh.(calls := sh.calls[sh.m[key] := sh.calls[sh.m[key]].(dup := true)]) else sh
    else Shared(sh.m[key := |sh.calls|], sh.calls + [Call(true, None, false)])
  }

  /** The call that EnterDo gives the caller: the one in the map, or the new one. */
  function CallOf<R>(sh: Shared<R>, key: Str): nat {
    if key in sh.m then sh.m[key] else |sh.calls|
  }

  function SetResult<R>(sh: Shared<R>, c: nat, r: R): Shared<R>
    requires c < |sh.calls|
  {
    sh.(calls := sh.calls[c := sh.calls[c].(result := Some(r))])
  }

  function Done<R>(sh: Shared<R>, c: nat): Shared<R>
    requires c < |sh.calls|
  {
    sh.(calls := sh.calls[c := sh.calls[c].(pending := false)])
  }

  function Delete<R>(sh: Shared<R>, key: Str): Shared<R> {
    sh.(m := sh.m - {key})
  }

  // ---- the protocol -------------------------------------------------------------

  /** Where a goroutine is. The leader of a call passes from Running to Leaving, a follower from Waiting to Woken. */
  datatype Pc<R> =
    | Idle
    | Entering(key: Str)                        // Do is called, the lock not yet taken
    | Running(key: Str, call: nat)              // in fn
    | Storing(key: Str, call: nat, output: R)   // fn has returned
    | Stored(key: Str, call: nat)               // val and err are set
    | Signalled(key: Str, call: nat)            // wg.Done has run, the map still has the call
    | Leaving(key: Str, call: nat)              // the map entry is deleted
    | Waiting(key: Str, call: nat)              // in wg.Wait
    | Woken(key: Str, call: nat)
    | Returned(key: Str, call: nat, reply: Option<R>)  // None would be the zero value of a call never filled

  /** What is remembered of each call, for the statements below only. */
  datatype Past<R> = Past(key: Str, leader: nat, runs: nat, output: Option<R>)

  datatype State<R> = State(shared: Shared<R>, threads: seq<Pc<R>>, past: seq<Past<R>>)

  datatype Event<R> =
    | Invoke(t: nat, key: Str)
    | Enter(t: nat)
    | FnReturns(t: nat, r: R)
    | SetsResult(t: nat)
    | Signals(t: nat)
    | Deletes(t: nat)
    | Wakes(t: nat)
    | Returns(t: nat)

  function Init<R>(n: nat): State<R> {
    State(Shared(map[], []), seq(n, _ => Idle), [])
  }

  predicate Enabled<R>(s: State<R>, e: Event<R>) {
    && e.t < |s.threads|
    && var pc := s.threads[e.t];
       match e
       case Invoke(_, _) => pc.Idle? || pc.Returned?
       case Enter(_) => pc.Entering?
       case FnReturns(_, _) => pc.Running? && pc.call < |s.past|
       case SetsResult(_) => pc.Storing? && pc.call < |s.shared.calls|
       case Signals(_) => pc.Stored? && pc.call < |s.shared.calls|
       case Deletes(_) => pc.Signalled?
       case Wakes(_) => pc.Waiting? && pc.call < |s.shared.calls| && !s.shared.calls[pc.call].pending
       case Returns(_) => (pc.Leaving? || pc.Woken?) && pc.call < |s.shared.calls|
  }

  function Apply<R>(s: State<R>, e: Event<R>): State<R>
    requires Enabled(s, e)
  {
    var pc := s.threads[e.t];
    match e
    case Invoke(t, key) => s.(threads := s.threads[t := Entering(key)])
    case Enter(t) =>
      var c := CallOf(s.shared, pc.key);
      if pc.key in s.shared.m then
        s.(shared := EnterDo(s.shared, pc.key), threads := s.threads[t := Waiting(pc.key, c)])
      else
        State(EnterDo(s.shared, pc.key), s.threads[t := Running(pc.key, c)], s.past + [Past(pc.key, t, 0, None)])
    case FnReturns(t, r) =>
      s.(threads := s.threads[t := Storing(pc.key, pc.call, r)],
         past := s.past[pc.call := s.past[pc.call].(runs := s.past[pc.call].runs + 1, output := Some(r))])
    case SetsResult(t) =>
      s.(shared := SetResult(s.shared, pc.call, pc.output), threads := s.threads[t := Stored(pc.key, pc.call)])
    case Signals(t) =>
      s.(shared := Done(s.shared, pc.call), threads := s.threads[t := Signalled(pc.key, pc.call)])
    case Deletes(t) =>
      s.(shared := Delete(s.shared, pc.key), threads := s.threads[t := Leaving(pc.key, pc.call)])
    case Wakes(t) => s.(threads := s.threads[t := Woken(pc.key, pc.call)])
    case Returns(t) =>
      s.(threads := s.threads[t := Returned(pc.key, pc.call, s.shared.calls[pc.call].result)])
  }

  /** The state after a run of `n` goroutines. An event that is not enabled does nothing, so every
      sequence of events is a run and every run is one. */
  function After<R>(n: nat, es: seq<Event<R>>): (s: State<R>)
    ensures |s.threads| == n
  {
    if es == [] then Init(n)
    else
      var s := After(n, es[..|es| - 1]);
      if Enabled(s, es[|es| - 1]) then Apply(s, es[|es| - 1]) else s
  }

  // ---- what every step keeps ------------------------------------------------------

  /** Between installing its call and deleting it from the map. */
  predicate InFlight<R>(pc: Pc<R>) {
    pc.Running? || pc.Storing? || pc.Stored? || pc.Signalled?
  }

  predicate Leads<R>(pc: Pc<R>) {
    InFlight(pc) || pc.Leaving?
  }

  predicate HasCall<R>(pc: Pc<R>) {
    !pc.Idle? && !pc.Entering?
  }

  /** What a goroutine's place says about its call. */
  ghost predicate PlaceOk<R>(s: State<R>, t: nat)
    requires t < |s.threads| && |s.past| == |s.shared.calls|
  {
    var pc := s.threads[t];
    HasCall(pc) ==>
      && pc.call < |s.shared.calls|
      && var c := s.shared.calls[pc.call];
         var p := s.past[pc.call];
         && p.key == pc.key
         && (Leads(pc) ==> p.leader == t)
         && (InFlight(pc) ==> pc.key in s.shared.m && s.shared.m[pc.key] == pc.call)
         && (pc.Running? ==> c.pending && c.result == None && p.runs == 0)
         && (pc.Storing? ==> c.pending && c.result == None && p.runs == 1 && p.output == Some(pc.output))
         && (pc.Stored? ==> c.pending && c.result.Some?)
         && (pc.Signalled? || pc.Leaving? || pc.Woken? ==> !c.pending)
         && (pc.Returned? ==> pc.reply.Some? && pc.reply == p.output && p.runs == 1)
  }

  ghost predicate CallOk<R>(s: State<R>, c: nat)
    requires c < |s.shared.calls| == |s.past|
  {
    var call, p := s.shared.calls[c], s.past[c];
    && (!call.pending ==> call.result.Some?)
    && (call.result.Some? ==> call.result == p.output && p.runs == 1)
    && (call.pending ==>
          p.leader < |s.threads|
          && var pc := s.threads[p.leader]; InFlight(pc) && !pc.Signalled? && pc.call == c)
  }

  ghost predicate Inv<R>(s: State<R>) {
    && |s.past| == |s.shared.calls|
    && (forall t :: 0 <= t < |s.threads| ==> PlaceOk(s, t))
    && (forall c :: 0 <= c < |s.shared.calls| ==> CallOk(s, c))
    && (forall k :: k in s.shared.m ==>
          s.shared.m[k] < |s.past|
          && var p := s.past[s.shared.m[k]];
             p.leader < |s.threads|
             && InFlight(s.threads[p.leader]) && s.threads[p.leader].key == k)
  }

  /** A goroutine that stands still sees its call change in no way that its place forbids. */
  lemma BystanderOk<R>(s: State<R>, e: Event<R>, t: nat)
    requires Inv(s) && Enabled(s, e) && t < |s.threads| && t != e.t
    ensures |Apply(s, e).past| == |Apply(s, e).shared.calls| && PlaceOk(Apply(s, e), t)
  {
    assert PlaceOk(s, t) && PlaceOk(s, e.t);
    var pc, mine := s.threads[e.t], s.threads[t];
    if Leads(pc) && HasCall(mine) && mine.call == pc.call {
      assert !Leads(mine);
    }
  }

  lemma MoverOk<R>(s: State<R>, e: Event<R>)
    requires Inv(s) && Enabled(s, e)
    ensures |Apply(s, e).past| == |Apply(s, e).shared.calls| && PlaceOk(Apply(s, e), e.t)
  {
    assert PlaceOk(s, e.t);
    var pc := s.threads[e.t];
    if HasCall(pc) {
      assert CallOk(s, pc.call);
    } else if pc.Entering? && pc.key in s.shared.m {
      assert PlaceOk(s, s.past[s.shared.m[pc.key]].leader);
    }
  }

  lemma CallStaysOk<R>(s: State<R>, e: Event<R>, c: nat)
    requires Inv(s) && Enabled(s, e)
    requires |Apply(s, e).past| == |Apply(s, e).shared.calls| && c < |Apply(s, e).past|
    ensures CallOk(Apply(s, e), c)
  {
    assert PlaceOk(s, e.t);
    if c < |s.past| {
      assert CallOk(s, c);
    }
  }

  lemma MapStaysOk<R>(s: State<R>, e: Event<R>, k: Str)
    requires Inv(s) && Enabled(s, e) && k in Apply(s, e).shared.m
    ensures var s' := Apply(s, e);
            && s'.shared.m[k] < |s'.past|
            && var p := s'.past[s'.shared.m[k]];
               p.leader < |s'.threads|
               && InFlight(s'.threads[p.leader]) && s'.threads[p.leader].key == k
  {
    assert PlaceOk(s, e.t);
    if k in s.shared.m {
      var l := s.past[s.shared.m[k]].leader;
      assert PlaceOk(s, l);
    }
  }

  lemma StepKeepsInv<R>(s: State<R>, e: Event<R>)
    requires Inv(s) && Enabled(s, e)
    ensures Inv(Apply(s, e))
  {
    var s' := Apply(s, e);
    MoverOk(s, e);
    forall t | 0 <= t < |s'.threads| ensures PlaceOk(s', t) {
      if t != e.t {
        BystanderOk(s, e, t);
      }
    }
    forall c | 0 <= c < |s'.shared.calls| ensures CallOk(s', c) {
      CallStaysOk(s, e, c);
    }
    forall k | k in s'.shared.m
      ensures
        && s'.shared.m[k] < |s'.past|
        && var p := s'.past[s'.shared.m[k]];
           p.leader < |s'.threads|
           && InFlight(s'.threads[p.leader]) && s'.threads[p.leader].key == k
    {
      MapStaysOk(s, e, k);
    }
  }

  lemma {:induction false} Reachable<R>(n: nat, es: seq<Event<R>>)
    ensures Inv(After(n, es))
  {
    if es != [] {
      Reachable(n, es[..|es| - 1]);
      var s := After(n, es[..|es| - 1]);
      if Enabled(s, es[|es| - 1]) {
        StepKeepsInv(s, es[|es| - 1]);
      }
    }
  }

  // ---- what the protocol guarantees --------------------------------------------------

  /** At most one goroutine per key is between installing its call and deleting it. */
  lemma OneFlightPerKey<R>(n: nat, es: seq<Event<R>>, t: nat, u: nat)
    requires t < n && u < n
    requires var s := After(n, es);
             && InFlight(s.threads[t]) && InFlight(s.threads[u]) && s.threads[t].key == s.threads[u].key
    ensures t == u
  {
    Reachable(n, es);
    var s := After(n, es);
    assert PlaceOk(s, t) && PlaceOk(s, u);
  }

  /** The delete takes out the deleter's own call, never one that another goroutine has installed since. */
  lemma DeletesItsOwnCall<R>(n: nat, es: seq<Event<R>>, t: nat)
    requires Enabled(After(n, es), Deletes(t))
    ensures var s := After(n, es);
            && s.threads[t].key in s.shared.m
            && s.shared.m[s.threads[t].key] == s.threads[t].call
            && s.threads[t].call < |s.past| && s.past[s.threads[t].call].leader == t
  {
    Reachable(n, es);
    assert PlaceOk(After(n, es), t);
  }

  /** A caller that joins a call joins one whose leader is still in flight in Do, for the same key, at that moment;
      a caller that does not is the leader of a call nobody has had before. */
  lemma EnterJoinsLiveCall<R>(n: nat, es: seq<Event<R>>, t: nat)
    requires Enabled(After(n, es), Enter(t))
    ensures var s := After(n, es);
            var s' := Apply(s, Enter(t));
            var key := s.threads[t].key;
            if s'.threads[t].Waiting? then
              && s'.threads[t].call < |s.past|
              && var leader := s.past[s'.threads[t].call].leader;
                 leader < n && leader != t && InFlight(s.threads[leader])
                 && s.threads[leader].key == key && s.threads[leader].call == s'.threads[t].call
            else
              s'.threads[t] == Running(key, |s.past|)
              && forall u :: 0 <= u < n && InFlight(s.threads[u]) ==> s.threads[u].key != key
  {
    Reachable(n, es);
    var s := After(n, es);
    if s.threads[t].key in s.shared.m {
      assert PlaceOk(s, s.past[s.shared.m[s.threads[t].key]].leader);
    } else {
      forall u | 0 <= u < n && InFlight(s.threads[u]) ensures s.threads[u].key != s.threads[t].key {
        assert PlaceOk(s, u);
      }
    }
  }

  /** What a caller gets is what the one execution of fn for its call gave; so all callers of a call agree. */
  lemma EveryCallerGetsTheOneOutput<R>(n: nat, es: seq<Event<R>>, t: nat)
    requires t < |After(n, es).threads| && After(n, es).threads[t].Returned?
    ensures var s := After(n, es);
            var pc := s.threads[t];
            && pc.call < |s.past| && s.past[pc.call].key == pc.key
            && s.past[pc.call].runs == 1
            && pc.reply.Some? && pc.reply == s.past[pc.call].output
  {
    Reachable(n, es);
    assert PlaceOk(After(n, es), t);
  }

  /** fn is executed at most once for a call, and what it gave never changes afterwards. */
  lemma OutputIsFinal<R>(n: nat, es: seq<Event<R>>, e: Event<R>, c: nat)
    requires Enabled(After(n, es), e) && c < |After(n, es).past|
    ensures var s := After(n, es);
            var s' := Apply(s, e);
            && c < |s'.past|
            && s'.past[c].key == s.past[c].key && s'.past[c].leader == s.past[c].leader
            && s.past[c].runs <= s'.past[c].runs <= 1
            && (s.past[c].runs == 1 ==> s'.past[c].output == s.past[c].output)
  {
    Reachable(n, es);
    var s := After(n, es);
    assert CallOk(s, c) && PlaceOk(s, e.t);
    if s.shared.calls[c].pending {
      assert PlaceOk(s, s.past[c].leader);
    }
  }

  // ---- progress ------------------------------------------------------------------------

  /** How many steps a goroutine still has to take in this call of Do, at most. */
  function Remaining<R>(pc: Pc<R>): nat {
    match pc
    case Entering(_) => 6
    case Running(_, _) => 5
    case Storing(_, _, _) => 4
    case Stored(_, _) => 3
    case Signalled(_, _) => 2
    case Leaving(_, _) => 1
    case Waiting(_, _) => 2
    case Woken(_, _) => 1
    case _ => 0
  }

  function Work<R>(threads: seq<Pc<R>>): nat {
    if threads == [] then 0 else Remaining(threads[0]) + Work(threads[1..])
  }

  lemma {:induction false} WorkAfterMove<R>(threads: seq<Pc<R>>, t: nat, pc: Pc<R>)
    requires t < |threads|
    ensures Work(threads[t := pc]) == Work(threads) - Remaining(threads[t]) + Remaining(pc)
  {
    if t > 0 {
      WorkAfterMove(threads[1..], t - 1, pc);
      assert threads[t := pc][1..] == threads[1..][t - 1 := pc];
    } else {
      assert threads[t := pc][1..] == threads[1..];
    }
  }

  lemma {:induction false} WorkIsThere<R>(threads: seq<Pc<R>>)
    requires Work(threads) > 0
    ensures exists t :: 0 <= t < |threads| && Remaining(threads[t]) > 0
  {
    if Remaining(threads[0]) == 0 {
      WorkIsThere(threads[1..]);
      var t :| 0 <= t < |threads[1..]| && Remaining(threads[1..][t]) > 0;
      assert Remaining(threads[t + 1]) > 0;
    }
  }

  /** Every step of a call under way leaves less to do. */
  lemma StepsShrinkWork<R>(s: State<R>, e: Event<R>)
    requires Enabled(s, e) && !e.Invoke?
    ensures Work(Apply(s, e).threads) < Work(s.threads)
  {
    WorkAfterMove(s.threads, e.t, Apply(s, e).threads[e.t]);
  }

  /** A goroutine waits only while its leader has steps of its own to take. */
  lemma BlockedOnlyByLiveLeader<R>(n: nat, es: seq<Event<R>>, t: nat)
    requires t < |After(n, es).threads| && After(n, es).threads[t].Waiting?
    ensures var s := After(n, es);
            || Enabled(s, Wakes(t))
            || (s.threads[t].call < |s.past|
                && var l := s.past[s.threads[t].call].leader;
                   l < n && InFlight(s.threads[l]) && !s.threads[l].Signalled? && s.threads[l].call == s.threads[t].call)
  {
    Reachable(n, es);
    var s := After(n, es);
    assert PlaceOk(s, t);
    assert CallOk(s, s.threads[t].call);
  }

  /** The step a goroutine takes next, with `r` for what fn returns if it is about to. */
  function Next<R>(pc: Pc<R>, t: nat, r: R): Event<R> {
    match pc
    case Entering(_) => Enter(t)
    case Running(_, _) => FnReturns(t, r)
    case Storing(_, _, _) => SetsResult(t)
    case Stored(_, _) => Signals(t)
    case Signalled(_, _) => Deletes(t)
    case Waiting(_, _) => Wakes(t)
    case _ => Returns(t)
  }

  /** No deadlock: while a call is under way, some goroutine can take a step of it. */
  lemma SomeoneCanMove<R>(n: nat, es: seq<Event<R>>, r: R) returns (e: Event<R>)
    requires Work(After(n, es).threads) > 0
    ensures Enabled(After(n, es), e) && !e.Invoke?
  {
    Reachable(n, es);
    var s := After(n, es);
    WorkIsThere(s.threads);
    var t :| 0 <= t < |s.threads| && Remaining(s.threads[t]) > 0;
    assert PlaceOk(s, t);
    e := Next(s.threads[t], t, r);
    if s.threads[t].Waiting? {
      BlockedOnlyByLiveLeader(n, es, t);
      if !Enabled(s, e) {
        var l := s.past[s.threads[t].call].leader;
        assert PlaceOk(s, l);
        e := Next(s.threads[l], l, r);
      }
    }
  }

  /** Whether each event of `fs` is enabled when its turn comes, and none starts a new call. */
  ghost predicate Steps<R>(n: nat, es: seq<Event<R>>, fs: seq<Event<R>>) {
    forall i :: 0 <= i < |fs| ==> !fs[i].Invoke? && Enabled(After(n, es + fs[..i]), fs[i])
  }

  lemma {:induction false} StepsAreBounded<R>(n: nat, es: seq<Event<R>>, fs: seq<Event<R>>)
    requires Steps(n, es, fs)
    ensures Work(After(n, es + fs).threads) + |fs| <= Work(After(n, es).threads)
    decreases |fs|
  {
    hide Steps;
    if fs == [] {
      assert es + fs == es;
    } else {
      hide After, Apply, Enabled, Work;
      var before, e := fs[..|fs| - 1], fs[|fs| - 1];
      StepsOfPrefix(n, es, fs);
      StepsAreBounded(n, es, before);
      AfterOneMore(n, es + before, e);
      AppendLast(es, fs);
      StepsShrinkWork(After(n, es + before), e);
    }
  }

  lemma AppendLast<T>(xs: seq<T>, ys: seq<T>)
    requires ys != []
    ensures xs + ys == xs + ys[..|ys| - 1] + [ys[|ys| - 1]]
  {}

  lemma StepsOfPrefix<R>(n: nat, es: seq<Event<R>>, fs: seq<Event<R>>)
    requires Steps(n, es, fs) && fs != []
    ensures Steps(n, es, fs[..|fs| - 1])
    ensures !fs[|fs| - 1].Invoke? && Enabled(After(n, es + fs[..|fs| - 1]), fs[|fs| - 1])
  {
    var before := fs[..|fs| - 1];
    forall i | 0 <= i < |before| ensures !before[i].Invoke? && Enabled(After(n, es + before[..i]), before[i]) {
      assert before[..i] == fs[..i];
    }
  }

  lemma AfterOneMore<R>(n: nat, es: seq<Event<R>>, e: Event<R>)
    ensures After(n, es + [e]) == if Enabled(After(n, es), e) then Apply(After(n, es), e) else After(n, es)
  {
    assert (es + [e])[..|es + [e]| - 1] == es;
  }

  /**
    Every finite set of callers finishes if every fn does: from any reachable state
    there are at most `Work` further steps without new calls, and if they stop because
    nobody can move, then every goroutine has returned or never called.
   */
  lemma CallersFinish<R>(n: nat, es: seq<Event<R>>, fs: seq<Event<R>>, r: R)
    requires Steps(n, es, fs)
    ensures |fs| <= Work(After(n, es).threads)
    ensures (forall e :: Enabled(After(n, es + fs), e) ==> e.Invoke?) ==>
              forall t :: 0 <= t < n ==>
                var pc := After(n, es + fs).threads[t]; pc.Idle? || pc.Returned?
  {
    StepsAreBounded(n, es, fs);
    if forall e :: Enabled(After(n, es + fs), e) ==> e.Invoke? {
      NobodyMovesMeansDone(n, es + fs, r);
    }
  }

  lemma NobodyMovesMeansDone<R>(n: nat, es: seq<Event<R>>, r: R)
    requires forall e :: Enabled(After(n, es), e) ==> e.Invoke?
    ensures forall t :: 0 <= t < n ==> var pc := After(n, es).threads[t]; pc.Idle? || pc.Returned?
  {
    if Work(After(n, es).threads) > 0 {
      var e := SomeoneCanMove(n, es, r);
      assert false;
    }
    forall t | 0 <= t < n ensures var pc := After(n, es).threads[t]; pc.Idle? || pc.Returned? {
      WorkAfterMove(After(n, es).threads, t, Idle);
    }
  }
}
