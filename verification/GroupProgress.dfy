/**
  Progress of whole Gets: while any is under way some goroutine has a step to take, and there are
  only so many steps, if peers and getter always come back. So every finite set of Gets finishes.
 */
module GroupProgress {
  import opened Prelude
  import opened LruSpec
  import opened Group
  import opened GroupConcurrent
  import SF = Singleflight

  /** How many steps are left inside fn. */
  function FnSteps<V>(fn: FnPc<V>): nat {
    match fn
    case AtPeer => 3
    case AtGetter => 2
    case AtPopulate(_) => 1
    case AtEnd(_) => 0
  }

  /** How many steps a goroutine still has to take in this Get, at most. */
  function Left<V>(pc: Pc<V>, inner: SF.Pc<Loaded<V>>): nat {
    match pc
    case Looking(_) => 11
    case Loading(_, fn) => 1 + SF.Remaining(inner) + FnSteps(fn)
    case _ => 0
  }

  function GetWork<V>(threads: seq<Pc<V>>, inners: seq<SF.Pc<Loaded<V>>>): nat
    requires |threads| == |inners|
  {
    if threads == [] then 0 else Left(threads[0], inners[0]) + GetWork(threads[1..], inners[1..])
  }

  lemma {:induction false} GetWorkAfterMove<V>(threads: seq<Pc<V>>, inners: seq<SF.Pc<Loaded<V>>>, t: nat,
                                               pc: Pc<V>, inner: SF.Pc<Loaded<V>>)
    requires t < |threads| == |inners|
    ensures GetWork(threads[t := pc], inners[t := inner])
            == GetWork(threads, inners) - Left(threads[t], inners[t]) + Left(pc, inner)
  {
    if t > 0 {
      GetWorkAfterMove(threads[1..], inners[1..], t - 1, pc, inner);
      assert threads[t := pc][1..] == threads[1..][t - 1 := pc];
      assert inners[t := inner][1..] == inners[1..][t - 1 := inner];
    } else {
      assert threads[t := pc][1..] == threads[1..];
      assert inners[t := inner][1..] == inners[1..];
    }
  }

  lemma {:induction false} WorkIsSomewhere<V>(threads: seq<Pc<V>>, inners: seq<SF.Pc<Loaded<V>>>) returns (t: nat)
    requires |threads| == |inners| && GetWork(threads, inners) > 0
    ensures t < |threads| && Left(threads[t], inners[t]) > 0
  {
    if Left(threads[0], inners[0]) > 0 {
      t := 0;
    } else {
      t := WorkIsSomewhere(threads[1..], inners[1..]);
      t := t + 1;
    }
  }

  lemma {:induction false} NoWorkNowhere<V>(threads: seq<Pc<V>>, inners: seq<SF.Pc<Loaded<V>>>, t: nat)
    requires t < |threads| == |inners| && GetWork(threads, inners) == 0
    ensures Left(threads[t], inners[t]) == 0
  {
    if t > 0 {
      NoWorkNowhere(threads[1..], inners[1..], t - 1);
    }
  }

  /** The goroutine that a step belongs to. */
  function Mover<V>(e: Event<V>): nat {
    match e
    case Protocol(f) => f.t
    case _ => e.t
  }

  /** A step moves one goroutine, which then has less left to do. */
  lemma MoverHasLess<V>(cfg: Config<V>, s: State<V>, e: Event<V>)
    requires Inv(cfg, s) && Enabled(cfg, s, e) && !e.Invoke?
    ensures var t := Mover(e);
            var s' := Apply(cfg, s, e);
            && t < |s.threads| == |s'.threads| == |s'.sf.threads|
            && s'.threads == s.threads[t := s'.threads[t]]
            && s'.sf.threads == s.sf.threads[t := s'.sf.threads[t]]
            && Left(s'.threads[t], s'.sf.threads[t]) < Left(s.threads[t], s.sf.threads[t])
  {
    assert ThreadOk(cfg, s, Mover(e));
    hide SF.Inv, UniqueKeys, FromSource, Find, Touch;
  }

  /** Every step of a Get under way leaves less to do. */
  lemma StepsShrinkGetWork<V>(cfg: Config<V>, s: State<V>, e: Event<V>)
    requires Inv(cfg, s) && Enabled(cfg, s, e) && !e.Invoke?
    ensures |Apply(cfg, s, e).threads| == |Apply(cfg, s, e).sf.threads|
    ensures GetWork(Apply(cfg, s, e).threads, Apply(cfg, s, e).sf.threads) < GetWork(s.threads, s.sf.threads)
  {
    MoverHasLess(cfg, s, e);
    hide Inv, Enabled, Apply, Left;
    var s', t := Apply(cfg, s, e), Mover(e);
    GetWorkAfterMove(s.threads, s.sf.threads, t, s'.threads[t], s'.sf.threads[t]);
  }

  /** The step a goroutine takes next, unless it waits. */
  function NextStep<V>(pc: Pc<V>, inner: SF.Pc<Loaded<V>>, t: nat): Event<V> {
    match pc
    case Loading(_, fn) =>
      (match inner
       case Entering(_) => Protocol(SF.Enter(t))
       case Running(_, _) =>
         (match fn
          case AtPeer => Peer(t, NoPeer)
          case AtGetter => Getter(t)
          case AtPopulate(_) => Populate(t)
          case AtEnd(_) => FnReturns(t))
       case Storing(_, _, _) => Protocol(SF.SetsResult(t))
       case Stored(_, _) => Protocol(SF.Signals(t))
       case Signalled(_, _) => Protocol(SF.Deletes(t))
       case Waiting(_, _) => Protocol(SF.Wakes(t))
       case _ => Returns(t))
    case _ => Lookup(t)
  }

  lemma CanMove<V>(cfg: Config<V>, s: State<V>, t: nat)
    requires Inv(cfg, s) && t < |s.threads| && Left(s.threads[t], s.sf.threads[t]) > 0
    requires s.sf.threads[t].Waiting? ==> SF.Enabled(s.sf, SF.Wakes(t))
    ensures var e := NextStep(s.threads[t], s.sf.threads[t], t); Enabled(cfg, s, e) && !e.Invoke?
  {
    assert ThreadOk(cfg, s, t) && SF.PlaceOk(s.sf, t);
    hide UniqueKeys, FromSource;
  }

  /** A goroutine that cannot wake waits for a leader that can move. */
  lemma LeaderIsAwake<V>(cfg: Config<V>, s: State<V>, t: nat) returns (l: nat)
    requires Inv(cfg, s) && t < |s.threads| && s.sf.threads[t].Waiting? && !SF.Enabled(s.sf, SF.Wakes(t))
    ensures l < |s.threads| && Left(s.threads[l], s.sf.threads[l]) > 0 && !s.sf.threads[l].Waiting?
  {
    assert SF.PlaceOk(s.sf, t);
    assert SF.CallOk(s.sf, s.sf.threads[t].call);
    l := s.sf.past[s.sf.threads[t].call].leader;
    assert ThreadOk(cfg, s, l);
    hide UniqueKeys, FromSource;
  }

  /** No deadlock: while a Get is under way, some goroutine can take a step of one. */
  lemma SomeGetCanMove<V>(cfg: Config<V>, s: State<V>) returns (e: Event<V>)
    requires Inv(cfg, s) && GetWork(s.threads, s.sf.threads) > 0
    ensures Enabled(cfg, s, e) && !e.Invoke?
  {
    var t := WorkIsSomewhere(s.threads, s.sf.threads);
    hide Inv, Enabled, Left;
    if s.sf.threads[t].Waiting? && !SF.Enabled(s.sf, SF.Wakes(t)) {
      t := LeaderIsAwake(cfg, s, t);
    }
    CanMove(cfg, s, t);
    e := NextStep(s.threads[t], s.sf.threads[t], t);
  }

  /** Whether each event of `fs` is enabled when its turn comes, and none starts a new Get. */
  ghost predicate Steps<V>(cfg: Config<V>, s: State<V>, fs: seq<Event<V>>)
    decreases |fs|
  {
    fs == [] || (Enabled(cfg, s, fs[0]) && !fs[0].Invoke? && Steps(cfg, Apply(cfg, s, fs[0]), fs[1..]))
  }

  ghost function Taken<V>(cfg: Config<V>, s: State<V>, fs: seq<Event<V>>): State<V>
    requires Steps(cfg, s, fs)
    decreases |fs|
  {
    if fs == [] then s else Taken(cfg, Apply(cfg, s, fs[0]), fs[1..])
  }

  lemma {:induction false} GetStepsAreBounded<V>(cfg: Config<V>, s: State<V>, fs: seq<Event<V>>)
    requires Inv(cfg, s) && Steps(cfg, s, fs)
    ensures Inv(cfg, Taken(cfg, s, fs)) && |Taken(cfg, s, fs).threads| == |Taken(cfg, s, fs).sf.threads|
    ensures GetWork(Taken(cfg, s, fs).threads, Taken(cfg, s, fs).sf.threads) + |fs| <= GetWork(s.threads, s.sf.threads)
    decreases |fs|
  {
    hide SF.Inv, Apply, Enabled, GetWork, UniqueKeys, FromSource, ThreadOk;
    if fs != [] {
      StepKeepsInv(cfg, s, fs[0]);
      StepsShrinkGetWork(cfg, s, fs[0]);
      GetStepsAreBounded(cfg, Apply(cfg, s, fs[0]), fs[1..]);
    }
  }

  /**
    Every finite set of Gets finishes if peers and getter always come back: from any reachable
    state there are at most so many further steps as there is work, and if they stop because nobody can
    move, then every Get has been answered.
   */
  lemma GetsFinish<V>(cfg: Config<V>, n: nat, es: seq<Event<V>>, fs: seq<Event<V>>)
    requires Steps(cfg, After(cfg, n, es), fs)
    ensures var s := After(cfg, n, es);
            && |s.threads| == |s.sf.threads| && |fs| <= GetWork(s.threads, s.sf.threads)
            && ((forall e :: Enabled(cfg, Taken(cfg, s, fs), e) ==> e.Invoke?) ==>
                  forall t :: 0 <= t < |Taken(cfg, s, fs).threads| ==>
                    Taken(cfg, s, fs).threads[t].Out? || Taken(cfg, s, fs).threads[t].Back?)
  {
    Reachable(cfg, n, es);
    hide Enabled, After, Steps, Taken, GetWork, SF.Inv;
    var s := After(cfg, n, es);
    GetStepsAreBounded(cfg, s, fs);
    var u := Taken(cfg, s, fs);
    if forall e :: Enabled(cfg, u, e) ==> e.Invoke? {
      if GetWork(u.threads, u.sf.threads) > 0 {
        var e := SomeGetCanMove(cfg, u);
        assert false;
      }
      forall t | 0 <= t < |u.threads| ensures u.threads[t].Out? || u.threads[t].Back? {
        NoWorkNowhere(u.threads, u.sf.threads, t);
      }
    }
  }
}
