/**
  Callers, deletions left behind by Get, and the cleanup worker, interleaved in any order
  under a clock that never goes back. Whatever is purged, no caller of Get can tell.
 */
module TtlLaws {
  import opened Prelude
  import opened TtlSpec
  import Ttl

  datatype Action =
    | Tick(d: nat)
    | Set(key: Str, value: Str, ttl: int)
    | Delete(key: Str)
    | Clear
    | Look(id: nat, key: Str)   // Get, under the read lock
    | Decide(id: nat)           // Get, after the lock: reads the clock
    | Purge(key: Str)           // a deletion left behind by Get
    | Sample                    // cleanup, before the lock: reads the clock
    | Sweep                     // cleanup, under the lock

  datatype Reader = Reader(key: Str, found: Option<TTLValue>)

  datatype Outcome = Outcome(id: nat, key: Str, value: Option<Str>)

  /** Callers in the middle of a Get, and the answers given so far. */
  datatype View = View(clock: int, entries: Entries, readers: map<nat, Reader>, outcomes: seq<Outcome>)

  predicate ClientEnabled(v: View, a: Action) {
    match a
    case Look(id, _) => id !in v.readers
    case Decide(id) => id in v.readers
    case _ => true
  }

  /** What the callers and the clock do; a cache that never purges does nothing else. */
  function ClientStep(v: View, a: Action): View
    requires ClientEnabled(v, a)
  {
    match a
    case Tick(d) => v.(clock := v.clock + d)
    case Set(key, value, ttl) => v.(entries := v.entries[key := TTLValue(value, v.clock + ttl)])
    case Delete(key) => v.(entries := v.entries - {key})
    case Clear => v.(entries := map[])
    case Look(id, key) => v.(readers := v.readers[id := Reader(key, Found(v.entries, key))])
    case Decide(id) =>
      var r := v.readers[id];
      v.(readers := v.readers - {id}, outcomes := v.outcomes + [Outcome(id, r.key, Verdict(r.found, v.clock))])
    case _ => v
  }

  /** The deletions not yet run, and the clock value of a cleanup under way. */
  datatype System = System(view: View, deletions: multiset<Str>, sampled: Option<int>)

  predicate Enabled(s: System, a: Action) {
    match a
    case Purge(key) => key in s.deletions
    case Sample => s.sampled.None?
    case Sweep => s.sampled.Some?
    case _ => ClientEnabled(s.view, a)
  }

  function Step(s: System, a: Action): System
    requires Enabled(s, a)
  {
    match a
    case Purge(key) =>
      s.(view := s.view.(entries := DeletedIfExpired(s.view.entries, key, s.view.clock)),
         deletions := s.deletions - multiset{key})
    case Sample => s.(sampled := Some(s.view.clock))
    case Sweep =>
      s.(view := s.view.(entries := Live(s.view.entries, s.sampled.value)), sampled := None)
    case Decide(id) =>
      var r := s.view.readers[id];
      s.(view := ClientStep(s.view, a),
         deletions := if Stale(r.found, s.view.clock) then s.deletions + multiset{r.key} else s.deletions)
    case _ => s.(view := ClientStep(s.view, a))
  }

  predicate Possible(s: System, actions: seq<Action>)
    decreases |actions|
  {
    actions == [] || (Enabled(s, actions[0]) && Possible(Step(s, actions[0]), actions[1..]))
  }

  function Run(s: System, actions: seq<Action>): System
    requires Possible(s, actions)
    decreases |actions|
  {
    if actions == [] then s else Run(Step(s, actions[0]), actions[1..])
  }

  predicate ClientPossible(v: View, actions: seq<Action>)
    decreases |actions|
  {
    actions == [] || (ClientEnabled(v, actions[0]) && ClientPossible(ClientStep(v, actions[0]), actions[1..]))
  }

  /** The same actions on a cache that never purges. */
  function IdealRun(v: View, actions: seq<Action>): View
    requires ClientPossible(v, actions)
    decreases |actions|
  {
    if actions == [] then v else IdealRun(ClientStep(v, actions[0]), actions[1..])
  }

  function Empty(clock: int): View {
    View(clock, map[], map[], [])
  }

  function Start(clock: int): System {
    System(Empty(clock), multiset{}, None)
  }

  // ---- the simulation -------------------------------------------------------------------

  /** Entries only go missing once they are expired. */
  ghost predicate Covers(ideal: Entries, entries: Entries, clock: int) {
    && (forall k :: k in entries ==> k in ideal && ideal[k] == entries[k])
    && (forall k :: k in ideal && k !in entries ==> Expired(ideal[k], clock))
  }

  /** What a reader found differs only in an entry that is expired. */
  ghost predicate SameReader(ideal: Reader, r: Reader, clock: int) {
    && ideal.key == r.key
    && (ideal.found == r.found || (r.found.None? && Stale(ideal.found, clock)))
  }

  ghost predicate SameReaders(ideal: map<nat, Reader>, readers: map<nat, Reader>, clock: int) {
    && (forall id :: id in ideal <==> id in readers)
    && (forall id :: id in readers ==> SameReader(ideal[id], readers[id], clock))
  }

  ghost predicate Related(s: System, ideal: View) {
    && s.view.clock == ideal.clock
    && s.view.outcomes == ideal.outcomes
    && Covers(ideal.entries, s.view.entries, ideal.clock)
    && SameReaders(ideal.readers, s.view.readers, ideal.clock)
    && (s.sampled.Some? ==> s.sampled.value <= ideal.clock)
  }

  lemma StepKeepsRelated(s: System, ideal: View, a: Action)
    requires Related(s, ideal) && Enabled(s, a)
    ensures ClientEnabled(ideal, a)
    ensures Related(Step(s, a), ClientStep(ideal, a))
  {}

  lemma {:induction false} RunKeepsRelated(s: System, ideal: View, actions: seq<Action>)
    requires Related(s, ideal) && Possible(s, actions)
    ensures ClientPossible(ideal, actions)
    ensures Related(Run(s, actions), IdealRun(ideal, actions))
    decreases |actions|
  {
    hide Related, Step, ClientStep, Enabled, ClientEnabled;
    if actions != [] {
      StepKeepsRelated(s, ideal, actions[0]);
      RunKeepsRelated(Step(s, actions[0]), ClientStep(ideal, actions[0]), actions[1..]);
    }
  }

  /**
    In every interleaving each Get answers as if nothing were ever purged, and at any moment
    the unexpired entries are the same.
   */
  lemma PurgingIsInvisible(clock: int, actions: seq<Action>)
    requires Possible(Start(clock), actions)
    ensures ClientPossible(Empty(clock), actions)
    ensures Run(Start(clock), actions).view.outcomes == IdealRun(Empty(clock), actions).outcomes
    ensures var s := Run(Start(clock), actions).view;
            Live(s.entries, s.clock) == Live(IdealRun(Empty(clock), actions).entries, s.clock)
  {
    hide Run, IdealRun, Possible, ClientPossible;
    RunKeepsRelated(Start(clock), Empty(clock), actions);
    SameLive(Run(Start(clock), actions), IdealRun(Empty(clock), actions));
  }

  lemma SameLive(s: System, ideal: View)
    requires Related(s, ideal)
    ensures Live(s.view.entries, s.view.clock) == Live(ideal.entries, s.view.clock)
  {}

  // ---- an entry set again ----------------------------------------------------------------

  /** Does the action, asked for by a caller, end the entry stored under the key? */
  predicate Replaces(a: Action, key: Str) {
    match a
    case Set(k, _, _) => k == key
    case Delete(k) => k == key
    case Clear => true
    case _ => false
  }

  predicate Untouched(actions: seq<Action>, key: Str) {
    forall i :: 0 <= i < |actions| ==> !Replaces(actions[i], key)
  }

  lemma {:induction false} IdealKeeps(v: View, key: Str, actions: seq<Action>)
    requires key in v.entries && ClientPossible(v, actions) && Untouched(actions, key)
    ensures key in IdealRun(v, actions).entries
    ensures IdealRun(v, actions).entries[key] == v.entries[key]
    decreases |actions|
  {
    if actions != [] {
      assert !Replaces(actions[0], key);
      IdealKeeps(ClientStep(v, actions[0]), key, actions[1..]);
    }
  }

  /**
    Whatever deletions and cleanups are pending when a key is set, the new entry is there
    until a caller replaces it or its own time is over.
   */
  lemma SetEntrySurvives(clock: int, before: seq<Action>, key: Str, value: Str, ttl: int, after: seq<Action>)
    requires Possible(Start(clock), before)
    requires var s := Run(Start(clock), before);
             Possible(Step(s, Set(key, value, ttl)), after)
    requires Untouched(after, key)
    ensures var s := Run(Start(clock), before);
            var t := Run(Step(s, Set(key, value, ttl)), after).view;
            t.clock <= s.view.clock + ttl ==> Found(t.entries, key) == Some(TTLValue(value, s.view.clock + ttl))
  {
    var set_ := Set(key, value, ttl);
    RunKeepsRelated(Start(clock), Empty(clock), before);
    var s, v := Run(Start(clock), before), IdealRun(Empty(clock), before);
    hide Run, IdealRun, Possible, ClientPossible;
    StepKeepsRelated(s, v, set_);
    RunKeepsRelated(Step(s, set_), ClientStep(v, set_), after);
    IdealKeeps(ClientStep(v, set_), key, after);
  }

  lemma OneMore(s: System, a: Action, rest: seq<Action>)
    requires Enabled(s, a) && Possible(Step(s, a), rest)
    ensures Possible(s, [a] + rest) && Run(s, [a] + rest) == Run(Step(s, a), rest)
  {
    assert ([a] + rest)[1..] == rest;
  }

  /** The hazard is real: a deletion may be pending for a key whose entry is alive again. */
  lemma LateDeletionMeetsNewEntry(key: Str, value: Str) returns (actions: seq<Action>)
    ensures Possible(Start(0), actions)
    ensures var s := Run(Start(0), actions);
            key in s.deletions && key in Live(s.view.entries, s.view.clock)
  {
    var s0 := Start(0);
    var s1 := Step(s0, Set(key, value, 0));
    var s2 := Step(s1, Tick(1));
    var s3 := Step(s2, Look(0, key));
    var s4 := Step(s3, Decide(0));
    var s5 := Step(s4, Set(key, value, 1));
    assert key in s5.deletions && key in Live(s5.view.entries, s5.view.clock);
    actions := [];
    assert Run(s5, actions) == s5;
    OneMore(s4, Set(key, value, 1), actions);
    actions := [Set(key, value, 1)] + actions;
    OneMore(s3, Decide(0), actions);
    actions := [Decide(0)] + actions;
    OneMore(s2, Look(0, key), actions);
    actions := [Look(0, key)] + actions;
    OneMore(s1, Tick(1), actions);
    actions := [Tick(1)] + actions;
    OneMore(s0, Set(key, value, 0), actions);
    actions := [Set(key, value, 0)] + actions;
  }

  /** The class takes the steps of the system, one critical section each, and answers as the system does. */
  method Perform(cache: Ttl.TTLCache, s: System, a: Action)
    returns (found: Option<TTLValue>, answer: Option<Str>, delete: bool)
    requires Enabled(s, a) && cache.cache == s.view.entries
    modifies cache
    ensures cache.cache == Step(s, a).view.entries
    ensures a.Look? ==> Step(s, a).view.readers[a.id] == Reader(a.key, found)
    ensures a.Decide? ==>
              var key := s.view.readers[a.id].key;
              && Step(s, a).view.outcomes == s.view.outcomes + [Outcome(a.id, key, answer)]
              && Step(s, a).deletions == s.deletions + (if delete then multiset{key} else multiset{})
  {
    found, answer, delete := None, None, false;
    match a
    case Set(key, value, ttl) => cache.Set(key, value, ttl, s.view.clock);
    case Delete(key) => cache.Delete(key);
    case Clear => cache.Clear();
    case Look(_, key) => found := cache.Look(key);
    case Decide(id) =>
      var value, ok;
      value, ok, delete := cache.Judge(s.view.readers[id].found, s.view.clock);
      answer := if ok then Some(value) else None;
    case Purge(key) => cache.DeleteIfExpired(key, s.view.clock);
    case Sweep => cache.Cleanup(s.sampled.value);
    case _ =>
  }
}
