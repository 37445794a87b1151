/**
  The code of singleflight.Group in its own form: an object with a map of call
  objects that are filled in place. Each method is one atomic step of Singleflight.dfy
  and is proved to be exactly that step on what is shared.
 */
module SingleflightCode {
  import opened Prelude
  import SF = Singleflight

  class Call<R> {
    var pending: bool
    var result: Option<R>
    var dup: bool

    constructor ()
      ensures pending && result == None && !dup
    {
      pending := true;  // wg.Add(1)
      result := None;
      dup := false;
    }
  }

  lemma PutThenDelete<T>(m: map<Str, T>, key: Str, x: T)
    requires key !in m
    ensures m[key := x] - {key} == m
  {}

  class Group<R> {
    var m: map<Str, Call<R>>
    ghost var calls: seq<Call<R>>      // every call made, oldest first
    ghost var shared: SF.Shared<R>

    /** `shared` is what the objects hold, with calls named by their position in `calls`. */
    ghost predicate Valid()
      reads this, calls
    {
      && |shared.calls| == |calls|
      && (forall i, j :: 0 <= i < j < |calls| ==> calls[i] != calls[j])
      && (forall i :: 0 <= i < |calls| ==>
            shared.calls[i] == SF.Call(calls[i].pending, calls[i].result, calls[i].dup))
      && shared.m.Keys == m.Keys
      && (forall k :: k in m ==> shared.m[k] < |calls| && m[k] == calls[shared.m[k]])
    }

    constructor ()
      ensures Valid() && shared == SF.Shared(map[], []) && calls == []
    {
      m := map[];
      calls := [];
      shared := SF.Shared(map[], []);
    }

    /** Do up to its unlock: whether the caller leads, and the call it has. */
    method EnterDo(key: Str) returns (c: Call<R>, leads: bool)
      requires Valid()
      modifies this, calls
      ensures Valid() && old(calls) <= calls && fresh(set x | x in calls[|old(calls)|..])
      ensures shared == SF.EnterDo(old(shared), key)
      ensures leads <==> key !in old(m)
      ensures leads ==> m == old(m)[key := c] && calls == old(calls) + [c]
      ensures !leads ==> m == old(m) && calls == old(calls) && c == old(m)[key] && c.dup
      ensures leads ==> c.pending && c.result == None && !c.dup
      ensures var i := SF.CallOf(old(shared), key); i < |calls| && c == calls[i]
    {
      if key in m {
        c := m[key];
        c.dup := true;
        shared := SF.EnterDo(shared, key);
        return c, false;
      }
      c := new Call<R>();
      m := m[key := c];
      shared := SF.EnterDo(shared, key);
      calls := calls + [c];
      leads := true;
    }

    /** c.val, c.err = r */
    method SetResult(c: Call<R>, ghost i: nat, r: R)
      requires Valid() && i < |calls| && c == calls[i]
      modifies this`shared, c
      ensures Valid() && shared == SF.SetResult(old(shared), i, r)
      ensures c.result == Some(r)
    {
      c.result := Some(r);
      shared := SF.SetResult(shared, i, r);
    }

    /** c.wg.Done() */
    method Done(c: Call<R>, ghost i: nat)
      requires Valid() && i < |calls| && c == calls[i]
      modifies this`shared, c`pending
      ensures Valid() && shared == SF.Done(old(shared), i)
    {
      c.pending := false;
      shared := SF.Done(shared, i);
    }

    method Delete(key: Str)
      requires Valid()
      modifies this`shared, this`m
      ensures Valid() && shared == SF.Delete(old(shared), key)
      ensures m == old(m) - {key}
    {
      m := m - {key};
      shared := SF.Delete(shared, key);
    }

    /** doCall, when nobody is in between; `r` is what fn returns. */
    method DoCall(c: Call<R>, ghost i: nat, key: Str, r: R)
      requires Valid() && i < |calls| && c == calls[i]
      modifies this`shared, this`m, c
      ensures Valid() && m == old(m) - {key} && c.result == Some(r)
      ensures shared == SF.Delete(SF.Done(SF.SetResult(old(shared), i, r), i), key)
    {
      hide Valid, SF.SetResult, SF.Done, SF.Delete;
      SetResult(c, i, r);
      Done(c, i);
      Delete(key);
    }

    /** c.wg.Wait() has come to its end: what the waiter returns. */
    method Wake(c: Call<R>, ghost i: nat) returns (reply: Option<R>)
      requires Valid() && i < |calls| && c == calls[i] && !c.pending
      ensures reply == shared.calls[i].result
    {
      reply := c.result;
    }

    /**
      Do with nobody in between; `r` is what fn returns. With a call for the key in the map the caller
      marks it and waits, and Wake tells the rest; without one it gets r, and the map is as it was.
     */
    method Do(key: Str, r: R) returns (c: Call<R>, waits: bool, reply: Option<R>)
      requires Valid()
      modifies this, calls
      ensures Valid() && m == old(m)
      ensures waits <==> key in old(m)
      ensures waits ==> c == old(m)[key] && calls == old(calls) && shared == SF.EnterDo(old(shared), key)
      ensures !waits ==> reply == Some(r) && calls == old(calls) + [c]
    {
      hide Valid, SF.EnterDo, SF.SetResult, SF.Done, SF.Delete;
      ghost var i := |calls|;
      var leads;
      c, leads := EnterDo(key);
      if !leads {
        return c, true, None;
      }
      PutThenDelete(old(m), key, c);
      DoCall(c, i, key, r);
      return c, false, c.result;
    }
  }
}
