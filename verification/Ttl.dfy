/**
  The TTLCache of ttl.go. Each method is one critical section; the clock is a parameter, read
  where the source reads it. TtlLaws interleaves them.
 */
module Ttl {
  import opened Prelude
  import opened TtlSpec

  class TTLCache {
    var cache: Entries

    constructor ()
      ensures cache == map[]
    {
      cache := map[];
    }

    method Set(key: Str, value: Str, ttl: int, now: int)
      modifies this
      ensures cache == old(cache)[key := TTLValue(value, now + ttl)]
    {
      cache := cache[key := TTLValue(value, now + ttl)];
    }

    /** The part of Get under the read lock. */
    method Look(key: Str) returns (found: Option<TTLValue>)
      ensures found == Found(cache, key)
      ensures found.None? <==> key !in cache
      ensures found.Some? ==> found.value == cache[key]
    {
      found := None;
      if key in cache {
        found := Some(cache[key]);
      }
    }

    /** The part of Get behind the lock, at a later clock value; `delete` says whether it leaves a deletion behind. */
    method Judge(found: Option<TTLValue>, now: int) returns (value: Str, ok: bool, delete: bool)
      ensures (if ok then Some(value) else None) == Verdict(found, now)
      ensures delete == Stale(found, now)
      ensures !ok ==> value == []
    {
      if found.None? {
        return [], false, false;
      }
      if Expired(found.value, now) {
        return [], false, true;
      }
      return found.value.value, true, false;
    }

    /** Get without interference; `delete` says whether a deletion of the key is left behind. */
    method Get(key: Str, now: int) returns (value: Str, ok: bool, delete: bool)
      ensures ok == (key in Live(cache, now))
      ensures value == if ok then cache[key].value else []
      ensures delete == (key in cache && !ok)
    {
      var found := Look(key);
      value, ok, delete := Judge(found, now);
    }

    method DeleteIfExpired(key: Str, now: int)
      modifies this
      ensures cache == DeletedIfExpired(old(cache), key, now)
      ensures Live(cache, now) == Live(old(cache), now)
      ensures key in cache <==> key in Live(old(cache), now)
    {
      DeletedIfExpiredMeaning(cache, key, now);
      if key in cache && Expired(cache[key], now) {
        cache := cache - {key};
      }
    }

    /** `now` was sampled before the lock was taken. */
    method Cleanup(now: int)
      modifies this
      ensures cache == Live(old(cache), now)
      ensures forall k :: k in cache <==> k in old(cache) && now <= old(cache)[k].expiresAt
    {
      var left := cache.Keys;
      while left != {}
        invariant left <= cache.Keys <= old(cache).Keys
        invariant forall k :: k in old(cache) && k !in cache ==> Expired(old(cache)[k], now)
        invariant forall k :: k in cache ==> cache[k] == old(cache)[k]
        invariant forall k :: k in cache && k !in left ==> !Expired(cache[k], now)
        decreases |left|
      {
        var key :| key in left;
        left := left - {key};
        if Expired(cache[key], now) {
          cache := cache - {key};
        }
      }
    }

    method Delete(key: Str)
      modifies this
      ensures cache == old(cache) - {key}
    {
      cache := cache - {key};
    }

    method Clear()
      modifies this
      ensures cache == map[]
    {
      cache := map[];
    }

    /** Counts the expired entries that are still there, too. */
    method Len() returns (n: nat)
      ensures n == |cache|
      ensures forall now :: n >= |Live(cache, now)|
    {
      n := |cache|;
      forall now ensures |cache| >= |Live(cache, now)| {
        Fewer(Live(cache, now).Keys, cache.Keys);
        assert |Live(cache, now)| == |Live(cache, now).Keys| && |cache| == |cache.Keys|;
      }
    }
  }

  lemma {:induction false} Fewer(a: set<Str>, b: set<Str>)
    requires a <= b
    ensures |a| <= |b|
  {
    if x :| x in a {
      Fewer(a - {x}, b - {x});
    }
  }
}
