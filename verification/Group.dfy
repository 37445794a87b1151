/**
  Group.Get of the cache package as one caller sees it: the main cache, then a peer,
  then the getter. What several callers see is in GroupConcurrent.dfy.
 */
module Group {
  import opened Prelude
  import opened LruSpec
  import opened Lru

  /** What asking a peer comes to: the picker names none (or is nil), the fetch fails, or it returns a value. */
  datatype PeerReply<+V> = NoPeer | PeerFailed | PeerValue(value: V)

  /** NotFound is the branch of Group.load for a nil value without an error. */
  datatype Reply<+V> = Ok(value: V) | KeyRequired | LoadFailed | NotFound

  /** What a Get should reply, whatever is cached. */
  function Expected<V>(source: Source<V>, key: Str): Reply<V> {
    if key == [] then KeyRequired
    else match source(key)
      case None => LoadFailed
      case Some(v) => Ok(v)
  }

  /** The getter is deterministic: a partial function from keys to values, undefined where it returns an error. */
  type Source<!V> = Str -> Option<V>

  /** The recency order after one Get. Only a value that the own getter returned is stored. */
  function GetItems<V>(len: V -> int, max: int, source: Source<V>, xs: seq<Item<V>>, key: Str, peer: PeerReply<V>)
    : seq<Item<V>>
  {
    if key == [] then xs
    else if Find(xs, key).Some? then Touch(xs, key)
    else if peer.PeerValue? || source(key).None? then xs
    else LruSpec.Add(len, max, xs, key, source(key).value)
  }

  function GetReply<V>(source: Source<V>, xs: seq<Item<V>>, key: Str, peer: PeerReply<V>): Reply<V> {
    if key == [] then KeyRequired
    else match Find(xs, key)
      case Some(v) => Ok(v)
      case None =>
        if peer.PeerValue? then Ok(peer.value)
        else match source(key)
          case None => LoadFailed
          case Some(v) => Ok(v)
  }

  ghost predicate FromSource<V>(source: Source<V>, xs: seq<Item<V>>) {
    forall x :: x in xs ==> source(x.key) == Some(x.value)
  }

  /** A peer that answers with a value answers with the source's. */
  predicate Honest<V(==)>(source: Source<V>, key: Str, peer: PeerReply<V>) {
    peer.PeerValue? ==> source(key) == Some(peer.value)
  }

  /** One Get: what is cached stays right, and the reply is what the source says. */
  lemma GetStaysRight<V>(len: V -> int, max: int, source: Source<V>, xs: seq<Item<V>>, key: Str, peer: PeerReply<V>)
    requires max >= 0 && Honest(source, key, peer)
    requires UniqueKeys(xs) && FromSource(source, xs) && Fits(len, max, xs)
    ensures var ys := GetItems(len, max, source, xs, key, peer);
            && UniqueKeys(ys) && FromSource(source, ys) && Fits(len, max, ys)
            && forall y :: y in ys && y !in xs ==>
                 y.key == key && key != [] && Find(xs, key) == None && source(key).Some? && !peer.PeerValue?
    ensures GetReply(source, xs, key, peer) == Expected(source, key)
  {
    hide Fits, UniqueKeys, Touch, LruSpec.Add;
    FindMeaning(xs, key);
    TouchStays(len, max, xs, key);
    if source(key).Some? {
      AddStays(len, max, xs, key, source(key).value);
    }
  }

  lemma TouchStays<V>(len: V -> int, max: int, xs: seq<Item<V>>, key: Str)
    requires UniqueKeys(xs) && Fits(len, max, xs)
    ensures UniqueKeys(Touch(xs, key)) && Fits(len, max, Touch(xs, key))
    ensures forall y :: y in Touch(xs, key) ==> y in xs
  {
    hide Bytes;
    FindMeaning(xs, key);
    WithoutKeys(xs, key);
    TouchKeepsBytes(len, xs, key);
  }

  lemma AddStays<V>(len: V -> int, max: int, xs: seq<Item<V>>, key: Str, value: V)
    requires UniqueKeys(xs) && max >= 0
    ensures UniqueKeys(LruSpec.Add(len, max, xs, key, value)) && Fits(len, max, LruSpec.Add(len, max, xs, key, value))
    ensures forall y :: y in LruSpec.Add(len, max, xs, key, value) ==> y in xs || y == Item(key, value)
  {
    AddKeepsInvariant(len, max, xs, key, value);
    hide UniqueKeys, Fits, Trim;
    TrimLongestFittingPrefix(len, max, Put(xs, key, value));
    WithoutKeys(xs, key);
  }

  class Group<V> {
    const getter: Source<V>
    const mainCache: MainCache<V>

    ghost predicate Valid()
      reads this, mainCache, mainCache.Footprint()
    {
      mainCache.Valid() && mainCache.cacheBytes >= 0
    }

    constructor (cacheBytes: int, len: V -> int, getter: Source<V>)
      requires cacheBytes >= 0
      ensures Valid() && mainCache.Items() == [] && this.getter == getter
      ensures mainCache.len == len && mainCache.cacheBytes == cacheBytes
    {
      this.getter := getter;
      mainCache := new MainCache<V>(cacheBytes, len);
    }

    method Get(key: Str, peer: PeerReply<V>) returns (r: Reply<V>)
      requires Valid()
      modifies mainCache, mainCache.Owned()
      ensures Valid()
      ensures r == GetReply(getter, old(mainCache.Items()), key, peer)
      ensures mainCache.Items()
              == GetItems(mainCache.len, mainCache.cacheBytes, getter, old(mainCache.Items()), key, peer)
    {
      if key == [] {
        return KeyRequired;
      }
      var hit := mainCache.Get(key);
      if hit.Some? {
        return Ok(hit.value);
      }
      r := Load(key, peer);
    }

    /** The function that Group.load hands to singleflight. */
    method Load(key: Str, peer: PeerReply<V>) returns (r: Reply<V>)
      requires Valid() && key != [] && Find(mainCache.Items(), key) == None
      modifies mainCache, mainCache.Owned()
      ensures Valid()
      ensures r == GetReply(getter, old(mainCache.Items()), key, peer)
      ensures mainCache.Items()
              == GetItems(mainCache.len, mainCache.cacheBytes, getter, old(mainCache.Items()), key, peer)
    {
      if peer.PeerValue? {
        return Ok(peer.value);
      }
      r := GetLocally(key);
    }

    method GetLocally(key: Str) returns (r: Reply<V>)
      requires Valid()
      modifies mainCache, mainCache.Owned()
      ensures Valid()
      ensures r == match getter(key) case None => LoadFailed case Some(v) => Ok(v)
      ensures mainCache.Items() == match getter(key)
                case None => old(mainCache.Items())
                case Some(v) => LruSpec.Add(mainCache.len, mainCache.cacheBytes, old(mainCache.Items()), key, v)
    {
      var bytes := getter(key);
      if bytes.None? {
        return LoadFailed;
      }
      EvictionLoopStopsIff(mainCache.len, mainCache.cacheBytes, Put(mainCache.Items(), key, bytes.value));
      mainCache.Add(key, bytes.value);
      r := Ok(bytes.value);
    }
  }
}
