/**
  Several nodes, each with its own pool and its own main cache: a Get at one node, forwarded
  to the peer that its pool picks. When the pools hold the same peers, in whatever order,
  and no two peers share a point, one hop is all it takes.
 */
module Routing {
  import opened Prelude
  import opened LruSpec
  import opened SortedSeq
  import opened RingSpec
  import opened RingLaws
  import opened Group
  import opened HttpPool

  /** Each node's address, with the list it gave to its pool. */
  datatype Cluster = Cluster(cfg: RingSpec.Config, pools: map<Str, seq<Str>>)

  function RingOf(c: Cluster, node: Str): Ring
    requires node in c.pools
  {
    AddNodes(c.cfg, EMPTY, c.pools[node])
  }

  /** Where a node forwards a key to. */
  function Forward(c: Cluster, node: Str, key: Str): Option<Str>
    requires node in c.pools
  {
    Pick(c.cfg, RingOf(c, node), node, key)
  }

  /** Every pool lists the running nodes, itself among them, in an order of its own. */
  ghost predicate Agreed(c: Cluster) {
    && (forall m, n :: m in c.pools && n in c.pools ==> SameNodes(c.pools[m], c.pools[n]))
    && (forall n, p :: n in c.pools && p in c.pools[n] ==> p in c.pools)
  }

  /** No two nodes have the point that the key leads to. */
  ghost predicate Settled(c: Cluster, key: Str) {
    forall n :: n in c.pools ==> Uncontested(c.cfg, EMPTY, c.pools[n], c.cfg.hash(key))
  }

  /** Where no two nodes share a point at all, every key is settled. */
  lemma DisjointSettles(c: Cluster, key: Str)
    requires forall n :: n in c.pools ==> Disjoint(c.cfg, c.pools[n])
    ensures Settled(c, key)
  {
    hide AddNodes, Points;
  }

  /** The node that the pool of `node` sends the key to. */
  function Owner(c: Cluster, node: Str, key: Str): Str
    requires node in c.pools
  {
    Lookup(c.cfg, RingOf(c, node), key)
  }

  lemma SameOwner(c: Cluster, m: Str, n: Str, key: Str)
    requires Agreed(c) && Settled(c, key) && m in c.pools && n in c.pools
    ensures Owner(c, m, key) == Owner(c, n, key)
  {
    hide AddNodes, Uncontested;
    UncontestedOwner(c.cfg, EMPTY, c.pools[n], c.pools[m], c.cfg.hash(key));
  }

  /** Whoever is forwarded to is a running node that keeps the key to itself. */
  lemma OneHop(c: Cluster, node: Str, key: Str)
    requires Agreed(c) && Settled(c, key) && node in c.pools && Forward(c, node, key).Some?
    ensures var peer := Forward(c, node, key).value;
            && peer in c.pools
            && peer != node
            && peer == Owner(c, node, key)
            && Forward(c, peer, key) == None
  {
    hide AddNodes, Settled;
    OwnerIsAdded(c.cfg, c.pools[node], c.cfg.hash(key));
    SameOwner(c, node, Forward(c, node, key).value, key);
  }

  // ---- exactly when one hop is enough ---------------------------------------------------------

  /** A cluster of these nodes: each pool lists them all, in some order. */
  ghost predicate ClusterOf(c: Cluster, cfg: RingSpec.Config, nodes: seq<Str>) {
    && c.cfg == cfg
    && (forall n :: n in c.pools <==> n in nodes)
    && (forall n :: n in c.pools ==> SameNodes(c.pools[n], nodes))
  }

  ghost predicate ForwardsOnce(c: Cluster, key: Str) {
    forall n :: n in c.pools && Forward(c, n, key).Some? ==>
      Forward(c, n, key).value in c.pools && Forward(c, Forward(c, n, key).value, key) == None
  }

  /** What else can happen: two nodes with the point forward the key to each other, and neither ever answers. */
  lemma ContestedForwardsForever(cfg: RingSpec.Config, nodes: seq<Str>, key: Str)
    returns (c: Cluster, m: Str, n: Str)
    requires [] !in nodes && !Uncontested(cfg, EMPTY, nodes, cfg.hash(key))
    ensures ClusterOf(c, cfg, nodes) && m in c.pools && n in c.pools
    ensures Forward(c, m, key) == Some(n) && Forward(c, n, key) == Some(m)
  {
    hide AddNodes, Points, SameNodes, Successor, OwnerAt;
    var h := cfg.hash(key);
    var p := Successor(AddNodes(cfg, EMPTY, nodes).keys, h);
    m, n :| m in nodes && n in nodes && p in Points(cfg, m) && p in Points(cfg, n) && m != n;
    var i :| 0 <= i < |nodes| && nodes[i] == m;
    var j :| 0 <= j < |nodes| && nodes[j] == n;
    WinnerOwns(cfg, EMPTY, nodes, i, p, h);
    WinnerOwns(cfg, EMPTY, nodes, j, p, h);
    hide MoveLast;
    c := Cluster(cfg, map x | x in nodes :: if x == m then MoveLast(nodes, j) else MoveLast(nodes, i));
  }

  /** One hop is enough whatever the orders of the pools exactly if no two nodes have the point of the key. */
  lemma OneHopIff(cfg: RingSpec.Config, nodes: seq<Str>, key: Str)
    requires [] !in nodes
    ensures (forall c :: ClusterOf(c, cfg, nodes) ==> ForwardsOnce(c, key))
            <==> Uncontested(cfg, EMPTY, nodes, cfg.hash(key))
  {
    hide Forward, Uncontested;
    if Uncontested(cfg, EMPTY, nodes, cfg.hash(key)) {
      forall c | ClusterOf(c, cfg, nodes) ensures ForwardsOnce(c, key) {
        ClusterIsAgreed(c, cfg, nodes, key);
        forall n | n in c.pools && Forward(c, n, key).Some?
          ensures Forward(c, n, key).value in c.pools && Forward(c, Forward(c, n, key).value, key) == None
        {
          OneHop(c, n, key);
        }
      }
    } else {
      var c, m, n := ContestedForwardsForever(cfg, nodes, key);
      assert !ForwardsOnce(c, key);
    }
  }

  lemma ClusterIsAgreed(c: Cluster, cfg: RingSpec.Config, nodes: seq<Str>, key: Str)
    requires ClusterOf(c, cfg, nodes) && Uncontested(cfg, EMPTY, nodes, cfg.hash(key))
    ensures Agreed(c) && Settled(c, key)
  {
    hide Uncontested;
    forall n | n in c.pools ensures Uncontested(c.cfg, EMPTY, c.pools[n], c.cfg.hash(key)) {
      StaysUncontested(cfg, EMPTY, nodes, c.pools[n], cfg.hash(key));
    }
    forall n, p | n in c.pools && p in c.pools[n] ensures p in c.pools {
      SameMembers(c.pools[n], nodes);
    }
  }

  lemma StaysUncontested(cfg: RingSpec.Config, ring: Ring, nodes: seq<Str>, a: seq<Str>, h: int)
    requires Uncontested(cfg, ring, nodes, h) && SameNodes(a, nodes)
    ensures Uncontested(cfg, ring, a, h)
  {
    hide AddNodes, Points, Successor;
    KeysIgnoreOrder(cfg, ring, a, nodes);
    SameMembers(a, nodes);
    hide SameNodes;
  }

  // ---- a Get across nodes -----------------------------------------------------------------

  /** The main caches' recency orders, by node. */
  type Caches<V> = map<Str, seq<Item<V>>>

  datatype Answer<V> = Answer(caches: Caches<V>, reply: Reply<V>)

  /** What asking the peer came to, given its own reply: an error comes back as an error status. */
  function Fetched<V>(r: Reply<V>): PeerReply<V> {
    match r
    case Ok(v) => PeerValue(v)
    case _ => PeerFailed
  }

  /**
    A Get at a node while the nodes in `down` cannot be reached. That this ends, with no
    bound on the number of hops in the code, is what one hop is for.
   */
  ghost function GetAt<V>(c: Cluster, len: V -> int, max: int, source: Source<V>, down: set<Str>,
                          caches: Caches<V>, node: Str, key: Str): Answer<V>
    requires Agreed(c) && Settled(c, key) && node in c.pools && caches.Keys == c.pools.Keys
    ensures GetAt(c, len, max, source, down, caches, node, key).caches.Keys == c.pools.Keys
    decreases if Forward(c, node, key) == None then 0 else 1
  {
    hide Agreed, Settled, Forward, Local, Find;
    if key == [] || Find(caches[node], key).Some? || Forward(c, node, key) == None then
      Local(len, max, source, caches, node, key, NoPeer)
    else
      var peer := Peer(c, node, key);
      if peer in down then
        Local(len, max, source, caches, node, key, PeerFailed)
      else
        var a := GetAt(c, len, max, source, down, caches, peer, key);
        Local(len, max, source, a.caches, node, key, Fetched(a.reply))
  }

  /** Whom the node asks. */
  ghost function Peer(c: Cluster, node: Str, key: Str): (peer: Str)
    requires Agreed(c) && Settled(c, key) && node in c.pools && Forward(c, node, key) != None
    ensures Forward(c, node, key) == Some(peer)
    ensures peer in c.pools && Forward(c, peer, key) == None
  {
    OneHop(c, node, key);
    Forward(c, node, key).value
  }

  /** The node's own part of it. */
  function Local<V>(len: V -> int, max: int, source: Source<V>, caches: Caches<V>, node: Str, key: Str,
                    peer: PeerReply<V>): (a: Answer<V>)
    requires node in caches
    ensures a.caches.Keys == caches.Keys
  {
    Answer(caches[node := GetItems(len, max, source, caches[node], key, peer)],
           GetReply(source, caches[node], key, peer))
  }

  /** No cache is touched but those of the node asked and of the node that it forwards to. */
  lemma OthersUntouched<V>(c: Cluster, len: V -> int, max: int, source: Source<V>, down: set<Str>,
                           caches: Caches<V>, node: Str, key: Str, other: Str)
    requires Agreed(c) && Settled(c, key) && node in c.pools && caches.Keys == c.pools.Keys
    requires other in caches && other != node && Forward(c, node, key) != Some(other)
    ensures GetAt(c, len, max, source, down, caches, node, key).caches[other] == caches[other]
  {
    hide Forward, Agreed, Settled, GetItems, GetReply;
    if Forward(c, node, key).Some? {
      OneHop(c, node, key);
    }
  }

  /** Every cache holds values of the source, each key once, within the budget. */
  ghost predicate Right<V>(len: V -> int, max: int, source: Source<V>, caches: Caches<V>) {
    forall n :: n in caches ==>
      UniqueKeys(caches[n]) && FromSource(source, caches[n]) && Fits(len, max, caches[n])
  }

  /** No node caches what another one owns. */
  ghost predicate OnlyAtOwner<V>(c: Cluster, caches: Caches<V>)
    requires caches.Keys == c.pools.Keys
  {
    forall n, x :: n in caches && x in caches[n] ==> Forward(c, n, x.key) == None
  }

  lemma LocalStaysRight<V>(len: V -> int, max: int, source: Source<V>, caches: Caches<V>, node: Str, key: Str,
                           peer: PeerReply<V>)
    requires max >= 0 && node in caches && Right(len, max, source, caches) && Honest(source, key, peer)
    ensures var a := Local(len, max, source, caches, node, key, peer);
            && Right(len, max, source, a.caches)
            && a.reply == Expected(source, key)
            && a.caches.Keys == caches.Keys
            && (forall n :: n in caches && n != node ==> a.caches[n] == caches[n])
            && (forall x :: x in a.caches[node] && x !in caches[node] ==>
                  x.key == key && key != [] && Find(caches[node], key) == None && source(key).Some? && !peer.PeerValue?)
  {
    hide GetItems, GetReply, UniqueKeys, FromSource, Fits;
    GetStaysRight(len, max, source, caches[node], key, peer);
  }

  /** What was not cached before has this key. */
  ghost predicate OnlyNew<V>(before: Caches<V>, after: Caches<V>, key: Str) {
    forall n, x :: n in before && n in after && x in after[n] && x !in before[n] ==> x.key == key
  }

  /** Whatever is down, a Get at any node replies what the source says, and keeps every cache right. */
  lemma GetAtRepliesTheSources<V>(c: Cluster, len: V -> int, max: int, source: Source<V>, down: set<Str>,
                                  caches: Caches<V>, node: Str, key: Str)
    requires Agreed(c) && Settled(c, key) && node in c.pools && caches.Keys == c.pools.Keys && max >= 0
    requires Right(len, max, source, caches)
    ensures var a := GetAt(c, len, max, source, down, caches, node, key);
            && Right(len, max, source, a.caches) && a.reply == Expected(source, key)
            && OnlyNew(caches, a.caches, key)
    decreases if Forward(c, node, key) == None then 0 else 1
  {
    hide Local, Forward, Agreed, Settled, Right;
    if key == [] || Find(caches[node], key).Some? || Forward(c, node, key) == None {
      LocalStaysRight(len, max, source, caches, node, key, NoPeer);
    } else {
      OneHop(c, node, key);
      var peer := Forward(c, node, key).value;
      if peer in down {
        LocalStaysRight(len, max, source, caches, node, key, PeerFailed);
      } else {
        var a := GetAt(c, len, max, source, down, caches, peer, key);
        GetAtRepliesTheSources(c, len, max, source, down, caches, peer, key);
        LocalStaysRight(len, max, source, a.caches, node, key, Fetched(a.reply));
      }
    }
  }

  // ---- where keys are cached ---------------------------------------------------------------

  /** The owner is down, and the node asked stands in for it with a value that it can cache. */
  predicate StandsIn<V>(c: Cluster, len: V -> int, max: int, source: Source<V>, down: set<Str>,
                        caches: Caches<V>, node: Str, key: Str)
    requires node in c.pools && node in caches
  {
    && key != [] && Find(caches[node], key) == None
    && Forward(c, node, key).Some? && Forward(c, node, key).value in down
    && source(key).Some? && Fits(len, max, [Item(key, source(key).value)])
  }

  /** What a node adds to its cache while it keeps the others' items as they are. */
  lemma StaysAtOwner<V>(c: Cluster, caches: Caches<V>, after: Caches<V>, node: Str, key: Str)
    requires caches.Keys == c.pools.Keys == after.Keys && node in c.pools
    requires OnlyAtOwner(c, caches)
    requires forall n :: n in caches && n != node ==> after[n] == caches[n]
    requires forall x :: x in after[node] && x !in caches[node] ==> x.key == key && Forward(c, node, key) == None
    ensures OnlyAtOwner(c, after)
  {}

  /** What is new after an Add is there just when it fits the budget alone. */
  lemma AddedIff<V(!new)>(len: V -> int, max: int, xs: seq<Item<V>>, key: Str, value: V)
    requires max >= 0 && UniqueKeys(xs) && Find(xs, key) == None && forall v: V :: len(v) >= 0
    ensures var ys := LruSpec.Add(len, max, xs, key, value);
            Item(key, value) in ys <==> Fits(len, max, [Item(key, value)])
  {
    var item, full := Item(key, value), Put(xs, key, value);
    var ys := LruSpec.Add(len, max, xs, key, value);
    TrimLongestFittingPrefix(len, max, full);
    assert full[..1] == [item];
    if ys != [] {
      assert ys[0] == full[0] == item;
      BytesConcat(len, [item], ys[1..]);
      assert ys == [item] + ys[1..];
      BytesNonNegative(len, ys[1..]);
    }
  }

  /** A Get leaves each key cached only where it is owned, unless a node stands in for the owner. */
  lemma OnlyAtOwnerIff<V(!new)>(c: Cluster, len: V -> int, max: int, source: Source<V>, down: set<Str>,
                          caches: Caches<V>, node: Str, key: Str)
    requires Agreed(c) && Settled(c, key) && node in c.pools && caches.Keys == c.pools.Keys && max >= 0
    requires forall v: V :: len(v) >= 0
    requires Right(len, max, source, caches) && OnlyAtOwner(c, caches)
    ensures var a := GetAt(c, len, max, source, down, caches, node, key);
            OnlyAtOwner(c, a.caches) <==> !StandsIn(c, len, max, source, down, caches, node, key)
    decreases if Forward(c, node, key) == None then 0 else 1
  {
    hide Local, Forward, Agreed, Settled, Right, OnlyAtOwner, Fits;
    if key == [] || Find(caches[node], key).Some? || Forward(c, node, key) == None {
      LocalStaysRight(len, max, source, caches, node, key, NoPeer);
      StaysAtOwner(c, caches, Local(len, max, source, caches, node, key, NoPeer).caches, node, key);
    } else {
      OneHop(c, node, key);
      var peer := Forward(c, node, key).value;
      if peer in down {
        StandInCaches(c, len, max, source, caches, node, key);
      } else {
        var a := GetAt(c, len, max, source, down, caches, peer, key);
        GetAtRepliesTheSources(c, len, max, source, down, caches, peer, key);
        OnlyAtOwnerIff(c, len, max, source, down, caches, peer, key);
        LocalStaysRight(len, max, source, a.caches, node, key, Fetched(a.reply));
        StaysAtOwner(c, a.caches, Local(len, max, source, a.caches, node, key, Fetched(a.reply)).caches, node, key);
      }
    }
  }

  lemma StandInCaches<V(!new)>(c: Cluster, len: V -> int, max: int, source: Source<V>, caches: Caches<V>,
                                node: Str, key: Str)
    requires node in c.pools && caches.Keys == c.pools.Keys && max >= 0
    requires forall v: V :: len(v) >= 0
    requires Right(len, max, source, caches) && OnlyAtOwner(c, caches)
    requires key != [] && Find(caches[node], key) == None && Forward(c, node, key).Some?
    ensures var after := Local(len, max, source, caches, node, key, PeerFailed).caches;
            && after.Keys == c.pools.Keys
            && (OnlyAtOwner(c, after) <==> !(source(key).Some? && Fits(len, max, [Item(key, source(key).value)])))
  {
    hide Forward, UniqueKeys, Fits, FromSource, LruSpec.Add;
    LocalStaysRight(len, max, source, caches, node, key, PeerFailed);
    var after := Local(len, max, source, caches, node, key, PeerFailed).caches;
    if source(key).None? {
      StaysAtOwner(c, caches, after, node, key);
    } else {
      var item := Item(key, source(key).value);
      AddedIff(len, max, caches[node], key, item.value);
      if item !in after[node] {
        NothingNew(source, after[node], caches[node], item);
        StaysAtOwner(c, caches, after, node, key);
      }
    }
  }

  /** Under one key the source has one value. */
  lemma NothingNew<V>(source: Source<V>, after: seq<Item<V>>, before: seq<Item<V>>, item: Item<V>)
    requires FromSource(source, after) && source(item.key) == Some(item.value) && item !in after
    requires forall x :: x in after && x !in before ==> x.key == item.key
    ensures forall x :: x in after ==> x in before
  {
    forall x | x in after ensures x in before {
      assert x.key == item.key ==> Some(x.value) == Some(item.value);
    }
  }

  // ---- a whole run -----------------------------------------------------------------------

  datatype Request = Request(node: Str, key: Str, down: set<Str>)

  /** Only settled keys are cached anywhere. */
  ghost predicate AllSettled<V>(c: Cluster, caches: Caches<V>) {
    forall n, x :: n in caches && x in caches[n] ==> Settled(c, x.key)
  }

  lemma StaysSettled<V>(c: Cluster, before: Caches<V>, after: Caches<V>, key: Str)
    requires AllSettled(c, before) && OnlyNew(before, after, key) && Settled(c, key) && after.Keys == before.Keys
    ensures AllSettled(c, after)
  {
    hide Settled;
  }

  ghost predicate Sensible(c: Cluster, requests: seq<Request>) {
    forall r :: r in requests ==> r.node in c.pools && Settled(c, r.key)
  }

  /** The caches after the requests, one after the other, from empty caches. */
  ghost function Serve<V>(c: Cluster, len: V -> int, max: int, source: Source<V>, requests: seq<Request>)
    : (caches: Caches<V>)
    requires Agreed(c) && Sensible(c, requests)
    ensures caches.Keys == c.pools.Keys
  {
    if requests == [] then map n | n in c.pools :: []
    else
      var r := requests[|requests| - 1];
      GetAt(c, len, max, source, r.down, Serve(c, len, max, source, requests[..|requests| - 1]), r.node, r.key).caches
  }

  /** No request goes to an owner that is down at the time. */
  ghost predicate OwnersUp(c: Cluster, requests: seq<Request>)
    requires Sensible(c, requests)
  {
    forall r :: r in requests ==>
      Forward(c, r.node, r.key) == None || Forward(c, r.node, r.key).value !in r.down
  }

  lemma LastRequest(c: Cluster, requests: seq<Request>)
    requires requests != [] && Sensible(c, requests)
    ensures var before, r := requests[..|requests| - 1], requests[|requests| - 1];
            && Sensible(c, before) && r.node in c.pools && Settled(c, r.key)
            && (OwnersUp(c, requests) ==>
                  OwnersUp(c, before)
                  && (Forward(c, r.node, r.key) == None || Forward(c, r.node, r.key).value !in r.down))
  {
    hide Settled, Forward;
    var before, r := requests[..|requests| - 1], requests[|requests| - 1];
    assert r in requests && forall q :: q in before ==> q in requests;
  }

  lemma {:induction false} ServeKeepsRight<V(!new)>(c: Cluster, len: V -> int, max: int, source: Source<V>,
                                                    requests: seq<Request>)
    requires Agreed(c) && Sensible(c, requests) && max >= 0 && forall v: V :: len(v) >= 0
    ensures Right(len, max, source, Serve(c, len, max, source, requests))
    ensures AllSettled(c, Serve(c, len, max, source, requests))
    ensures OwnersUp(c, requests) ==> OnlyAtOwner(c, Serve(c, len, max, source, requests))
  {
    if requests != [] {
      LastRequest(c, requests);
      hide Sensible, OwnersUp;
      hide GetAt, Agreed, Settled, AllSettled, OnlyNew, Right, OnlyAtOwner, Forward;
      var before, r := requests[..|requests| - 1], requests[|requests| - 1];
      var caches := Serve(c, len, max, source, before);
      ServeKeepsRight(c, len, max, source, before);
      GetAtRepliesTheSources(c, len, max, source, r.down, caches, r.node, r.key);
      StaysSettled(c, caches, Serve(c, len, max, source, requests), r.key);
      if OwnersUp(c, requests) {
        OnlyAtOwnerIff(c, len, max, source, r.down, caches, r.node, r.key);
      }
    }
  }

  /**
    After any requests at any nodes, under any failures, the next Get replies what the source
    says; and if no owner was down when asked, no key that has an owner is cached at two nodes.
   */
  lemma TheClusterIsOneCache<V(!new)>(c: Cluster, len: V -> int, max: int, source: Source<V>, requests: seq<Request>,
                                next: Request)
    requires Agreed(c) && Sensible(c, requests) && max >= 0
    requires next.node in c.pools && Settled(c, next.key)
    requires forall v: V :: len(v) >= 0
    ensures GetAt(c, len, max, source, next.down, Serve(c, len, max, source, requests), next.node, next.key).reply
            == Expected(source, next.key)
    ensures var caches := Serve(c, len, max, source, requests);
            OwnersUp(c, requests) ==>
              forall m, n, key ::
                (m in caches && n in caches && HasKey(caches[m], key) && HasKey(caches[n], key) && Owner(c, m, key) != [])
                ==> m == n
  {
    hide GetAt;
    var caches := Serve(c, len, max, source, requests);
    ServeKeepsRight(c, len, max, source, requests);
    GetAtRepliesTheSources(c, len, max, source, next.down, caches, next.node, next.key);
    forall m, n, key | OwnersUp(c, requests) && m in caches && n in caches && HasKey(caches[m], key)
      && HasKey(caches[n], key) && Owner(c, m, key) != []
      ensures m == n
    {
      assert Settled(c, key) by {
        var i :| 0 <= i < |caches[m]| && caches[m][i].key == key;
        assert caches[m][i] in caches[m];
      }
      SameOwner(c, m, n, key);
      CachedHere(c, caches, m, key);
      CachedHere(c, caches, n, key);
    }
  }

  lemma CachedHere<V>(c: Cluster, caches: Caches<V>, node: Str, key: Str)
    requires caches.Keys == c.pools.Keys && OnlyAtOwner(c, caches) && node in caches && HasKey(caches[node], key)
    ensures Owner(c, node, key) == node || Owner(c, node, key) == []
  {
    var i :| 0 <= i < |caches[node]| && caches[node][i].key == key;
    assert caches[node][i] in caches[node];
  }
}
