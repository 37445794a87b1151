/** HTTPPool.Set and PickPeer of http.go: which peer, if any, a key is asked of. */
module HttpPool {
  import opened Prelude
  import opened RingSpec
  import opened RingLaws
  import opened ConsistentHash
  import Crc32

  const DEFAULT_REPLICAS := 50

  const BASE_PATH: Str := [0x2F, 0x5F, 0x67, 0x6F, 0x63, 0x61, 0x63, 0x68, 0x65]  // "/_gocache"

  lemma BasePathText()
    ensures Spells(BASE_PATH, "/_gocache")
  {}

  /** The hash that consistenthash.New takes when it is given none. */
  function Ieee(s: Str): Point {
    Crc32.Checksum(s) as int
  }

  /** CRC-32, summed from nothing: the sum of s continued with t is that of both. */
  lemma IeeeMeaning(s: Str, t: Str)
    ensures Ieee([]) == 0
    ensures Crc32.Update(Ieee(s) as bv32, t) == Ieee(s + t) as bv32
  {
    Crc32.EmptyChecksum();
    Crc32.UpdateConcat(s, t);
    IntoAndOut(Crc32.Checksum(s));
    IntoAndOut(Crc32.Checksum(s + t));
    hide Crc32.Update, Crc32.Checksum;
  }

  lemma IntoAndOut(c: bv32)
    ensures (c as int) as bv32 == c
  {}

  const POOL_CONFIG: RingSpec.Config := Config(Ieee, DEFAULT_REPLICAS, map[])

  /** The node to ask for the key; none when that is this node itself, or nobody. */
  function Pick(cfg: RingSpec.Config, ring: Ring, self: Str, key: Str): Option<Str> {
    var peer := Lookup(cfg, ring, key);
    if peer != [] && peer != self then Some(peer) else None
  }

  lemma OwnerIsAdded(cfg: RingSpec.Config, nodes: seq<Str>, h: int)
    requires 0 <= h < CIRCLE
    ensures var o := OwnerAt(AddNodes(cfg, EMPTY, nodes), h); o == [] || o in nodes
  {
    AddMovesOnlyToNew(cfg, EMPTY, nodes, h);
  }

  /** Each peer, named once or more often, has 50 points each time. */
  lemma PoolCount(nodes: seq<Str>)
    ensures |AddNodes(POOL_CONFIG, EMPTY, nodes).keys| == 50 * |nodes|
  {
    forall n | n in nodes ensures |Points(POOL_CONFIG, n)| == 50 {
      PointsMeaning(POOL_CONFIG, n);
    }
    AllPointsCount(POOL_CONFIG, nodes, 50);
    AddCount(POOL_CONFIG, EMPTY, nodes);
    hide Points, AddNodes, AllPoints;
  }

  class HTTPPool {
    const self: Str
    const basePath: Str
    var peers: Map?
    var httpGetters: map<Str, Str>  // the base URL of each peer's client

    /** The ring is the one of the peers that have a client. */
    ghost predicate Valid()
      reads this, peers
    {
      peers != null ==>
        && peers.Valid()
        && peers.Cfg() == POOL_CONFIG
        && forall h :: 0 <= h < CIRCLE ==> OwnerAt(peers.View(), h) == [] || OwnerAt(peers.View(), h) in httpGetters
    }

    constructor (self: Str)
      ensures Valid() && this.self == self && basePath == BASE_PATH && Spells(basePath, "/_gocache") && peers == null
    {
      this.self := self;
      basePath := BASE_PATH;
      peers := null;
      httpGetters := map[];
    }

    /** Replaces the ring and the clients; what was set before leaves no trace. */
    method Set(nodes: seq<Str>)
      modifies this
      ensures Valid() && peers != null && fresh(peers)
      ensures peers.View() == AddNodes(POOL_CONFIG, EMPTY, nodes)
      ensures |peers.keys| == 50 * |nodes|
      ensures forall p :: p in httpGetters <==> p in nodes
      ensures forall p :: p in nodes ==> httpGetters[p] == p + basePath
    {
      hide AddNodes;
      peers := new Map(DEFAULT_REPLICAS, Ieee, map[]);
      peers.Add(nodes);
      httpGetters := map[];
      for j := 0 to |nodes|
        invariant peers != null && fresh(peers) && peers.Valid() && peers.Cfg() == POOL_CONFIG
        invariant peers.View() == AddNodes(POOL_CONFIG, EMPTY, nodes)
        invariant forall p :: p in httpGetters <==> p in nodes[..j]
        invariant forall p :: p in httpGetters ==> httpGetters[p] == p + basePath
      {
        httpGetters := httpGetters[nodes[j] := nodes[j] + basePath];
      }
      PoolCount(nodes);
      forall h | 0 <= h < CIRCLE
        ensures OwnerAt(peers.View(), h) == [] || OwnerAt(peers.View(), h) in httpGetters
      {
        OwnerIsAdded(POOL_CONFIG, nodes, h);
      }
    }

    /** Asking before any Set dereferences a nil ring in the source. */
    method PickPeer(key: Str) returns (baseURL: Option<Str>)
      requires Valid() && peers != null
      ensures var picked := Pick(POOL_CONFIG, peers.View(), self, key);
              && (picked == None ==> baseURL == None)
              && (picked.Some? ==> picked.value in httpGetters && baseURL == Some(httpGetters[picked.value]))
    {
      var peer := peers.Get(key);
      if peer != [] && peer != self {
        return Some(httpGetters[peer]);
      }
      return None;
    }
  }
}
