/** consistenthash.Map: the sorted slice of points and the map from points to nodes, edited together. */
module ConsistentHash {
  import opened Prelude
  import opened Labels
  import opened SortedSeq
  import opened RingSpec
  import opened RingLaws

  class Map {
    const hash: Hash
    const replicas: int
    var keys: seq<int>
    var hashMap: map<int, Str>
    var weights: map<Str, int>

    function Cfg(): Config
      reads this
    {
      Config(hash, replicas, weights)
    }

    function View(): Ring
      reads this
    {
      Ring(keys, hashMap)
    }

    ghost predicate Valid()
      reads this
    {
      Sorted(keys) && InCircle(keys)
    }

    /** New, with the weights of NewWithWeight. */
    constructor (replicas: int, hash: Hash, weights: map<Str, int>)
      ensures Valid() && View() == EMPTY && Cfg() == Config(hash, replicas, weights)
    {
      this.hash := hash;
      this.replicas := replicas;
      this.weights := weights;
      keys := [];
      hashMap := map[];
    }

    method ReplicasOf(node: Str) returns (n: int)
      ensures n == Replicas(Cfg(), node)
    {
      var weight := if node in weights then weights[node] else 0;
      if weight <= 0 {
        weight := 1;
      }
      n := replicas * weight;
    }

    method Add(nodes: seq<Str>)
      requires Valid()
      modifies this`keys, this`hashMap
      ensures Valid()
      ensures View() == AddNodes(Cfg(), old(View()), nodes)
    {
      hide Points, Claim;
      for j := 0 to |nodes|
        invariant View() == Gather(Cfg(), old(View()), nodes[..j])
      {
        assert nodes[..j + 1][..j] == nodes[..j];
        Append(nodes[j]);
      }
      assert nodes[..|nodes|] == nodes;
      keys := Sort(keys);
      AddStaysInCircle(Cfg(), old(View()), nodes);
    }

    /** The inner loop of Add: all points of one node, not yet sorted in. */
    method Append(node: Str)
      modifies this`keys, this`hashMap
      ensures keys == old(keys) + Points(Cfg(), node)
      ensures hashMap == Claim(old(hashMap), Points(Cfg(), node), node)
    {
      var n := ReplicasOf(node);
      hide Claim;
      NoPoints(Cfg(), old(hashMap), node);
      var i := 0;
      while i < n
        invariant 0 <= i && (n >= 0 ==> i <= n) && (n < 0 ==> i == 0)
        invariant keys == old(keys) + PointsUpTo(Cfg(), node, i)
        invariant hashMap == Claim(old(hashMap), PointsUpTo(Cfg(), node, i), node)
      {
        var p := hash(Label(i, node));
        OnePointMore(Cfg(), old(hashMap), node, i);
        keys := keys + [p];
        hashMap := hashMap[p := node];
        i := i + 1;
      }
    }

    method Remove(nodes: seq<Str>)
      requires Valid()
      modifies this`keys, this`hashMap
      ensures Valid()
      ensures View() == RemoveNodes(Cfg(), old(View()), nodes)
    {
      hide Points, DropPoints;
      for j := 0 to |nodes|
        invariant Valid()
        invariant View() == RemoveNodes(Cfg(), old(View()), nodes[..j])
      {
        assert nodes[..j + 1][..j] == nodes[..j];
        RemoveOne(nodes[j]);
      }
      assert nodes[..|nodes|] == nodes;
    }

    /** The inner loop of Remove. */
    method RemoveOne(node: Str)
      requires Valid()
      modifies this`keys, this`hashMap
      ensures Valid()
      ensures View() == RemoveNode(Cfg(), old(View()), node)
    {
      hide DropPoint;
      var n := ReplicasOf(node);
      var i := 0;
      while i < n
        invariant 0 <= i && (n >= 0 ==> i <= n) && (n < 0 ==> i == 0)
        invariant Valid()
        invariant View() == DropPoints(old(View()), PointsUpTo(Cfg(), node, i))
      {
        var p := hash(Label(i, node));
        ghost var ps := PointsUpTo(Cfg(), node, i);
        assert (ps + [p])[..i] == ps;
        DropOne(p);
        i := i + 1;
      }
    }

    /** One point: one of its copies goes from the slice, but its whole entry from the map. */
    method DropOne(p: int)
      requires Valid()
      modifies this`keys, this`hashMap
      ensures Valid()
      ensures View() == DropPoint(old(View()), p)
    {
      hide Sorted, InCircle, Search;
      DropStaysValid(View(), p);
      var idx := BinarySearch(keys, p);
      if idx < |keys| && keys[idx] == p {
        keys := keys[..idx] + keys[idx + 1..];
        hashMap := hashMap - {p};
      }
    }

    method Get(key: Str) returns (node: Str)
      requires Valid()
      ensures node == Lookup(Cfg(), View(), key)
      ensures keys == [] ==> node == []
      ensures forall p :: Nearest(keys, hash(key), p) ==> node == if p in hashMap then hashMap[p] else []
    {
      NearestOwner(View(), hash(key));
      if |keys| == 0 {
        return [];
      }
      var h := hash(key);
      var idx := BinarySearch(keys, h);
      if idx >= |keys| {
        idx := 0;
      }
      node := At(hashMap, keys[idx]);
    }

    method GetMultiple(key: Str, count: int) returns (result: seq<Str>)
      requires Valid()
      ensures result == Several(View(), hash(key), count)
    {
      result := [];
      if |keys| == 0 || count <= 0 {
        return;
      }
      hide Firsts, Walk, Sorted, InCircle;
      var h := hash(key);
      var idx := BinarySearch(keys, h);
      ghost var w := Walk(View(), h);
      FirstsOfNone(w);
      var seen: set<Str> := {};
      var i := 0;
      while i < |keys| && |result| < count
        invariant 0 <= i <= |keys|
        invariant result == Firsts(w[..i]) && |result| <= count
        invariant forall x :: x in seen <==> x in result
      {
        var node := NodeAt(idx, i, h);
        FirstsOneMore(w, i);
        if node !in seen {
          seen := seen + {node};
          result := result + [node];
        }
        i := i + 1;
      }
      FirstsCut(w, i, count);
    }

    /** The i-th node on the way, around the end of the slice if need be. */
    method NodeAt(idx: nat, i: nat, ghost h: int) returns (node: Str)
      requires i < |keys| && idx == Search(keys, h)
      ensures node == Walk(View(), h)[i]
    {
      var curIdx := (idx + i) % |keys|;
      node := At(hashMap, keys[curIdx]);
    }

    method GetNodeCount() returns (n: nat)
      ensures n == |hashMap.Values|
    {
      var nodes := ValuesOf(hashMap);
      n := |nodes|;
    }
  }

  /** The loop over the map in GetNodeCount. */
  method ValuesOf<K(==), V(==)>(m: map<K, V>) returns (values: set<V>)
    ensures values == m.Values
  {
    values := {};
    var left := m.Keys;
    while left != {}
      invariant left <= m.Keys
      invariant values == set k | k in m && k !in left :: m[k]
      decreases left
    {
      var k :| k in left;
      values := values + {m[k]};
      left := left - {k};
    }
  }

  /** The owner of a place is that of the nearest point clockwise. */
  lemma NearestOwner(ring: Ring, h: int)
    requires Sorted(ring.keys) && InCircle(ring.keys) && 0 <= h < CIRCLE
    ensures ring.keys == [] ==> OwnerAt(ring, h) == []
    ensures forall p :: Nearest(ring.keys, h, p) ==> OwnerAt(ring, h) == if p in ring.owners then ring.owners[p] else []
  {
    hide Sorted, Successor;
    if ring.keys != [] {
      SuccessorIsNearest(ring.keys, h);
      forall p | Nearest(ring.keys, h, p) ensures p == Successor(ring.keys, h) {
        NearestUnique(ring.keys, h, p, Successor(ring.keys, h));
      }
    }
  }

  lemma NoPoints(cfg: Config, owners: map<int, Str>, node: Str)
    ensures PointsUpTo(cfg, node, 0) == [] && Claim(owners, [], node) == owners
  {}

  /** One turn of the inner loop of Add. */
  lemma OnePointMore(cfg: Config, owners: map<int, Str>, node: Str, i: nat)
    ensures var p := cfg.hash(Label(i, node));
            && PointsUpTo(cfg, node, i + 1) == PointsUpTo(cfg, node, i) + [p]
            && Claim(owners, PointsUpTo(cfg, node, i + 1), node) == Claim(owners, PointsUpTo(cfg, node, i), node)[p := node]
  {
    var ps, p := PointsUpTo(cfg, node, i), cfg.hash(Label(i, node));
    assert (ps + [p])[..|ps + [p]| - 1] == ps;
  }

  lemma FirstsOfNone(w: seq<Str>)
    ensures Firsts(w[..0]) == []
  {}

  lemma FirstsOneMore(w: seq<Str>, i: nat)
    requires i < |w|
    ensures Firsts(w[..i + 1]) == Firsts(w[..i]) + if w[i] in Firsts(w[..i]) then [] else [w[i]]
  {
    assert w[..i + 1][..i] == w[..i];
  }

  /** Stopping early is cutting off: the loop ends at the end of the walk or with enough results. */
  lemma FirstsCut(w: seq<Str>, i: nat, count: nat)
    requires i <= |w| && |Firsts(w[..i])| <= count && (i == |w| || |Firsts(w[..i])| == count)
    ensures Firsts(w[..i]) == if count <= |Firsts(w)| then Firsts(w)[..count] else Firsts(w)
  {
    FirstsPrefix(w, i);
    if i == |w| {
      assert w[..i] == w;
    }
  }

  lemma AddStaysInCircle(cfg: Config, ring: Ring, nodes: seq<Str>)
    requires InCircle(ring.keys)
    ensures InCircle(AddNodes(cfg, ring, nodes).keys)
  {
    forall p | p in AddNodes(cfg, ring, nodes).keys ensures 0 <= p < CIRCLE {
      SortKeeps(Gather(cfg, ring, nodes).keys, p);
      GatherMeaning(cfg, ring, nodes, p);
    }
  }

  lemma RemoveAtMembers(s: seq<int>, i: nat)
    requires i < |s|
    ensures forall q :: q in RemoveAt(s, i) ==> q in s
  {}

  lemma DropStaysValid(ring: Ring, p: int)
    requires Sorted(ring.keys) && InCircle(ring.keys)
    ensures Sorted(DropPoint(ring, p).keys) && InCircle(DropPoint(ring, p).keys)
  {
    DropOneMeaning(ring, p, p);
    SearchFinds(ring.keys, p);
    if p in ring.keys {
      RemoveAtMembers(ring.keys, Search(ring.keys, p));
    }
  }
}
