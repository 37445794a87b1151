/**
  What the consistent-hash ring means, on values, for an arbitrary hash function.
  ConsistentHash.dfy is proved against these functions; why a ring is used at all is
  proved here and in RingRemoval.dfy: who owns what, and how little changes when nodes come and go.
 */
module RingSpec {
  import opened Prelude
  import opened Labels
  import opened SortedSeq

  const CIRCLE: int := 0x1_0000_0000

  type Point = x: int | 0 <= x < CIRCLE
  type Hash = Str -> Point

  datatype Config = Config(hash: Hash, replicas: int, weights: map<Str, int>)

  /** The sorted virtual nodes, with repetitions, and the node that each stands for. */
  datatype Ring = Ring(keys: seq<int>, owners: map<int, Str>)

  const EMPTY := Ring([], map[])

  /** The weight of a node: 1 unless a positive one is set. */
  function Weight(cfg: Config, node: Str): int {
    if node in cfg.weights && cfg.weights[node] > 0 then cfg.weights[node] else 1
  }

  function Replicas(cfg: Config, node: Str): int {
    cfg.replicas * Weight(cfg, node)
  }

  /** The first `n` points of a node, in the order in which the code computes them. */
  function PointsUpTo(cfg: Config, node: Str, n: nat): (ps: seq<int>)
    ensures |ps| == n && forall p :: p in ps ==> 0 <= p < CIRCLE
  {
    if n == 0 then [] else PointsUpTo(cfg, node, n - 1) + [cfg.hash(Label(n - 1, node))]
  }

  function Points(cfg: Config, node: Str): (ps: seq<int>)
    ensures forall p :: p in ps ==> 0 <= p < CIRCLE
  {
    PointsUpTo(cfg, node, if Replicas(cfg, node) < 0 then 0 else Replicas(cfg, node))
  }

  // ---- who owns a place on the circle ---------------------------------------------------

  function At(owners: map<int, Str>, p: int): Str {
    if p in owners then owners[p] else []
  }

  /** The first point at or after `h`, or else the first of all. */
  function Successor(keys: seq<int>, h: int): int
    requires keys != []
  {
    keys[if Search(keys, h) < |keys| then Search(keys, h) else 0]
  }

  function OwnerAt(ring: Ring, h: int): Str {
    if ring.keys == [] then [] else At(ring.owners, Successor(ring.keys, h))
  }

  /** Map.Get */
  function Lookup(cfg: Config, ring: Ring, key: Str): Str {
    OwnerAt(ring, cfg.hash(key))
  }

  ghost predicate InCircle(keys: seq<int>) {
    forall p :: p in keys ==> 0 <= p < CIRCLE
  }

  /** The two structures agree: each point has an owner, each owner's point is there. */
  ghost predicate WellFormed(ring: Ring) {
    Sorted(ring.keys) && InCircle(ring.keys) && forall p :: p in ring.keys <==> p in ring.owners
  }

  /** How far it is from `h` clockwise to `p`. */
  function Clockwise(h: int, p: int): int {
    if p >= h then p - h else p - h + CIRCLE
  }

  ghost predicate Nearest(keys: seq<int>, h: int, p: int) {
    p in keys && forall q :: q in keys ==> Clockwise(h, p) <= Clockwise(h, q)
  }

  /** Binary search with wrap-around finds the point nearest clockwise. */
  lemma SuccessorIsNearest(keys: seq<int>, h: int)
    requires Sorted(keys) && InCircle(keys) && keys != [] && 0 <= h < CIRCLE
    ensures Nearest(keys, h, Successor(keys, h))
  {
    var i, p := Search(keys, h), Successor(keys, h);
    assert keys[0] in keys;
    assert p in keys;
    forall q | q in keys ensures Clockwise(h, p) <= Clockwise(h, q) {
      var j :| 0 <= j < |keys| && keys[j] == q;
      if i < |keys| && j >= i {
        assert keys[i] <= keys[j];
      } else if i == |keys| {
        assert keys[0] <= keys[j];
      }
    }
  }

  lemma NearestUnique(keys: seq<int>, h: int, p: int, q: int)
    requires InCircle(keys) && Nearest(keys, h, p) && Nearest(keys, h, q)
    ensures p == q
  {}

  /** A point that is nearest among some points is nearest among any part of them that has it. */
  lemma NearestAmongFewer(keys: seq<int>, fewer: seq<int>, h: int)
    requires Sorted(keys) && InCircle(keys) && Sorted(fewer) && InCircle(fewer) && 0 <= h < CIRCLE
    requires keys != [] && forall p :: p in fewer ==> p in keys
    requires Successor(keys, h) in fewer
    ensures Successor(fewer, h) == Successor(keys, h)
  {
    SuccessorIsNearest(keys, h);
    SuccessorIsNearest(fewer, h);
    NearestUnique(fewer, h, Successor(fewer, h), Successor(keys, h));
  }

  // ---- adding ---------------------------------------------------------------------------

  /** The map after `node` has written itself at each of `ps`. */
  function Claim(owners: map<int, Str>, ps: seq<int>, node: Str): map<int, Str> {
    if ps == [] then owners else Claim(owners, ps[..|ps| - 1], node)[ps[|ps| - 1] := node]
  }

  /** All nodes appended, before the sort. */
  function Gather(cfg: Config, ring: Ring, nodes: seq<Str>): Ring {
    if nodes == [] then ring
    else
      var r := Gather(cfg, ring, nodes[..|nodes| - 1]);
      var node := nodes[|nodes| - 1];
      Ring(r.keys + Points(cfg, node), Claim(r.owners, Points(cfg, node), node))
  }

  /** Map.Add */
  function AddNodes(cfg: Config, ring: Ring, nodes: seq<Str>): Ring {
    var r := Gather(cfg, ring, nodes);
    Ring(Sort(r.keys), r.owners)
  }

  lemma {:induction false} ClaimMeaning(owners: map<int, Str>, ps: seq<int>, node: Str, p: int)
    ensures p in Claim(owners, ps, node) <==> p in ps || p in owners
    ensures p in ps ==> Claim(owners, ps, node)[p] == node
    ensures p !in ps && p in owners ==> Claim(owners, ps, node)[p] == owners[p]
  {
    if ps != [] {
      ClaimMeaning(owners, ps[..|ps| - 1], node, p);
      assert ps == ps[..|ps| - 1] + [ps[|ps| - 1]];
    }
  }

  /** Some node of `nodes` has `p` among its points. */
  ghost predicate Claimed(cfg: Config, nodes: seq<Str>, p: int) {
    exists n :: n in nodes && p in Points(cfg, n)
  }

  lemma {:induction false} GatherMeaning(cfg: Config, ring: Ring, nodes: seq<Str>, p: int)
    ensures p in Gather(cfg, ring, nodes).keys <==> p in ring.keys || Claimed(cfg, nodes, p)
    ensures p in Gather(cfg, ring, nodes).owners <==> p in ring.owners || Claimed(cfg, nodes, p)
    ensures Claimed(cfg, nodes, p) ==>
              var n := Gather(cfg, ring, nodes).owners[p]; n in nodes && p in Points(cfg, n)
    ensures !Claimed(cfg, nodes, p) && p in ring.owners ==> Gather(cfg, ring, nodes).owners[p] == ring.owners[p]
  {
    if nodes != [] {
      var before, node := nodes[..|nodes| - 1], nodes[|nodes| - 1];
      GatherMeaning(cfg, ring, before, p);
      ClaimMeaning(Gather(cfg, ring, before).owners, Points(cfg, node), node, p);
      assert nodes == before + [node];
      if Claimed(cfg, before, p) {
        var n :| n in before && p in Points(cfg, n);
        assert n in nodes;
      }
    }
  }

  lemma SortKeeps(s: seq<int>, p: int)
    ensures p in Sort(s) <==> p in s
  {
    assert p in multiset(Sort(s)) <==> p in multiset(s);
  }

  /** Adding keeps the ring well formed, whatever the hash and whatever collides. */
  lemma AddKeepsWellFormed(cfg: Config, ring: Ring, nodes: seq<Str>)
    requires WellFormed(ring)
    ensures WellFormed(AddNodes(cfg, ring, nodes))
  {
    var r, r' := Gather(cfg, ring, nodes), AddNodes(cfg, ring, nodes);
    forall p ensures p in r'.keys <==> p in r'.owners {
      SortKeeps(r.keys, p);
      GatherMeaning(cfg, ring, nodes, p);
    }
    forall p | p in r'.keys ensures 0 <= p < CIRCLE {
      SortKeeps(r.keys, p);
      GatherMeaning(cfg, ring, nodes, p);
    }
  }

  /**
    Minimal disruption: for any hash, even one that collides, adding nodes moves a
    place on the circle to one of them or leaves it with its owner.
   */
  lemma AddMovesOnlyToNew(cfg: Config, ring: Ring, nodes: seq<Str>, h: int)
    requires WellFormed(ring) && 0 <= h < CIRCLE
    ensures var o := OwnerAt(AddNodes(cfg, ring, nodes), h);
            o in nodes || o == OwnerAt(ring, h)
  {
    var r, ring' := Gather(cfg, ring, nodes), AddNodes(cfg, ring, nodes);
    AddKeepsWellFormed(cfg, ring, nodes);
    if ring'.keys != [] {
      var p := Successor(ring'.keys, h);
      SuccessorIsNearest(ring'.keys, h);
      SortKeeps(r.keys, p);
      GatherMeaning(cfg, ring, nodes, p);
      if !Claimed(cfg, nodes, p) {
        forall q | q in ring.keys ensures q in ring'.keys {
          SortKeeps(r.keys, q);
          GatherMeaning(cfg, ring, nodes, q);
        }
        NearestAmongFewer(ring'.keys, ring.keys, h);
      }
    } else if ring.keys != [] {
      SortKeeps(r.keys, ring.keys[0]);
      GatherMeaning(cfg, ring, nodes, ring.keys[0]);
    }
  }

  // ---- removing -------------------------------------------------------------------------

  /** One turn of the loop in Map.Remove: one occurrence of the point goes, and the whole map entry. */
  function DropPoint(ring: Ring, p: int): Ring {
    var i := Search(ring.keys, p);
    if i < |ring.keys| && ring.keys[i] == p then Ring(RemoveAt(ring.keys, i), ring.owners - {p}) else ring
  }

  function DropPoints(ring: Ring, ps: seq<int>): Ring {
    if ps == [] then ring else DropPoint(DropPoints(ring, ps[..|ps| - 1]), ps[|ps| - 1])
  }

  function RemoveNode(cfg: Config, ring: Ring, node: Str): Ring {
    DropPoints(ring, Points(cfg, node))
  }

  /** Map.Remove */
  function RemoveNodes(cfg: Config, ring: Ring, nodes: seq<Str>): Ring {
    if nodes == [] then ring
    else RemoveNode(cfg, RemoveNodes(cfg, ring, nodes[..|nodes| - 1]), nodes[|nodes| - 1])
  }

  /** What one turn does to the number of copies of a point and to its owner. */
  lemma DropOneMeaning(ring: Ring, p: int, q: int)
    requires Sorted(ring.keys)
    ensures var r := DropPoint(ring, p);
            && Sorted(r.keys)
            && Count(r.keys, q) == (if q == p && p in ring.keys then Count(ring.keys, q) - 1 else Count(ring.keys, q))
            && (q in r.owners <==> q in ring.owners && !(q == p && p in ring.keys))
            && (q in r.owners ==> r.owners[q] == ring.owners[q])
  {
    SearchFinds(ring.keys, p);
    if p in ring.keys {
      RemoveAtMeaning(ring.keys, Search(ring.keys, p));
      CountMeaning(ring.keys, p);
    }
  }

  /** What the whole loop does: copies are subtracted one for one, and map entries go if their point was there. */
  lemma {:induction false} DropMeaning(ring: Ring, ps: seq<int>, q: int)
    requires Sorted(ring.keys)
    ensures var r := DropPoints(ring, ps);
            && Sorted(r.keys)
            && Count(r.keys, q) == (if Count(ring.keys, q) > Count(ps, q) then Count(ring.keys, q) - Count(ps, q) else 0)
            && (q in r.owners <==> q in ring.owners && !(q in ps && q in ring.keys))
            && (q in r.owners ==> r.owners[q] == ring.owners[q])
  {
    if ps != [] {
      hide Count, DropPoint, Search, PointsUpTo;
      var before, p := ps[..|ps| - 1], ps[|ps| - 1];
      DropMeaning(ring, before, q);
      DropOneMeaning(DropPoints(ring, before), p, q);
      CountsOfLast(ps, q);
      CountMeaning(DropPoints(ring, before).keys, q);
      CountMeaning(ring.keys, q);
      CountMeaning(before, q);
    }
  }

  lemma CountsOfLast(ps: seq<int>, q: int)
    requires ps != []
    ensures var before, p := ps[..|ps| - 1], ps[|ps| - 1];
            && Count(ps, q) == Count(before, q) + (if q == p then 1 else 0)
            && (q in ps <==> q in before || q == p)
  {
    CountAppend(ps[..|ps| - 1], ps[|ps| - 1], q);
    assert ps == ps[..|ps| - 1] + [ps[|ps| - 1]];
  }

  lemma SameMap<K(!new), V>(a: map<K, V>, b: map<K, V>)
    requires forall p :: p in a ==> p in b && a[p] == b[p]
    requires forall p :: p in b ==> p in a
    ensures a == b
  {}
}
