/**
  Further laws of the ring: the order and the batches in which nodes are added do
  not matter, as main needs when it takes them from a map; and what GetMultiple returns.
 */
module RingLaws {
  import opened Prelude
  import opened Labels
  import opened SortedSeq
  import opened RingSpec

  // ---- order and batches ------------------------------------------------------------------

  function AllPoints(cfg: Config, nodes: seq<Str>): seq<int> {
    if nodes == [] then [] else AllPoints(cfg, nodes[..|nodes| - 1]) + Points(cfg, nodes[|nodes| - 1])
  }

  function ClaimAll(cfg: Config, owners: map<int, Str>, nodes: seq<Str>): map<int, Str> {
    if nodes == [] then owners
    else Claim(ClaimAll(cfg, owners, nodes[..|nodes| - 1]), Points(cfg, nodes[|nodes| - 1]), nodes[|nodes| - 1])
  }

  lemma {:induction false} GatherSplits(cfg: Config, ring: Ring, nodes: seq<Str>)
    ensures Gather(cfg, ring, nodes) == Ring(ring.keys + AllPoints(cfg, nodes), ClaimAll(cfg, ring.owners, nodes))
  {
    if nodes == [] {
      assert ring.keys + [] == ring.keys;
    } else {
      hide Points, Claim;
      GatherSplits(cfg, ring, nodes[..|nodes| - 1]);
    }
  }

  lemma {:induction false} ClaimAllConcat(cfg: Config, owners: map<int, Str>, a: seq<Str>, b: seq<Str>)
    ensures ClaimAll(cfg, owners, a + b) == ClaimAll(cfg, ClaimAll(cfg, owners, a), b)
    ensures AllPoints(cfg, a + b) == AllPoints(cfg, a) + AllPoints(cfg, b)
  {
    hide Points, Claim;
    if b == [] {
      assert a + b == a;
    } else {
      ClaimAllConcat(cfg, owners, a, b[..|b| - 1]);
      LastOfConcat(a, b);
      Associative(AllPoints(cfg, a), AllPoints(cfg, b[..|b| - 1]), Points(cfg, b[|b| - 1]));
    }
  }

  lemma LastOfConcat<T>(a: seq<T>, b: seq<T>)
    requires b != []
    ensures a + b != [] && (a + b)[..|a + b| - 1] == a + b[..|b| - 1] && (a + b)[|a + b| - 1] == b[|b| - 1]
  {}

  /** Adding in batches is adding at once, for any hash. */
  lemma BatchesDoNotMatter(cfg: Config, ring: Ring, a: seq<Str>, b: seq<Str>)
    ensures AddNodes(cfg, AddNodes(cfg, ring, a), b) == AddNodes(cfg, ring, a + b)
  {
    hide Points, Claim, ClaimAll, AllPoints, Sort, Gather;
    var first := AddNodes(cfg, ring, a);
    GatherSplits(cfg, ring, a);
    GatherSplits(cfg, first, b);
    GatherSplits(cfg, ring, a + b);
    ClaimAllConcat(cfg, ring.owners, a, b);
    SortOfParts(ring.keys + AllPoints(cfg, a), AllPoints(cfg, b));
    Associative(ring.keys, AllPoints(cfg, a), AllPoints(cfg, b));
  }

  lemma Associative(s: seq<int>, t: seq<int>, u: seq<int>)
    ensures s + (t + u) == s + t + u
  {}

  lemma SortOfParts(s: seq<int>, t: seq<int>)
    ensures Sort(Sort(s) + t) == Sort(s + t)
  {
    SortedUnique(Sort(Sort(s) + t), Sort(s + t));
  }

  /** No two different nodes share a point. */
  ghost predicate Disjoint(cfg: Config, nodes: seq<Str>) {
    forall m, n, p :: m in nodes && n in nodes && p in Points(cfg, m) && p in Points(cfg, n) ==> m == n
  }

  ghost predicate SameNodes(a: seq<Str>, b: seq<Str>) {
    multiset(a) == multiset(b)
  }

  lemma {:induction false} CopiesIgnoreOrder(cfg: Config, a: seq<Str>, b: seq<Str>, p: int)
    requires SameNodes(a, b)
    ensures Count(AllPoints(cfg, a), p) == Count(AllPoints(cfg, b), p)
    decreases |a|
  {
    hide Points, Count;
    if a == [] {
      assert |multiset(b)| == |b|;
      assert b == [];
    } else {
      var x := a[|a| - 1];
      assert x in multiset(b);
      var i :| 0 <= i < |b| && b[i] == x;
      TakenOut(a, b, i);
      CopiesIgnoreOrder(cfg, a[..|a| - 1], b[..i] + b[i + 1..], p);
      CountConcat(AllPoints(cfg, a[..|a| - 1]), Points(cfg, x), p);
      CopiesSplit(cfg, b, i, p);
    }
  }

  lemma TakenOut(a: seq<Str>, b: seq<Str>, i: nat)
    requires SameNodes(a, b) && a != [] && i < |b| && b[i] == a[|a| - 1]
    ensures SameNodes(a[..|a| - 1], b[..i] + b[i + 1..])
  {
    assert a == a[..|a| - 1] + [a[|a| - 1]];
    assert b == b[..i] + [b[i]] + b[i + 1..];
    assert multiset(a[..|a| - 1]) == multiset(a) - multiset{b[i]};
    assert multiset(b[..i] + b[i + 1..]) == multiset(b) - multiset{b[i]};
  }

  lemma CopiesSplit(cfg: Config, b: seq<Str>, i: nat, p: int)
    requires i < |b|
    ensures Count(AllPoints(cfg, b), p) == Count(AllPoints(cfg, b[..i] + b[i + 1..]), p) + Count(Points(cfg, b[i]), p)
  {
    hide Points, Count;
    var none: map<int, Str> := map[];
    ClaimAllConcat(cfg, none, b[..i], b[i + 1..]);
    ClaimAllConcat(cfg, none, b[..i], [b[i]] + b[i + 1..]);
    ClaimAllConcat(cfg, none, [b[i]], b[i + 1..]);
    assert b == b[..i] + ([b[i]] + b[i + 1..]);
    PointsOfOne(cfg, b[i]);
    CountConcat(AllPoints(cfg, b[..i]), AllPoints(cfg, b[i + 1..]), p);
    CountConcat(AllPoints(cfg, b[..i]), AllPoints(cfg, [b[i]] + b[i + 1..]), p);
    CountConcat(Points(cfg, b[i]), AllPoints(cfg, b[i + 1..]), p);
  }

  lemma PointsOfOne(cfg: Config, node: Str)
    ensures AllPoints(cfg, [node]) == Points(cfg, node)
  {
    assert [node][..0] == [];
    assert AllPoints(cfg, [node][..0]) == [];
  }

  /** Whatever collides, the sorted points are the same for every order. */
  lemma KeysIgnoreOrder(cfg: Config, ring: Ring, a: seq<Str>, b: seq<Str>)
    requires SameNodes(a, b)
    ensures AddNodes(cfg, ring, a).keys == AddNodes(cfg, ring, b).keys
  {
    hide Count, Points;
    GatherSplits(cfg, ring, a);
    GatherSplits(cfg, ring, b);
    var x, y := ring.keys + AllPoints(cfg, a), ring.keys + AllPoints(cfg, b);
    forall p ensures Count(x, p) == Count(y, p) {
      CopiesIgnoreOrder(cfg, a, b, p);
      CountConcat(ring.keys, AllPoints(cfg, a), p);
      CountConcat(ring.keys, AllPoints(cfg, b), p);
    }
    SameCounts(x, y);
    SortedUnique(Sort(x), Sort(y));
  }

  lemma OwnersIgnoreOrder(cfg: Config, ring: Ring, a: seq<Str>, b: seq<Str>)
    requires SameNodes(a, b) && Disjoint(cfg, a)
    ensures AddNodes(cfg, ring, a).owners == AddNodes(cfg, ring, b).owners
  {
    var x, y := AddNodes(cfg, ring, a).owners, AddNodes(cfg, ring, b).owners;
    forall n ensures n in a <==> n in b {
      assert n in a <==> n in multiset(a);
      assert n in b <==> n in multiset(b);
    }
    forall p
      ensures p in x ==> p in y && x[p] == y[p]
      ensures p in y ==> p in x
    {
      GatherMeaning(cfg, ring, a, p);
      GatherMeaning(cfg, ring, b, p);
      assert Claimed(cfg, a, p) <==> Claimed(cfg, b, p);
    }
    SameMap(x, y);
  }

  /** nodes[i] is added last. */
  function MoveLast(nodes: seq<Str>, i: nat): seq<Str>
    requires i < |nodes|
  {
    nodes[..i] + nodes[i + 1..] + [nodes[i]]
  }

  lemma LastOneWins(cfg: Config, ring: Ring, nodes: seq<Str>, i: nat, p: int)
    requires i < |nodes| && p in Points(cfg, nodes[i])
    ensures SameNodes(MoveLast(nodes, i), nodes)
    ensures var r := AddNodes(cfg, ring, MoveLast(nodes, i)); p in r.owners && r.owners[p] == nodes[i]
  {
    assert nodes == nodes[..i] + [nodes[i]] + nodes[i + 1..];
    var moved := MoveLast(nodes, i);
    assert moved[..|moved| - 1] == nodes[..i] + nodes[i + 1..];
    ClaimMeaning(Gather(cfg, ring, moved[..|moved| - 1]).owners, Points(cfg, nodes[i]), nodes[i], p);
  }

  /**
    Order independence of the ring, exactly: all orders of adding some nodes give the same
    ring if and only if no two of them share a point.
   */
  lemma OrderDoesNotMatterIff(cfg: Config, ring: Ring, nodes: seq<Str>)
    ensures (forall a, b :: SameNodes(a, nodes) && SameNodes(b, nodes) ==>
               AddNodes(cfg, ring, a) == AddNodes(cfg, ring, b))
            <==> Disjoint(cfg, nodes)
  {
    hide AddNodes, Points;
    if Disjoint(cfg, nodes) {
      forall a, b | SameNodes(a, nodes) && SameNodes(b, nodes)
        ensures AddNodes(cfg, ring, a) == AddNodes(cfg, ring, b)
      {
        DisjointIgnoresOrder(cfg, nodes, a);
        KeysIgnoreOrder(cfg, ring, a, b);
        OwnersIgnoreOrder(cfg, ring, a, b);
      }
    } else {
      var m, n, p :| m in nodes && n in nodes && p in Points(cfg, m) && p in Points(cfg, n) && m != n;
      var i :| 0 <= i < |nodes| && nodes[i] == m;
      var j :| 0 <= j < |nodes| && nodes[j] == n;
      LastOneWins(cfg, ring, nodes, i, p);
      LastOneWins(cfg, ring, nodes, j, p);
      assert AddNodes(cfg, ring, MoveLast(nodes, i)) != AddNodes(cfg, ring, MoveLast(nodes, j));
    }
  }

  /** At most one of the nodes has the point that a place leads to. */
  ghost predicate Uncontested(cfg: Config, ring: Ring, nodes: seq<Str>, h: int) {
    var keys := AddNodes(cfg, ring, nodes).keys;
    keys == [] || HeldByOne(cfg, nodes, Successor(keys, h))
  }

  ghost predicate HeldByOne(cfg: Config, nodes: seq<Str>, p: int) {
    forall m, n :: m in nodes && n in nodes && p in Points(cfg, m) && p in Points(cfg, n) ==> m == n
  }

  lemma SameMembers(a: seq<Str>, b: seq<Str>)
    requires SameNodes(a, b)
    ensures forall n :: n in a <==> n in b
  {
    forall n ensures n in a <==> n in b {
      assert n in multiset(a) <==> n in multiset(b);
    }
  }

  /** Where one node at most has a point, every order gives it the same owner. */
  lemma PointIgnoresOrder(cfg: Config, ring: Ring, a: seq<Str>, b: seq<Str>, p: int)
    requires SameNodes(a, b) && HeldByOne(cfg, a, p)
    ensures At(AddNodes(cfg, ring, a).owners, p) == At(AddNodes(cfg, ring, b).owners, p)
  {
    hide Points, Gather, SameNodes;
    SameMembers(a, b);
    GatherMeaning(cfg, ring, a, p);
    GatherMeaning(cfg, ring, b, p);
    assert Claimed(cfg, a, p) <==> Claimed(cfg, b, p);
  }

  lemma WinnerOwns(cfg: Config, ring: Ring, nodes: seq<Str>, i: nat, p: int, h: int)
    requires i < |nodes| && p in Points(cfg, nodes[i])
    requires AddNodes(cfg, ring, nodes).keys != [] && p == Successor(AddNodes(cfg, ring, nodes).keys, h)
    ensures SameNodes(MoveLast(nodes, i), nodes)
    ensures OwnerAt(AddNodes(cfg, ring, MoveLast(nodes, i)), h) == nodes[i]
  {
    hide AddNodes, Points, SameNodes, MoveLast;
    LastOneWins(cfg, ring, nodes, i, p);
    KeysIgnoreOrder(cfg, ring, MoveLast(nodes, i), nodes);
  }

  ghost predicate PlaceIgnoresOrder(cfg: Config, ring: Ring, nodes: seq<Str>, h: int) {
    forall a, b :: SameNodes(a, nodes) && SameNodes(b, nodes) ==>
      OwnerAt(AddNodes(cfg, ring, a), h) == OwnerAt(AddNodes(cfg, ring, b), h)
  }

  /** Order independence place by place: all orders agree on an owner exactly where one node at most has the point. */
  lemma PlaceIgnoresOrderIff(cfg: Config, ring: Ring, nodes: seq<Str>, h: int)
    ensures PlaceIgnoresOrder(cfg, ring, nodes, h) <==> Uncontested(cfg, ring, nodes, h)
  {
    hide AddNodes, Points, SameNodes, Successor;
    if Uncontested(cfg, ring, nodes, h) {
      forall a, b | SameNodes(a, nodes) && SameNodes(b, nodes)
        ensures OwnerAt(AddNodes(cfg, ring, a), h) == OwnerAt(AddNodes(cfg, ring, b), h)
      {
        UncontestedOwner(cfg, ring, nodes, a, h);
        UncontestedOwner(cfg, ring, nodes, b, h);
      }
    } else {
      var p := Successor(AddNodes(cfg, ring, nodes).keys, h);
      var m, n :| m in nodes && n in nodes && p in Points(cfg, m) && p in Points(cfg, n) && m != n;
      var i :| 0 <= i < |nodes| && nodes[i] == m;
      var j :| 0 <= j < |nodes| && nodes[j] == n;
      WinnerOwns(cfg, ring, nodes, i, p, h);
      WinnerOwns(cfg, ring, nodes, j, p, h);
    }
  }

  lemma UncontestedOwner(cfg: Config, ring: Ring, nodes: seq<Str>, a: seq<Str>, h: int)
    requires Uncontested(cfg, ring, nodes, h) && SameNodes(a, nodes)
    ensures OwnerAt(AddNodes(cfg, ring, a), h) == OwnerAt(AddNodes(cfg, ring, nodes), h)
  {
    hide AddNodes, Successor, HeldByOne;
    KeysIgnoreOrder(cfg, ring, nodes, a);
    if AddNodes(cfg, ring, nodes).keys != [] {
      PointIgnoresOrder(cfg, ring, nodes, a, Successor(AddNodes(cfg, ring, nodes).keys, h));
    }
  }

  /** So all orders agree on the owner of every place exactly if no two nodes share a point. */
  lemma OwnersIgnoreOrderIff(cfg: Config, ring: Ring, nodes: seq<Str>)
    ensures (forall h :: 0 <= h < CIRCLE ==> PlaceIgnoresOrder(cfg, ring, nodes, h)) <==> Disjoint(cfg, nodes)
  {
    hide AddNodes, Points, PlaceIgnoresOrder;
    forall h ensures PlaceIgnoresOrder(cfg, ring, nodes, h) <==> Uncontested(cfg, ring, nodes, h) {
      PlaceIgnoresOrderIff(cfg, ring, nodes, h);
    }
    if forall h :: 0 <= h < CIRCLE ==> PlaceIgnoresOrder(cfg, ring, nodes, h) {
      forall m, n, p | m in nodes && n in nodes && p in Points(cfg, m) && p in Points(cfg, n) ensures m == n {
        PointLeadsToItself(cfg, ring, nodes, m, p);
        assert Uncontested(cfg, ring, nodes, p);
      }
    }
  }

  lemma PointLeadsToItself(cfg: Config, ring: Ring, nodes: seq<Str>, n: Str, p: int)
    requires n in nodes && p in Points(cfg, n)
    ensures 0 <= p < CIRCLE
    ensures var keys := AddNodes(cfg, ring, nodes).keys; keys != [] && Successor(keys, p) == p
  {
    var keys := AddNodes(cfg, ring, nodes).keys;
    GatherMeaning(cfg, ring, nodes, p);
    SortKeeps(Gather(cfg, ring, nodes).keys, p);
    hide Points;
    SearchFinds(keys, p);
  }

  lemma DisjointIgnoresOrder(cfg: Config, a: seq<Str>, b: seq<Str>)
    requires Disjoint(cfg, a) && SameNodes(b, a)
    ensures Disjoint(cfg, b)
  {
    hide Points;
    forall n ensures n in b ==> n in a {
      assert n in b ==> n in multiset(b);
    }
  }

  /** The hash does not collide on the labels of these nodes. */
  ghost predicate InjectiveOnLabels(cfg: Config, nodes: seq<Str>) {
    forall m, n, i: nat, j: nat ::
      (m in nodes && n in nodes && i < Replicas(cfg, m) && j < Replicas(cfg, n)
       && cfg.hash(Label(i, m)) == cfg.hash(Label(j, n)))
      ==> Label(i, m) == Label(j, n)
  }

  lemma {:induction false} PointHasLabel(cfg: Config, node: Str, n: nat, p: int) returns (i: nat)
    requires p in PointsUpTo(cfg, node, n)
    ensures i < n && p == cfg.hash(Label(i, node))
  {
    if p in PointsUpTo(cfg, node, n - 1) {
      i := PointHasLabel(cfg, node, n - 1, p);
    } else {
      i := n - 1;
    }
  }

  /** As labels name node and number without ambiguity, a hash without collisions on them keeps nodes apart. */
  lemma InjectiveHashKeepsApart(cfg: Config, nodes: seq<Str>)
    requires InjectiveOnLabels(cfg, nodes)
    ensures Disjoint(cfg, nodes)
  {
    forall m, n, p | m in nodes && n in nodes && p in Points(cfg, m) && p in Points(cfg, n) ensures m == n {
      var i := PointHasLabel(cfg, m, Replicas(cfg, m), p);
      var j := PointHasLabel(cfg, n, Replicas(cfg, n), p);
      LabelInjective(i, m, j, n);
    }
  }

  // ---- how many points, and which ------------------------------------------------------------

  lemma {:induction false} PointsUpToMeaning(cfg: Config, node: Str, n: nat, i: nat)
    requires i < n
    ensures PointsUpTo(cfg, node, n)[i] == cfg.hash(Label(i, node))
  {
    if i < n - 1 {
      PointsUpToMeaning(cfg, node, n - 1, i);
    }
  }

  /** A node's points are the hashes of its labels, as many as replicas times its weight; a weight is 1 unless set higher. */
  lemma PointsMeaning(cfg: Config, node: Str)
    ensures var weight := if node in cfg.weights && cfg.weights[node] >= 1 then cfg.weights[node] else 1;
            |Points(cfg, node)| == if cfg.replicas * weight < 0 then 0 else cfg.replicas * weight
    ensures forall i :: 0 <= i < |Points(cfg, node)| ==> Points(cfg, node)[i] == cfg.hash(Label(i, node))
  {
    forall i | 0 <= i < |Points(cfg, node)| ensures Points(cfg, node)[i] == cfg.hash(Label(i, node)) {
      PointsUpToMeaning(cfg, node, |Points(cfg, node)|, i);
    }
  }

  /** Adding nodes adds all their points to the slice, shared ones and those of repeated nodes as often as they occur. */
  lemma AddCount(cfg: Config, ring: Ring, nodes: seq<Str>)
    ensures |AddNodes(cfg, ring, nodes).keys| == |ring.keys| + |AllPoints(cfg, nodes)|
  {
    GatherSplits(cfg, ring, nodes);
    SameLength(Sort(ring.keys + AllPoints(cfg, nodes)), ring.keys + AllPoints(cfg, nodes));
  }

  lemma AddOneCount(cfg: Config, ring: Ring, node: Str)
    ensures var weight := if node in cfg.weights && cfg.weights[node] >= 1 then cfg.weights[node] else 1;
            |AddNodes(cfg, ring, [node]).keys|
            == |ring.keys| + if cfg.replicas * weight < 0 then 0 else cfg.replicas * weight
  {
    AddCount(cfg, ring, [node]);
    PointsOfOne(cfg, node);
    PointsMeaning(cfg, node);
    hide Points, AddNodes, AllPoints;
  }

  lemma {:induction false} AllPointsCount(cfg: Config, nodes: seq<Str>, k: nat)
    requires forall n :: n in nodes ==> |Points(cfg, n)| == k
    ensures |AllPoints(cfg, nodes)| == k * |nodes|
  {
    hide Points;
    if nodes != [] {
      AllPointsCount(cfg, nodes[..|nodes| - 1], k);
      assert nodes[|nodes| - 1] in nodes;
    }
  }

  // ---- GetMultiple --------------------------------------------------------------------------

  /** The owners met on one turn around the circle from `h`. */
  function Walk(ring: Ring, h: int): (w: seq<Str>)
    ensures |w| == |ring.keys|
  {
    seq(|ring.keys|, i requires 0 <= i < |ring.keys| => At(ring.owners, Step(ring.keys, h, i)))
  }

  /** The i-th point met from `h`. */
  function Step(keys: seq<int>, h: int, i: nat): int
    requires i < |keys|
  {
    keys[(Search(keys, h) + i) % |keys|]
  }

  /** What is met for the first time, in the order of the meetings. */
  function Firsts(w: seq<Str>): seq<Str> {
    if w == [] then []
    else
      var r := Firsts(w[..|w| - 1]);
      if w[|w| - 1] in r then r else r + [w[|w| - 1]]
  }

  /** Map.GetMultiple */
  function Several(ring: Ring, h: int, count: int): seq<Str> {
    var r := Firsts(Walk(ring, h));
    if count <= 0 then [] else if count <= |r| then r[..count] else r
  }

  lemma {:induction false} FirstsPrefix(w: seq<Str>, n: nat)
    requires n <= |w|
    ensures Firsts(w[..n]) <= Firsts(w)
  {
    if n < |w| {
      FirstsPrefix(w[..|w| - 1], n);
      assert w[..|w| - 1][..n] == w[..n];
    } else {
      assert w[..n] == w;
    }
  }

  ghost predicate NoRepeats(s: seq<Str>) {
    forall i, j :: 0 <= i < j < |s| ==> s[i] != s[j]
  }

  function Elements(s: seq<Str>): set<Str> {
    set x | x in s
  }

  lemma {:induction false} FirstsMeaning(w: seq<Str>)
    ensures NoRepeats(Firsts(w))
    ensures Elements(Firsts(w)) == Elements(w)
    ensures |Firsts(w)| == |Elements(w)|
    ensures w != [] ==> Firsts(w) != [] && Firsts(w)[0] == w[0]
  {
    if w != [] {
      hide NoRepeats, Elements;
      var before, x := w[..|w| - 1], w[|w| - 1];
      FirstsMeaning(before);
      ElementsOneMore(before, x);
      GrownMeaning(Firsts(before), x);
      FrontAndLast(w);
    }
  }

  lemma GrownMeaning(r: seq<Str>, x: Str)
    requires NoRepeats(r) && |r| == |Elements(r)|
    ensures x in r ==> Elements(r) == Elements(r) + {x}
    ensures x !in r ==>
              NoRepeats(r + [x]) && Elements(r + [x]) == Elements(r) + {x} && |r + [x]| == |Elements(r + [x])|
  {
    ElementsOneMore(r, x);
    assert x in r <==> x in Elements(r);
  }

  lemma ElementsOneMore(s: seq<Str>, x: Str)
    ensures Elements(s + [x]) == Elements(s) + {x}
  {}

  lemma FrontAndLast(w: seq<Str>)
    requires w != []
    ensures w == w[..|w| - 1] + [w[|w| - 1]]
  {}

  /** Where `x` is met first. */
  function FirstIndex(w: seq<Str>, x: Str): nat {
    if w == [] || w[0] == x then 0 else 1 + FirstIndex(w[1..], x)
  }

  lemma {:induction false} FirstIndexMeaning(w: seq<Str>, x: Str)
    ensures x in w ==> FirstIndex(w, x) < |w| && w[FirstIndex(w, x)] == x
    ensures x !in w ==> FirstIndex(w, x) == |w|
    ensures forall i :: 0 <= i < FirstIndex(w, x) ==> w[i] != x
  {
    if w != [] && w[0] != x {
      FirstIndexMeaning(w[1..], x);
    }
  }

  /** The results stand in the order of their first meetings. */
  lemma {:induction false} FirstsInOrder(w: seq<Str>, i: nat, j: nat)
    requires i < j < |Firsts(w)|
    ensures FirstIndex(w, Firsts(w)[i]) < FirstIndex(w, Firsts(w)[j]) < |w|
  {
    var before, x, r := w[..|w| - 1], w[|w| - 1], Firsts(w[..|w| - 1]);
    FirstsMeaning(before);
    assert w == before + [x];
    if j < |r| {
      FirstsInOrder(before, i, j);
      SameFirstIndex(before, x, r[i]);
      SameFirstIndex(before, x, r[j]);
    } else {
      assert r[i] in Elements(r) && x !in Elements(r);
      SameFirstIndex(before, x, r[i]);
      FirstIndexMeaning(before, r[i]);
      FirstIndexMeaning(w, x);
      assert FirstIndex(w, x) == |before|;
    }
  }

  lemma SameFirstIndex(w: seq<Str>, last: Str, x: Str)
    requires x in Elements(w) || x in w
    ensures FirstIndex(w + [last], x) == FirstIndex(w, x) < |w|
  {
    FirstIndexMeaning(w, x);
    FirstIndexMeaning(w + [last], x);
    var a, b := FirstIndex(w, x), FirstIndex(w + [last], x);
    assert (w + [last])[a] == x;
    assert forall k :: 0 <= k < |w| ==> (w + [last])[k] == w[k];
  }

  /** The walk meets points in the order of their clockwise distance, the nearest first. */
  lemma WalkIsClockwise(ring: Ring, h: int, i: nat, j: nat)
    requires WellFormed(ring) && 0 <= h < CIRCLE && i <= j < |ring.keys|
    ensures Clockwise(h, Step(ring.keys, h, i)) <= Clockwise(h, Step(ring.keys, h, j))
    ensures i == 0 ==> Step(ring.keys, h, i) == Successor(ring.keys, h)
  {
    var n, s := |ring.keys|, Search(ring.keys, h);
    var a, b := (s + i) % n, (s + j) % n;
    Wrapped(s, i, n);
    Wrapped(s, j, n);
    assert ring.keys[a] in ring.keys && ring.keys[b] in ring.keys;
    if a < b {
      assert ring.keys[a] <= ring.keys[b];
    }
  }

  lemma Wrapped(s: nat, i: nat, n: nat)
    requires s <= n && i < n
    ensures (s + i) % n == if s + i < n then s + i else s + i - n
  {}

  /** On a well-formed ring the walk meets exactly the nodes that own something. */
  lemma WalkMeetsAll(ring: Ring, h: int)
    requires WellFormed(ring)
    ensures Elements(Walk(ring, h)) == ring.owners.Values
  {
    var w := Walk(ring, h);
    forall x | x in w ensures x in ring.owners.Values {
      var i :| 0 <= i < |w| && w[i] == x;
      assert Step(ring.keys, h, i) in ring.keys;
    }
    forall x | x in ring.owners.Values ensures x in w {
      var p := KeyOf(ring.owners, x);
      WalkMeets(ring, h, p);
    }
  }

  lemma KeyOf<K, V>(m: map<K, V>, x: V) returns (k: K)
    requires x in m.Values
    ensures k in m && m[k] == x
  {
    k :| k in m && m[k] == x;
  }

  lemma WalkMeets(ring: Ring, h: int, p: int)
    requires WellFormed(ring) && p in ring.owners
    ensures ring.owners[p] in Walk(ring, h)
  {
    var n, s := |ring.keys|, Search(ring.keys, h);
    assert p in ring.keys;
    var k :| 0 <= k < n && ring.keys[k] == p;
    var i := if k >= s then k - s else k - s + n;
    Wrapped(s, i, n);
    assert Step(ring.keys, h, i) == p;
    assert Walk(ring, h)[i] == ring.owners[p];
  }

  /**
    What GetMultiple gives: pairwise different nodes, as many as asked for or as
    there are; the node of Get first; more of the same list for a larger count; and
    every node for a count of GetNodeCount or more.
   */
  lemma SeveralMeaning(ring: Ring, h: int, count: nat)
    requires WellFormed(ring) && 0 <= h < CIRCLE
    ensures var r := Several(ring, h, count);
            && NoRepeats(r)
            && |r| == (if count <= |ring.owners.Values| then count else |ring.owners.Values|)
            && r <= Several(ring, h, count + 1)
            && (r != [] ==> r[0] == OwnerAt(ring, h))
            && (count >= |ring.owners.Values| ==> Elements(r) == ring.owners.Values)
  {
    hide NoRepeats, Elements;
    var w := Walk(ring, h);
    FirstsMeaning(w);
    WalkMeetsAll(ring, h);
    CutKeepsApart(Firsts(w), count);
    if ring.keys != [] {
      WalkIsClockwise(ring, h, 0, 0);
    }
  }

  lemma CutKeepsApart(s: seq<Str>, count: nat)
    requires NoRepeats(s)
    ensures count <= |s| ==> NoRepeats(s[..count])
    ensures count < |s| ==> s[..count] <= s[..count + 1]
    ensures s[..|s|] == s && s[..0] == []
  {}
}
