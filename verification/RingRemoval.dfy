/**
  What removing nodes does to the ring, for a whole list of nodes and any hash: Remove takes one
  copy of each point from the slice, but the whole entry from the map, so with shared points it
  does not always do what it is for. Exactly when it does is proved here.
 */
module RingRemoval {
  import opened Prelude
  import opened SortedSeq
  import opened RingSpec
  import opened RingLaws

  lemma {:induction false} DropConcat(ring: Ring, a: seq<int>, b: seq<int>)
    ensures DropPoints(ring, a + b) == DropPoints(DropPoints(ring, a), b)
  {
    hide DropPoint;
    if b == [] {
      assert a + b == a;
    } else {
      DropConcat(ring, a, b[..|b| - 1]);
      assert (a + b)[..|a + b| - 1] == a + b[..|b| - 1];
    }
  }

  /** Removing nodes is dropping all their points. */
  lemma {:induction false} RemoveDrops(cfg: Config, ring: Ring, nodes: seq<Str>)
    ensures RemoveNodes(cfg, ring, nodes) == DropPoints(ring, AllPoints(cfg, nodes))
  {
    hide Points, DropPoint;
    if nodes != [] {
      RemoveDrops(cfg, ring, nodes[..|nodes| - 1]);
      DropConcat(ring, AllPoints(cfg, nodes[..|nodes| - 1]), Points(cfg, nodes[|nodes| - 1]));
    }
  }

  /** The ring has more copies of the point than the nodes take away. */
  predicate Stays(cfg: Config, ring: Ring, nodes: seq<Str>, p: int) {
    Count(ring.keys, p) > Count(AllPoints(cfg, nodes), p)
  }

  /** What Remove leaves, point by point. */
  lemma RemovedAt(cfg: Config, ring: Ring, nodes: seq<Str>, p: int)
    requires WellFormed(ring)
    ensures var r := RemoveNodes(cfg, ring, nodes);
            && Sorted(r.keys)
            && Count(r.keys, p) == (if Stays(cfg, ring, nodes, p)
                                    then Count(ring.keys, p) - Count(AllPoints(cfg, nodes), p) else 0)
            && (p in r.keys <==> Stays(cfg, ring, nodes, p))
            && (p in r.owners <==> p in ring.owners && p !in AllPoints(cfg, nodes))
            && (p in r.owners ==> r.owners[p] == ring.owners[p])
    ensures Stays(cfg, ring, nodes, p) ==> p in ring.keys
    ensures p in ring.keys && p !in AllPoints(cfg, nodes) ==> Stays(cfg, ring, nodes, p)
  {
    hide Count, AllPoints;
    var ps := AllPoints(cfg, nodes);
    RemoveDrops(cfg, ring, nodes);
    DropMeaning(ring, ps, p);
    CountMeaning(DropPoints(ring, ps).keys, p);
    CountMeaning(ring.keys, p);
    CountMeaning(ps, p);
  }

  lemma RemovedKeys(cfg: Config, ring: Ring, nodes: seq<Str>)
    requires WellFormed(ring)
    ensures var r := RemoveNodes(cfg, ring, nodes);
            && Sorted(r.keys) && InCircle(r.keys)
            && (forall p :: p in r.keys ==> p in ring.keys)
            && (forall p :: p in r.keys <==> Stays(cfg, ring, nodes, p))
  {
    hide RemoveNodes, Stays, AllPoints, Count;
    RemovedAt(cfg, ring, nodes, 0);
    var r := RemoveNodes(cfg, ring, nodes);
    forall p
      ensures p in r.keys ==> p in ring.keys
      ensures p in r.keys <==> Stays(cfg, ring, nodes, p)
    {
      RemovedAt(cfg, ring, nodes, p);
    }
  }

  // ---- when slice and map still agree ----------------------------------------------------

  /** No point of the nodes is on the ring more often than they put it there in one Add. */
  ghost predicate NoForeignCopies(cfg: Config, ring: Ring, nodes: seq<Str>) {
    forall p :: p in AllPoints(cfg, nodes) ==> !Stays(cfg, ring, nodes, p)
  }

  /**
    When Remove keeps the two structures in agreement: exactly when no point of the
    nodes has a further copy on the ring, from another node or from a second Add.
   */
  lemma RemoveKeepsWellFormedIff(cfg: Config, ring: Ring, nodes: seq<Str>)
    requires WellFormed(ring)
    ensures WellFormed(RemoveNodes(cfg, ring, nodes)) <==> NoForeignCopies(cfg, ring, nodes)
  {
    hide RemoveNodes, Stays, AllPoints, Count;
    RemovedKeys(cfg, ring, nodes);
    var r := RemoveNodes(cfg, ring, nodes);
    forall p
      ensures p in r.keys <==> Stays(cfg, ring, nodes, p)
      ensures p in r.owners <==> p in ring.owners && p !in AllPoints(cfg, nodes)
      ensures Stays(cfg, ring, nodes, p) ==> p in ring.keys
      ensures p in ring.keys && p !in AllPoints(cfg, nodes) ==> Stays(cfg, ring, nodes, p)
    {
      RemovedAt(cfg, ring, nodes, p);
    }
    if !NoForeignCopies(cfg, ring, nodes) {
      var p :| p in AllPoints(cfg, nodes) && Stays(cfg, ring, nodes, p);
      assert p in r.keys && p !in r.owners;
    }
  }

  /** What goes wrong otherwise: the point stays behind without an owner. */
  lemma SharedPointIsOrphaned(cfg: Config, ring: Ring, nodes: seq<Str>, p: int)
    requires WellFormed(ring) && p in AllPoints(cfg, nodes) && Stays(cfg, ring, nodes, p)
    ensures OwnerAt(RemoveNodes(cfg, ring, nodes), p) == []
  {
    hide RemoveNodes, Stays, AllPoints;
    RemovedAt(cfg, ring, nodes, p);
    SearchFinds(RemoveNodes(cfg, ring, nodes).keys, p);
  }

  // ---- minimal disruption -----------------------------------------------------------------

  /** Of the points that stay, the first one clockwise from p. */
  ghost predicate NextStaying(cfg: Config, ring: Ring, nodes: seq<Str>, p: int, q: int) {
    && Stays(cfg, ring, nodes, q)
    && forall x :: Stays(cfg, ring, nodes, x) ==> Clockwise(p, q) <= Clockwise(p, x)
  }

  /** The next point that stays belongs to the owner; if the nodes have it too, or there is none, to nobody. */
  ghost predicate Inherits(cfg: Config, ring: Ring, nodes: seq<Str>, p: int, owner: Str) {
    if exists q :: Stays(cfg, ring, nodes, q) then
      exists q :: NextStaying(cfg, ring, nodes, p, q)
        && owner == if q in AllPoints(cfg, nodes) then [] else At(ring.owners, q)
    else owner == []
  }

  lemma NearestStays(cfg: Config, ring: Ring, nodes: seq<Str>, p: int, q: int)
    requires WellFormed(ring)
    ensures Nearest(RemoveNodes(cfg, ring, nodes).keys, p, q) <==> NextStaying(cfg, ring, nodes, p, q)
  {
    hide RemoveNodes, Stays;
    RemovedKeys(cfg, ring, nodes);
  }

  lemma InheritsIff(cfg: Config, ring: Ring, nodes: seq<Str>, p: int, owner: Str)
    requires WellFormed(ring) && 0 <= p < CIRCLE
    ensures Inherits(cfg, ring, nodes, p, owner) <==> owner == OwnerAt(RemoveNodes(cfg, ring, nodes), p)
  {
    hide RemoveNodes, Stays, AllPoints, NextStaying, Nearest, Successor, Sorted, InCircle;
    var r := RemoveNodes(cfg, ring, nodes);
    RemovedKeys(cfg, ring, nodes);
    if r.keys == [] {
      forall q ensures !Stays(cfg, ring, nodes, q) {
        assert q !in r.keys;
      }
    } else {
      assert r.keys[0] in r.keys;
      var q := Successor(r.keys, p);
      SuccessorIsNearest(r.keys, p);
      NearestStays(cfg, ring, nodes, p, q);
      RemovedAt(cfg, ring, nodes, q);
      forall x | NextStaying(cfg, ring, nodes, p, x) ensures x == q {
        NearestStays(cfg, ring, nodes, p, x);
        NearestUnique(r.keys, p, q, x);
      }
    }
  }

  /** Going on from the point that was nearest: nothing was in between, so nothing is. */
  lemma NearestFromNearest(keys: seq<int>, fewer: seq<int>, h: int)
    requires Sorted(keys) && InCircle(keys) && Sorted(fewer) && InCircle(fewer) && 0 <= h < CIRCLE
    requires keys != [] && fewer != [] && forall p :: p in fewer ==> p in keys
    ensures Successor(fewer, h) == Successor(fewer, Successor(keys, h))
  {
    var p := Successor(keys, h);
    SuccessorIsNearest(keys, h);
    var q := Successor(fewer, p);
    SuccessorIsNearest(fewer, p);
    SuccessorIsNearest(fewer, h);
    hide Sorted, Successor;
    forall x | x in fewer ensures Clockwise(h, q) <= Clockwise(h, x) {
      assert Clockwise(h, x) == Clockwise(h, p) + Clockwise(p, x);
      assert Clockwise(h, q) == Clockwise(h, p) + Clockwise(p, q);
    }
    NearestUnique(fewer, h, q, Successor(fewer, h));
  }

  /** Places lead to the owner of the point that they come to first, before and after. */
  lemma OwnerByPoint(cfg: Config, ring: Ring, nodes: seq<Str>, h: int)
    requires WellFormed(ring) && 0 <= h < CIRCLE && ring.keys != []
    ensures var p := Successor(ring.keys, h);
            var r := RemoveNodes(cfg, ring, nodes);
            && p in ring.keys && OwnerAt(ring, h) == ring.owners[p]
            && OwnerAt(r, h) == OwnerAt(r, p)
            && (p !in AllPoints(cfg, nodes) ==> OwnerAt(r, p) == ring.owners[p])
  {
    hide RemoveNodes, Stays, AllPoints, Sorted, InCircle, Search;
    var p, r := Successor(ring.keys, h), RemoveNodes(cfg, ring, nodes);
    SuccessorIsNearest(ring.keys, h);
    RemovedKeys(cfg, ring, nodes);
    RemovedAt(cfg, ring, nodes, p);
    if r.keys != [] {
      NearestFromNearest(ring.keys, r.keys, h);
    }
    if p in r.keys {
      PointIsItsSuccessor(r.keys, p);
    }
  }

  lemma PointIsItsSuccessor(keys: seq<int>, p: int)
    requires Sorted(keys) && p in keys
    ensures Successor(keys, p) == p
  {
    SearchFinds(keys, p);
  }

  /** Removing the nodes moves only what they owned. */
  ghost predicate MovesOnlyItsOwn(cfg: Config, ring: Ring, nodes: seq<Str>) {
    forall h :: 0 <= h < CIRCLE && OwnerAt(ring, h) !in nodes ==>
      OwnerAt(RemoveNodes(cfg, ring, nodes), h) == OwnerAt(ring, h)
  }

  /** Each point that the nodes have in common with an owner who stays leads to that owner again. */
  ghost predicate SharedPointsInherited(cfg: Config, ring: Ring, nodes: seq<Str>) {
    forall p :: p in AllPoints(cfg, nodes) && p in ring.owners && ring.owners[p] !in nodes ==>
      Inherits(cfg, ring, nodes, p, ring.owners[p])
  }

  /** Minimal disruption on Remove, exactly. Without shared points the right side says nothing. */
  lemma RemoveMovesOnlyItsOwnIff(cfg: Config, ring: Ring, nodes: seq<Str>)
    requires WellFormed(ring)
    ensures MovesOnlyItsOwn(cfg, ring, nodes) <==> SharedPointsInherited(cfg, ring, nodes)
  {
    hide RemoveNodes, Inherits, AllPoints, OwnerAt, Sorted;
    var r := RemoveNodes(cfg, ring, nodes);
    if MovesOnlyItsOwn(cfg, ring, nodes) {
      forall p | p in AllPoints(cfg, nodes) && p in ring.owners && ring.owners[p] !in nodes
        ensures Inherits(cfg, ring, nodes, p, ring.owners[p])
      {
        PointIsItsSuccessor(ring.keys, p);
        OwnerByPoint(cfg, ring, nodes, p);
        InheritsIff(cfg, ring, nodes, p, ring.owners[p]);
      }
    }
    if SharedPointsInherited(cfg, ring, nodes) {
      forall h | 0 <= h < CIRCLE && OwnerAt(ring, h) !in nodes ensures OwnerAt(r, h) == OwnerAt(ring, h) {
        KeptOwner(cfg, ring, nodes, h);
      }
    }
  }

  lemma HeadIsIn(s: seq<int>)
    requires s != []
    ensures s[0] in s
  {}

  lemma KeptOwner(cfg: Config, ring: Ring, nodes: seq<Str>, h: int)
    requires WellFormed(ring) && SharedPointsInherited(cfg, ring, nodes)
    requires 0 <= h < CIRCLE && OwnerAt(ring, h) !in nodes
    ensures OwnerAt(RemoveNodes(cfg, ring, nodes), h) == OwnerAt(ring, h)
  {
    if ring.keys == [] {
      RemovedKeys(cfg, ring, nodes);
      if RemoveNodes(cfg, ring, nodes).keys != [] {
        HeadIsIn(RemoveNodes(cfg, ring, nodes).keys);
      }
    } else {
      hide RemoveNodes, Inherits, AllPoints, OwnerAt, Sorted;
      var p := Successor(ring.keys, h);
      OwnerByPoint(cfg, ring, nodes, h);
      if p in AllPoints(cfg, nodes) {
        InheritsIff(cfg, ring, nodes, p, ring.owners[p]);
      }
    }
  }

  /** Every point of the nodes that is on the ring belongs to one of them. */
  ghost predicate OwnTheirPoints(cfg: Config, ring: Ring, nodes: seq<Str>) {
    forall p :: p in AllPoints(cfg, nodes) && p in ring.owners ==> ring.owners[p] in nodes
  }

  lemma RemoveMovesOnlyItsOwn(cfg: Config, ring: Ring, nodes: seq<Str>)
    requires WellFormed(ring) && OwnTheirPoints(cfg, ring, nodes)
    ensures MovesOnlyItsOwn(cfg, ring, nodes)
  {
    hide MovesOnlyItsOwn;
    RemoveMovesOnlyItsOwnIff(cfg, ring, nodes);
  }

  // ---- Remove undoes Add, and does not depend on the order -------------------------------------

  /** What Add makes, point by point. */
  lemma AddedAt(cfg: Config, ring: Ring, nodes: seq<Str>, p: int)
    ensures var r := AddNodes(cfg, ring, nodes);
            && Count(r.keys, p) == Count(ring.keys, p) + Count(AllPoints(cfg, nodes), p)
            && (p in r.owners <==> p in ring.owners || p in AllPoints(cfg, nodes))
            && (p in r.owners && p !in AllPoints(cfg, nodes) ==> r.owners[p] == ring.owners[p])
  {
    hide Count;
    GatherSplits(cfg, ring, nodes);
    CountSorted(ring.keys + AllPoints(cfg, nodes), p);
    CountConcat(ring.keys, AllPoints(cfg, nodes), p);
    GatherMeaning(cfg, ring, nodes, p);
    ClaimedIff(cfg, nodes, p);
  }

  lemma {:induction false} ClaimedIff(cfg: Config, nodes: seq<Str>, p: int)
    ensures Claimed(cfg, nodes, p) <==> p in AllPoints(cfg, nodes)
  {
    hide Points;
    if nodes != [] {
      var before, node := nodes[..|nodes| - 1], nodes[|nodes| - 1];
      ClaimedIff(cfg, before, p);
      assert forall n :: n in nodes <==> n in before || n == node;
    }
  }

  lemma SamePoints(cfg: Config, a: seq<Str>, b: seq<Str>, p: int)
    requires SameNodes(a, b)
    ensures Count(AllPoints(cfg, a), p) == Count(AllPoints(cfg, b), p)
    ensures p in AllPoints(cfg, a) <==> p in AllPoints(cfg, b)
  {
    hide Count, AllPoints, SameNodes;
    CopiesIgnoreOrder(cfg, a, b, p);
    CountMeaning(AllPoints(cfg, a), p);
    CountMeaning(AllPoints(cfg, b), p);
  }

  lemma SameAt(cfg: Config, ring: Ring, a: seq<Str>, b: seq<Str>, p: int)
    requires WellFormed(ring) && SameNodes(a, b)
    ensures var (r, s) := (RemoveNodes(cfg, ring, a), RemoveNodes(cfg, ring, b));
            && Count(r.keys, p) == Count(s.keys, p)
            && (p in r.owners <==> p in s.owners)
            && (p in r.owners ==> r.owners[p] == s.owners[p])
  {
    hide Count, AllPoints, SameNodes, RemoveNodes;
    SamePoints(cfg, a, b, p);
    RemovedAt(cfg, ring, a, p);
    RemovedAt(cfg, ring, b, p);
  }

  /** The order in which nodes are removed never matters, shared points or not. */
  lemma RemovalIgnoresOrder(cfg: Config, ring: Ring, a: seq<Str>, b: seq<Str>)
    requires WellFormed(ring) && SameNodes(a, b)
    ensures RemoveNodes(cfg, ring, a) == RemoveNodes(cfg, ring, b)
  {
    hide Count, AllPoints, SameNodes, RemoveNodes;
    var r, s := RemoveNodes(cfg, ring, a), RemoveNodes(cfg, ring, b);
    forall p ensures Count(r.keys, p) == Count(s.keys, p) {
      SameAt(cfg, ring, a, b, p);
    }
    forall p | p in r.owners ensures p in s.owners && r.owners[p] == s.owners[p] {
      SameAt(cfg, ring, a, b, p);
    }
    forall p | p in s.owners ensures p in r.owners {
      SameAt(cfg, ring, a, b, p);
    }
    RemovedKeys(cfg, ring, a);
    RemovedKeys(cfg, ring, b);
    SameCounts(r.keys, s.keys);
    SortedUnique(r.keys, s.keys);
    SameMap(r.owners, s.owners);
  }

  lemma AddThenRemoveAt(cfg: Config, ring: Ring, added: seq<Str>, removed: seq<Str>, p: int)
    requires WellFormed(ring) && SameNodes(added, removed)
    ensures var r := RemoveNodes(cfg, AddNodes(cfg, ring, added), removed);
            && Count(r.keys, p) == Count(ring.keys, p)
            && (p in r.owners <==> p in ring.owners && p !in AllPoints(cfg, added))
            && (p in r.owners ==> r.owners[p] == ring.owners[p])
  {
    hide Count, AllPoints, SameNodes, RemoveNodes, AddNodes, WellFormed;
    AddKeepsWellFormed(cfg, ring, added);
    AddedAt(cfg, ring, added, p);
    SamePoints(cfg, added, removed, p);
    RemovedAt(cfg, AddNodes(cfg, ring, added), removed, p);
  }

  lemma AddThenRemoveKeys(cfg: Config, ring: Ring, added: seq<Str>, removed: seq<Str>)
    requires WellFormed(ring) && SameNodes(added, removed)
    ensures RemoveNodes(cfg, AddNodes(cfg, ring, added), removed).keys == ring.keys
  {
    hide Count, RemoveNodes, AddNodes, SameNodes;
    var r := RemoveNodes(cfg, AddNodes(cfg, ring, added), removed);
    forall p ensures Count(r.keys, p) == Count(ring.keys, p) {
      AddThenRemoveAt(cfg, ring, added, removed, p);
    }
    AddKeepsWellFormed(cfg, ring, added);
    RemovedKeys(cfg, AddNodes(cfg, ring, added), removed);
    SameCounts(r.keys, ring.keys);
    SortedUnique(r.keys, ring.keys);
  }

  /**
    When removing nodes, in any order, undoes adding them, exactly: when they have no point that
    was on the ring before. The slice comes back in any case; the map loses the entry of a shared point.
   */
  lemma RemoveUndoesAddIff(cfg: Config, ring: Ring, added: seq<Str>, removed: seq<Str>)
    requires WellFormed(ring) && SameNodes(added, removed)
    ensures RemoveNodes(cfg, AddNodes(cfg, ring, added), removed).keys == ring.keys
    ensures RemoveNodes(cfg, AddNodes(cfg, ring, added), removed) == ring
            <==> forall p :: p in AllPoints(cfg, added) ==> p !in ring.keys
  {
    hide Count, RemoveNodes, AddNodes, AllPoints, SameNodes;
    var r := RemoveNodes(cfg, AddNodes(cfg, ring, added), removed);
    AddThenRemoveKeys(cfg, ring, added, removed);
    if forall p :: p in AllPoints(cfg, added) ==> p !in ring.keys {
      forall p | p in r.owners ensures p in ring.owners && r.owners[p] == ring.owners[p] {
        AddThenRemoveAt(cfg, ring, added, removed, p);
      }
      forall p | p in ring.owners ensures p in r.owners {
        assert p in ring.keys;
        AddThenRemoveAt(cfg, ring, added, removed, p);
      }
      SameMap(r.owners, ring.owners);
    } else {
      var p :| p in AllPoints(cfg, added) && p in ring.keys;
      AddThenRemoveAt(cfg, ring, added, removed, p);
    }
  }
}
