/** The consistent-hash ring: src/internal/server/clusterserver/shard.go. The hash of a virtual node is a
    parameter. */
module HashRing {
  import opened Domain
  import Sorting

  const VIRTUAL_NODE_COUNT := 256

  /** Hash of virtual node `index` of a physical node. */
  type VirtualHash = (string, nat) -> nat

  /** Virtual node hash -> physical node. */
  type Ring = map<nat, string>

  // ---------------------------------------------------------------- the ring as a value

  function HashesOf(h: VirtualHash, node: string, n: nat): set<nat> {
    set i | 0 <= i < n :: h(node, i)
  }

  /** AddNode: the node takes all its virtual hashes, also those another node held. */
  function Added(ring: Ring, h: VirtualHash, node: string, n: nat): Ring {
    map x | x in ring.Keys + HashesOf(h, node, n) :: if x in HashesOf(h, node, n) then node else ring[x]
  }

  /** RemoveNode: all its virtual hashes go, also those another node holds by now. */
  function Removed(ring: Ring, h: VirtualHash, node: string, n: nat): Ring {
    ring - HashesOf(h, node, n)
  }

  /** v is the first of some positions at or after x, or the very first one when there is none. */
  ghost predicate Follows(positions: set<nat>, x: nat, v: nat) {
    && v in positions
    && (if v >= x then forall y <- positions :: y >= x ==> v <= y
        else forall y <- positions :: y < x && v <= y)
  }

  /** v owns the hash x on a ring. */
  ghost predicate Succeeds(ring: Ring, x: nat, v: nat) {
    Follows(ring.Keys, x, v)
  }

  lemma SuccessorIsUnique(ring: Ring, x: nat, a: nat, b: nat)
    requires Succeeds(ring, x, a) && Succeeds(ring, x, b)
    ensures a == b
  {}

  /** A lookup answers with the node at the owning position. */
  ghost predicate Owns(ring: Ring, x: nat, node: string) {
    exists v :: Succeeds(ring, x, v) && ring[v] == node
  }

  lemma {:induction false} SmallestOf(s: set<nat>) returns (m: nat)
    requires s != {}
    ensures m in s && forall y <- s :: m <= y
  {
    var x :| x in s;
    m := x;
    assert forall y <- s :: y == x || y in s - {x};
    if s != {x} {
      var k := SmallestOf(s - {x});
      if k < x { m := k; }
    }
  }

  lemma SuccessorExists(ring: Ring, x: nat) returns (v: nat)
    requires ring != map[]
    ensures Succeeds(ring, x, v)
  {
    var above := set y | y in ring && y >= x;
    if above != {} {
      v := SmallestOf(above);
      forall y | y in ring && y >= x ensures v <= y { assert y in above; }
    } else {
      v := SmallestOf(ring.Keys);
      forall y | y in ring ensures y < x { assert y !in above; }
    }
  }

  /** Minimal movement: adding a node moves lookups only to that node, whatever the hashes. */
  lemma AddMovesOnlyToNewNode(ring: Ring, h: VirtualHash, node: string, n: nat, x: nat, before: string, after: string)
    requires Owns(ring, x, before) && Owns(Added(ring, h, node, n), x, after)
    ensures after == before || after == node
  {
    var ring' := Added(ring, h, node, n);
    var v :| Succeeds(ring, x, v) && ring[v] == before;
    var v' :| Succeeds(ring', x, v') && ring'[v'] == after;
    if v' !in HashesOf(h, node, n) {
      assert v' in ring && v in ring';
      assert Succeeds(ring, x, v');
      SuccessorIsUnique(ring, x, v, v');
    }
  }

  /** None of the node's hashes is held by another node. */
  predicate Unshared(ring: Ring, h: VirtualHash, node: string, n: nat) {
    forall i | 0 <= i < n :: h(node, i) in ring ==> ring[h(node, i)] == node
  }

  /** Minimal movement: removing a node that shares no hash moves only the lookups it owned. */
  lemma RemoveMovesOnlyOwnLookups(ring: Ring, h: VirtualHash, node: string, n: nat, x: nat, before: string)
    requires Unshared(ring, h, node, n) && Owns(ring, x, before) && before != node
    ensures Owns(Removed(ring, h, node, n), x, before)
  {
    var ring' := Removed(ring, h, node, n);
    var v :| Succeeds(ring, x, v) && ring[v] == before;
    assert v in ring';
    assert Succeeds(ring', x, v);
  }

  /** Another node holds x, and so does it hold the next position that is none of `own`. */
  ghost predicate NextIsTheSame(ring: Ring, own: set<nat>, x: nat)
    requires x in ring
  {
    exists v :: Follows(ring.Keys - own, x, v) && ring[v] == ring[x]
  }

  /** Removal moves no lookup but those that the node owned. */
  ghost predicate RemovalIsMinimal(ring: Ring, h: VirtualHash, node: string, n: nat) {
    forall x, other | Owns(ring, x, other) && other != node :: Owns(Removed(ring, h, node, n), x, other)
  }

  /** Exactly when removal is minimal, told from the ring as it is before: for each of the node's hashes that another
      node has taken over, the next position that is not one of the node's hashes belongs to that other node too. */
  lemma RemoveIsMinimalIff(ring: Ring, h: VirtualHash, node: string, n: nat)
    ensures RemovalIsMinimal(ring, h, node, n) <==>
            forall x <- HashesOf(h, node, n) :: x in ring && ring[x] != node ==>
                NextIsTheSame(ring, HashesOf(h, node, n), x)
  {
    var own := HashesOf(h, node, n);
    var ring' := Removed(ring, h, node, n);
    assert ring'.Keys == ring.Keys - own;
    if RemovalIsMinimal(ring, h, node, n) {
      forall x | x in own && x in ring && ring[x] != node
        ensures NextIsTheSame(ring, own, x)
      {
        assert Succeeds(ring, x, x);
        assert Owns(ring, x, ring[x]);
        var v :| Succeeds(ring', x, v) && ring'[v] == ring[x];
        assert Follows(ring.Keys - own, x, v);
      }
    }
    if forall x <- own :: x in ring && ring[x] != node ==> NextIsTheSame(ring, own, x) {
      forall x, other | Owns(ring, x, other) && other != node
        ensures Owns(ring', x, other)
      {
        var v :| Succeeds(ring, x, v) && ring[v] == other;
        if v in ring' {
          assert Succeeds(ring', x, v);
        } else {
          var u :| Follows(ring.Keys - own, v, u) && ring[u] == other;
          SkipRemoved(ring, ring', x, v, u);
        }
      }
    }
  }

  /** It fails, with any number of virtual nodes, as soon as one of a node's hashes is shared with a node that was added
      later, and the next position that is not the first node's belongs to a third one: removing the first node moves
      a lookup from the second to the third. */
  lemma SharedHashMovesAnother(h: VirtualHash, a: string, b: string, c: string, n: nat, x: nat, v: nat)
    requires a != b && b != c && a != c
    requires x in HashesOf(h, a, n) && x in HashesOf(h, b, n) && x !in HashesOf(h, c, n) && v in HashesOf(h, c, n)
    requires Follows(HashesOf(h, b, n) + HashesOf(h, c, n) - HashesOf(h, a, n), x, v)
    ensures var ring := Added(Added(Added(map[], h, a, n), h, b, n), h, c, n);
            && Owns(ring, x, b) && Owns(Removed(ring, h, a, n), x, c)
            && !RemovalIsMinimal(ring, h, a, n)
  {
    hide HashesOf;
    var ring := Added(Added(Added(map[], h, a, n), h, b, n), h, c, n);
    var left := Removed(ring, h, a, n);
    assert ring[x] == b && ring[v] == c;
    assert left.Keys == HashesOf(h, b, n) + HashesOf(h, c, n) - HashesOf(h, a, n);
    assert Succeeds(ring, x, x) && Succeeds(left, x, v);
    forall u | Succeeds(left, x, u)
      ensures left[u] == c
    {
      SuccessorIsUnique(left, x, u, v);
    }
    assert !Owns(left, x, b) && Owns(ring, x, b);
  }

  /** Once the position v that owned x is gone, x goes where v goes. */
  lemma SkipRemoved(ring: Ring, ring': Ring, x: nat, v: nat, u: nat)
    requires ring'.Keys <= ring.Keys && Succeeds(ring, x, v) && v !in ring' && Succeeds(ring', v, u)
    ensures Succeeds(ring', x, u)
  {}

  /** Adding a node and removing it again restores the ring if and only if none of its hashes was taken. */
  lemma AddThenRemoveRestoresIff(ring: Ring, h: VirtualHash, node: string, n: nat)
    ensures Removed(Added(ring, h, node, n), h, node, n) == ring <==> forall i | 0 <= i < n :: h(node, i) !in ring
  {
    var back := Removed(Added(ring, h, node, n), h, node, n);
    if forall i | 0 <= i < n :: h(node, i) !in ring {
      assert ring.Keys !! HashesOf(h, node, n);
      assert back == ring;
    } else {
      var i :| 0 <= i < n && h(node, i) in ring;
      assert h(node, i) in HashesOf(h, node, n);
      assert h(node, i) !in back;
    }
  }

  // ---------------------------------------------------------------- the shard map object

  class ShardMap {
    const h: VirtualHash
    var shards: map<nat, string>
    var version: nat
    var virtualNodes: Ring
    var sortedHashes: seq<nat>

    predicate Valid()
      reads this
    {
      Sorting.Sorts(sortedHashes, virtualNodes.Keys)
    }

    constructor (h: VirtualHash)
      ensures Valid() && this.h == h && virtualNodes == map[] && shards == map[] && version == 0
    {
      this.h, shards, version, virtualNodes, sortedHashes := h, map[], 0, map[], [];
    }

    method RebuildSortedHashes()
      modifies this`sortedHashes
      ensures Valid()
    {
      sortedHashes := Sorting.SortedList(virtualNodes.Keys);
    }

    method AddNode(node: string)
      requires Valid()
      modifies this
      ensures Valid() && virtualNodes == Added(old(virtualNodes), h, node, VIRTUAL_NODE_COUNT)
      ensures forall i | 0 <= i < 256 :: h(node, i) in virtualNodes && virtualNodes[h(node, i)] == node
      ensures forall x | (forall i | 0 <= i < 256 :: h(node, i) != x) ::
        (x in virtualNodes <==> x in old(virtualNodes)) &&
        (x in virtualNodes ==> virtualNodes[x] == old(virtualNodes)[x])
      ensures shards == old(shards) && version == (old(version) + 1) % TWO_TO_64
    {
      hide Added;
      AddedNone(virtualNodes, h, node);
      for i := 0 to VIRTUAL_NODE_COUNT
        invariant virtualNodes == Added(old(virtualNodes), h, node, i)
        invariant shards == old(shards) && version == old(version)
      {
        AddedStep(old(virtualNodes), h, node, i);
        virtualNodes := virtualNodes[h(node, i) := node];
      }
      AddedIs(old(virtualNodes), h, node, VIRTUAL_NODE_COUNT);
      RebuildSortedHashes();
      version := (version + 1) % TWO_TO_64;
    }

    method RemoveNode(node: string)
      requires Valid()
      modifies this
      ensures Valid() && virtualNodes == Removed(old(virtualNodes), h, node, VIRTUAL_NODE_COUNT)
      ensures forall x :: x in virtualNodes <==> x in old(virtualNodes) && forall i | 0 <= i < 256 :: h(node, i) != x
      ensures forall x <- virtualNodes :: virtualNodes[x] == old(virtualNodes)[x]
      ensures shards == map k | k in old(shards) && old(shards)[k] != node :: old(shards)[k]
      ensures version == (old(version) + 1) % TWO_TO_64
    {
      for i := 0 to VIRTUAL_NODE_COUNT
        invariant virtualNodes == Removed(old(virtualNodes), h, node, i)
        invariant shards == old(shards) && version == old(version)
      {
        HashesStep(h, node, i);
        virtualNodes := virtualNodes - {h(node, i)};
      }
      var rest := shards.Keys;
      while rest != {}
        invariant rest <= old(shards).Keys && version == old(version)
        invariant virtualNodes == Removed(old(virtualNodes), h, node, VIRTUAL_NODE_COUNT)
        invariant shards == map k | k in old(shards) && (k in rest || old(shards)[k] != node) :: old(shards)[k]
      {
        var k :| k in rest;
        rest := rest - {k};
        if shards[k] == node { shards := shards - {k}; }
      }
      RebuildSortedHashes();
      version := (version + 1) % TWO_TO_64;
    }

    /** GetNodeForHash: binary search for the first hash not below the target, wrapping around at the end. */
    method GetNodeForHash(hash: nat) returns (node: string, found: bool)
      requires Valid()
      ensures found <==> virtualNodes != map[]
      ensures found ==> Owns(virtualNodes, hash, node)
      ensures !found ==> node == ""
    {
      if |sortedHashes| == 0 {
        assert virtualNodes.Keys == {};
        return "", false;
      }
      var i, j := 0, |sortedHashes|;
      while i < j
        invariant 0 <= i <= j <= |sortedHashes|
        invariant forall k | 0 <= k < i :: sortedHashes[k] < hash
        invariant forall k | j <= k < |sortedHashes| :: sortedHashes[k] >= hash
      {
        var mid := (i + j) / 2;
        if sortedHashes[mid] >= hash { j := mid; } else { i := mid + 1; }
      }
      if i == |sortedHashes| { i := 0; }
      var v := sortedHashes[i];
      PositionSucceeds(virtualNodes, sortedHashes, hash, i);
      return virtualNodes[v], true;
    }
  }

  lemma HashesStep(h: VirtualHash, node: string, i: nat)
    ensures HashesOf(h, node, i + 1) == HashesOf(h, node, i) + {h(node, i)}
  {}

  /** The node holds all its hashes, and every other one is held as before. */
  lemma AddedIs(ring: Ring, h: VirtualHash, node: string, n: nat)
    ensures var ring' := Added(ring, h, node, n);
            && (forall i | 0 <= i < n :: h(node, i) in ring' && ring'[h(node, i)] == node)
            && (forall x | (forall i | 0 <= i < n :: h(node, i) != x) ::
                  (x in ring' <==> x in ring) && (x in ring' ==> ring'[x] == ring[x]))
  {
    forall i | 0 <= i < n
      ensures h(node, i) in HashesOf(h, node, n)
    {}
  }

  lemma AddedNone(ring: Ring, h: VirtualHash, node: string)
    ensures Added(ring, h, node, 0) == ring
  {
    assert HashesOf(h, node, 0) == {};
  }

  lemma AddedStep(ring: Ring, h: VirtualHash, node: string, i: nat)
    ensures Added(ring, h, node, i)[h(node, i) := node] == Added(ring, h, node, i + 1)
  {
    HashesStep(h, node, i);
  }

  /** The place that the search finds is the successor on the ring. */
  lemma PositionSucceeds(ring: Ring, sorted: seq<nat>, x: nat, i: nat)
    requires Sorting.Sorts(sorted, ring.Keys) && i < |sorted|
    requires (sorted[i] >= x && forall k | 0 <= k < i :: sorted[k] < x) ||
             (i == 0 && forall k | 0 <= k < |sorted| :: sorted[k] < x)
    ensures sorted[i] in ring && Succeeds(ring, x, sorted[i])
  {
    forall y | y in ring ensures exists k :: 0 <= k < |sorted| && sorted[k] == y { assert y in sorted; }
  }
}
