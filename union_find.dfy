/**
 * The disjoint-set structure used by Kruskal's algorithm: a `parent` array
 * and a `rank` array, `Find` with path compression and `Union` with union by
 * rank. The closure-based `createUnionFind` and the `UnionFind` class of the
 * Kruskal file share this one model; their logic is identical.
 */
module UnionFind {
  import opened ParentForest

  class DisjointSet {
    var parent: array<nat>
    var rank: array<nat>

    /** Object invariant: two distinct arrays forming a well-ranked forest. */
    ghost predicate Valid()
      reads this, parent, rank
    {
      parent != rank && WellRanked(parent[..], rank[..])
    }

    /** The number of elements. */
    function Size(): nat
      reads this
    {
      parent.Length
    }

    /** The representative of the set that holds `x`. */
    ghost function RootOf(x: nat): nat
      reads this, parent, rank
      requires Valid() && x < Size()
    {
      Root(parent[..], rank[..], x)
    }

    /** The representative of every element, as one labelling. */
    ghost function Partition(): (labels: seq<nat>)
      reads this, parent, rank
      requires Valid()
      ensures |labels| == Size()
    {
      RootLabels(parent[..], rank[..])
    }

    /** The representatives of all sets: one per set. */
    ghost function Sets(): set<nat>
      reads this, parent
    {
      RootSet(parent[..])
    }

    /** The root that survives a union of the sets of `x` and `y`. */
    ghost function Winner(x: nat, y: nat): nat
      reads this, parent, rank
      requires Valid() && x < Size() && y < Size()
    {
      if rank[RootOf(x)] < rank[RootOf(y)] then RootOf(y) else RootOf(x)
    }

    /** The root that a union of the sets of `x` and `y` places under the winner. */
    ghost function Loser(x: nat, y: nat): nat
      reads this, parent, rank
      requires Valid() && x < Size() && y < Size()
    {
      if rank[RootOf(x)] < rank[RootOf(y)] then RootOf(x) else RootOf(y)
    }

    /** `size` singleton sets: every element its own parent, every rank 0. */
    constructor (size: nat)
      ensures Valid() && fresh(parent) && fresh(rank)
      ensures Size() == size && rank.Length == size
      ensures forall i :: 0 <= i < size ==> parent[i] == i && rank[i] == 0
      ensures forall i :: 0 <= i < size ==> RootOf(i) == i
      ensures |Sets()| == size
    {
      parent := new nat[size](i => i);
      rank := new nat[size](i => 0);
      new;
      assert parent[..] == Identity(size);
      IdentityRootSetSize(size);
    }

    /**
     * Returns the representative of `x`. Every parent on the path from `x` is
     * pointed straight at that representative; no other entry changes, and
     * no element changes set.
     */
    method Find(x: nat) returns (r: nat)
      requires Valid() && x < Size()
      modifies parent
      ensures Valid()
      ensures r == old(RootOf(x)) && parent[r] == r
      ensures parent[..] == Compressed(old(parent[..]), rank[..], x)
      ensures forall y :: 0 <= y < Size() ==>
        parent[y] == if old(OnPath(parent[..], rank[..], x, y)) then r else old(parent[y])
      ensures forall y :: 0 <= y < Size() ==> parent[y] == old(parent[y]) || parent[y] == old(RootOf(y))
      ensures forall y :: 0 <= y < Size() ==> RootOf(y) == old(RootOf(y))
      ensures Partition() == old(Partition())
      ensures Sets() == old(Sets())
      decreases MaxRank(rank[..]) - rank[x]
    {
      ghost var p0 := parent[..];
      if parent[x] != x {
        var root := Find(parent[x]);
        parent[x] := root;
        assert parent[..] == Compressed(p0, rank[..], p0[x])[x := root];
      }
      r := parent[x];
      CompressionKeepsPartition(p0, rank[..], x);
      CompressedPointsToRoot(p0, rank[..], x);
    }

    /**
     * The linking half of `union`, on two distinct roots: the lower-rank root
     * goes under the other; on a tie `rootY` goes under `rootX`, whose rank
     * grows by one.
     */
    method Link(rootX: nat, rootY: nat)
      requires Valid() && rootX < Size() && rootY < Size() && rootX != rootY
      requires parent[rootX] == rootX && parent[rootY] == rootY
      modifies parent, rank
      ensures Valid()
      ensures
        var (loser, winner) := if old(rank[rootX]) < old(rank[rootY]) then (rootX, rootY) else (rootY, rootX);
        && parent[..] == old(parent[..])[loser := winner]
        && Partition() == Rename(old(Partition()), loser, winner)
        && Sets() == old(Sets()) - {loser}
        && |Sets()| == |old(Sets())| - 1
      ensures rank[..] ==
        if old(rank[rootX]) == old(rank[rootY]) then old(rank[..])[rootX := old(rank[rootX]) + 1] else old(rank[..])
    {
      ghost var p, rk := parent[..], rank[..];
      var loser, winner := rootY, rootX;
      if rank[rootX] < rank[rootY] {
        loser, winner := rootX, rootY;
      }
      ghost var rk2 := if rk[rootX] == rk[rootY] then rk[rootX := rk[rootX] + 1] else rk;
      LinkMerges(p, rk, p[loser := winner], rk2, loser, winner);
      parent[loser] := winner;
      if rank[rootX] == rank[rootY] {
        rank[rootX] := rank[rootX] + 1;
      }
      assert parent[..] == p[loser := winner] && rank[..] == rk2;
    }

    /**
     * Merges the sets of `x` and `y` by rank and reports whether they were
     * distinct. When they were already one set nothing merges and no rank
     * changes (`Find` may still compress paths). Otherwise the lower-rank
     * root goes under the higher-rank one; on a tie the root of `y` goes
     * under the root of `x`, whose rank grows by one. Exactly the two sets
     * merge and every other set stays as it was.
     */
    method Union(x: nat, y: nat) returns (merged: bool)
      requires Valid() && x < Size() && y < Size()
      modifies parent, rank
      ensures Valid() && Size() == old(Size())
      ensures merged <==> old(RootOf(x)) != old(RootOf(y))
      ensures Partition() == if merged then Rename(old(Partition()), old(Loser(x, y)), old(Winner(x, y))) else old(Partition())
      ensures Sets() == if merged then old(Sets()) - {old(Loser(x, y))} else old(Sets())
      ensures |Sets()| == if merged then |old(Sets())| - 1 else |old(Sets())|
      ensures parent[..] ==
        var compressed := CompressedTwice(old(parent[..]), old(rank[..]), x, y);
        if merged then compressed[old(Loser(x, y)) := old(Winner(x, y))] else compressed
      ensures rank[..] ==
        if merged && old(rank[RootOf(x)]) == old(rank[RootOf(y)])
        then old(rank[..])[old(RootOf(x)) := old(rank[RootOf(x)]) + 1]
        else old(rank[..])
    {
      var rootX := Find(x);
      var rootY := Find(y);
      if rootX == rootY {
        return false;
      }
      Link(rootX, rootY);
      return true;
    }
  }
}
