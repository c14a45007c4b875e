/**
 * The parent forest behind a disjoint-set structure, as plain values.
 *
 * `p` is the `parent` array and `rk` the `rank` array as sequences. A
 * well-ranked forest has every parent index in range and ranks that strictly
 * increase from a non-root to its parent; the ranks are therefore also the
 * termination measure of every walk to a root.
 */
module ParentForest {

  /** Parents in range, and `rank[x] < rank[parent[x]]` for every non-root `x`. */
  ghost predicate WellRanked(p: seq<nat>, rk: seq<nat>) {
    && |p| == |rk|
    && (forall i :: 0 <= i < |p| ==> p[i] < |p|)
    && (forall i :: 0 <= i < |p| && p[i] != i ==> rk[i] < rk[p[i]])
  }

  /** An upper bound of all ranks (the largest one). */
  function MaxRank(rk: seq<nat>): (m: nat)
    ensures forall i :: 0 <= i < |rk| ==> rk[i] <= m
  {
    if rk == [] then 0
    else
      var rest := MaxRank(rk[1..]);
      if rk[0] < rest then rest else rk[0]
  }

  /** The representative of `x`: follow parents until an index is its own parent. */
  ghost function Root(p: seq<nat>, rk: seq<nat>, x: nat): (r: nat)
    requires WellRanked(p, rk) && x < |p|
    ensures r < |p| && p[r] == r
    ensures r != x ==> rk[x] < rk[r]
    decreases MaxRank(rk) - rk[x]
  {
    if p[x] == x then x else Root(p, rk, p[x])
  }

  /** `y` lies on the path from `x` to its root (both ends included). */
  ghost predicate OnPath(p: seq<nat>, rk: seq<nat>, x: nat, y: nat)
    requires WellRanked(p, rk) && x < |p|
    decreases MaxRank(rk) - rk[x]
  {
    y == x || (p[x] != x && OnPath(p, rk, p[x], y))
  }

  /** The set representatives: the indices that are their own parent. */
  ghost function RootSet(p: seq<nat>): set<nat> {
    set i | 0 <= i < |p| && p[i] == i
  }

  /** The representative of every element, as one labelling of `[0, |p|)`. */
  ghost function RootLabels(p: seq<nat>, rk: seq<nat>): (labels: seq<nat>)
    requires WellRanked(p, rk)
    ensures |labels| == |p|
    ensures forall z :: 0 <= z < |p| ==> labels[z] == Root(p, rk, z)
  {
    seq(|p|, z requires 0 <= z < |p| => Root(p, rk, z))
  }

  /** The labelling in which class `loser` is renamed `winner`. */
  function Rename(labels: seq<nat>, loser: nat, winner: nat): (renamed: seq<nat>)
    ensures |renamed| == |labels|
    ensures forall z :: 0 <= z < |labels| ==>
      renamed[z] == if labels[z] == loser then winner else labels[z]
  {
    seq(|labels|, z requires 0 <= z < |labels| => if labels[z] == loser then winner else labels[z])
  }

  /**
   * The parent array after a recursive `find(x)` with path compression: the
   * rest of the path is compressed first, then `x` is pointed at the root.
   */
  ghost function Compressed(p: seq<nat>, rk: seq<nat>, x: nat): (q: seq<nat>)
    requires WellRanked(p, rk) && x < |p|
    ensures |q| == |p|
    decreases MaxRank(rk) - rk[x]
  {
    if p[x] == x then p else Compressed(p, rk, p[x])[x := Root(p, rk, x)]
  }

  /** Every element on the path from `x` has the root of `x` as its root. */
  lemma {:induction false} OnPathSameRoot(p: seq<nat>, rk: seq<nat>, x: nat, y: nat)
    requires WellRanked(p, rk) && x < |p| && y < |p|
    requires OnPath(p, rk, x, y)
    ensures Root(p, rk, y) == Root(p, rk, x)
    decreases MaxRank(rk) - rk[x]
  {
    if y != x {
      OnPathSameRoot(p, rk, p[x], y);
    }
  }

  /**
   * Path compression rewrites exactly the parents on the path from `x`, each
   * to the root of `x`; every other parent is unchanged.
   */
  lemma {:induction false} CompressedPointsToRoot(p: seq<nat>, rk: seq<nat>, x: nat)
    requires WellRanked(p, rk) && x < |p|
    ensures forall y :: 0 <= y < |p| ==>
      Compressed(p, rk, x)[y] == if OnPath(p, rk, x, y) then Root(p, rk, x) else p[y]
    decreases MaxRank(rk) - rk[x]
  {
    if p[x] != x {
      CompressedPointsToRoot(p, rk, p[x]);
    }
  }

  /**
   * Redirecting any parents straight to their own roots keeps the forest
   * well ranked, keeps every element's root and keeps the set of roots.
   */
  lemma RetargetToRoots(p: seq<nat>, q: seq<nat>, rk: seq<nat>)
    requires WellRanked(p, rk) && |q| == |p|
    requires forall y :: 0 <= y < |p| ==> q[y] == p[y] || q[y] == Root(p, rk, y)
    ensures WellRanked(q, rk)
    ensures forall y :: 0 <= y < |p| ==> Root(q, rk, y) == Root(p, rk, y)
    ensures RootSet(q) == RootSet(p)
  {
    assert WellRanked(q, rk) by {
      forall i | 0 <= i < |q| && q[i] != i
        ensures rk[i] < rk[q[i]]
      {
        if q[i] != p[i] {
          assert q[i] == Root(p, rk, i);
        }
      }
    }
    forall y | 0 <= y < |p|
      ensures Root(q, rk, y) == Root(p, rk, y)
    {
      RetargetKeepsRoot(p, q, rk, y);
    }
  }

  lemma {:induction false} RetargetKeepsRoot(p: seq<nat>, q: seq<nat>, rk: seq<nat>, y: nat)
    requires WellRanked(p, rk) && WellRanked(q, rk) && y < |p| && |q| == |p|
    requires forall z :: 0 <= z < |p| ==> q[z] == p[z] || q[z] == Root(p, rk, z)
    ensures Root(q, rk, y) == Root(p, rk, y)
    decreases MaxRank(rk) - rk[y]
  {
    if q[y] != y {
      if q[y] == p[y] {
        RetargetKeepsRoot(p, q, rk, p[y]);
      } else {
        var r := Root(p, rk, y);
        RetargetKeepsRoot(p, q, rk, r);
      }
    }
  }

  /**
   * `find(x)` with path compression keeps the forest well ranked, keeps the
   * partition (every element's root) and the set of roots, and only ever
   * points a parent at its own root.
   */
  lemma CompressionKeepsPartition(p: seq<nat>, rk: seq<nat>, x: nat)
    requires WellRanked(p, rk) && x < |p|
    ensures WellRanked(Compressed(p, rk, x), rk)
    ensures forall y :: 0 <= y < |p| ==> Root(Compressed(p, rk, x), rk, y) == Root(p, rk, y)
    ensures RootLabels(Compressed(p, rk, x), rk) == RootLabels(p, rk)
    ensures RootSet(Compressed(p, rk, x)) == RootSet(p)
    ensures forall y :: 0 <= y < |p| ==>
      Compressed(p, rk, x)[y] == p[y] || Compressed(p, rk, x)[y] == Root(p, rk, y)
  {
    var q := Compressed(p, rk, x);
    CompressedPointsToRoot(p, rk, x);
    forall y | 0 <= y < |p|
      ensures q[y] == p[y] || q[y] == Root(p, rk, y)
    {
      if OnPath(p, rk, x, y) {
        OnPathSameRoot(p, rk, x, y);
      }
    }
    RetargetToRoots(p, q, rk);
    assert RootLabels(q, rk) == RootLabels(p, rk);
  }

  /** The parent array after `find(x)` and then `find(y)`, as `union` begins. */
  ghost function CompressedTwice(p: seq<nat>, rk: seq<nat>, x: nat, y: nat): (q: seq<nat>)
    requires WellRanked(p, rk) && x < |p| && y < |p|
    ensures |q| == |p|
  {
    CompressionKeepsPartition(p, rk, x);
    Compressed(Compressed(p, rk, x), rk, y)
  }

  /**
   * Linking root `loser` under root `winner` (with the winner's rank possibly
   * raised by one) keeps the forest well ranked, moves exactly the loser's set
   * into the winner's set and removes one root.
   */
  lemma LinkMerges(p: seq<nat>, rk: seq<nat>, q: seq<nat>, rk2: seq<nat>, loser: nat, winner: nat)
    requires WellRanked(p, rk) && loser < |p| && winner < |p| && loser != winner
    requires p[loser] == loser && p[winner] == winner
    requires q == p[loser := winner]
    requires rk2 == rk || rk2 == rk[winner := rk[winner] + 1]
    requires rk2[loser] < rk2[winner]
    ensures WellRanked(q, rk2)
    ensures forall z :: 0 <= z < |p| ==>
      Root(q, rk2, z) == if Root(p, rk, z) == loser then winner else Root(p, rk, z)
    ensures RootLabels(q, rk2) == Rename(RootLabels(p, rk), loser, winner)
    ensures RootSet(q) == RootSet(p) - {loser}
    ensures |RootSet(q)| == |RootSet(p)| - 1
  {
    assert loser in RootSet(p);
    assert WellRanked(q, rk2) by {
      forall i | 0 <= i < |q| && q[i] != i
        ensures rk2[i] < rk2[q[i]]
      {
        if i != loser {
          assert p[i] != i && i != winner;
        }
      }
    }
    forall z | 0 <= z < |p|
      ensures Root(q, rk2, z) == if Root(p, rk, z) == loser then winner else Root(p, rk, z)
    {
      LinkMovesRoot(p, rk, q, rk2, loser, winner, z);
    }
    assert RootLabels(q, rk2) == Rename(RootLabels(p, rk), loser, winner);
  }

  lemma {:induction false} LinkMovesRoot(p: seq<nat>, rk: seq<nat>, q: seq<nat>, rk2: seq<nat>,
                                         loser: nat, winner: nat, z: nat)
    requires WellRanked(p, rk) && WellRanked(q, rk2)
    requires loser < |p| && winner < |p| && loser != winner && z < |p|
    requires p[loser] == loser && p[winner] == winner
    requires q == p[loser := winner]
    ensures Root(q, rk2, z) == if Root(p, rk, z) == loser then winner else Root(p, rk, z)
    decreases MaxRank(rk) - rk[z]
  {
    if z != loser && p[z] != z {
      LinkMovesRoot(p, rk, q, rk2, loser, winner, p[z]);
    }
  }

  /** The parent array in which every element is its own parent. */
  ghost function Identity(n: nat): (p: seq<nat>)
    ensures |p| == n && forall i :: 0 <= i < n ==> p[i] == i
  {
    seq(n, i requires 0 <= i < n => i)
  }

  /** `n` singletons have `n` roots. */
  lemma {:induction false} IdentityRootSetSize(n: nat)
    ensures |RootSet(Identity(n))| == n
  {
    if n > 0 {
      IdentityRootSetSize(n - 1);
      assert RootSet(Identity(n)) == RootSet(Identity(n - 1)) + {n - 1};
    }
  }

  /** Every element's root is one of the roots, so with one root all share it. */
  lemma OneRootOneSet(p: seq<nat>, rk: seq<nat>)
    requires WellRanked(p, rk) && |RootSet(p)| == 1
    ensures forall a, b :: 0 <= a < |p| && 0 <= b < |p| ==> Root(p, rk, a) == Root(p, rk, b)
  {
    forall a, b | 0 <= a < |p| && 0 <= b < |p|
      ensures Root(p, rk, a) == Root(p, rk, b)
    {
      var ra, rb := Root(p, rk, a), Root(p, rk, b);
      assert ra in RootSet(p) && rb in RootSet(p);
      if ra != rb {
        assert {ra, rb} <= RootSet(p);
        assert |{ra, rb}| == 2;
        SubsetSize({ra, rb}, RootSet(p));
      }
    }
  }

  lemma {:induction false} SubsetSize(a: set<nat>, b: set<nat>)
    requires a <= b
    ensures |a| <= |b|
  {
    if a != {} {
      var x :| x in a;
      SubsetSize(a - {x}, b - {x});
    }
  }

  /** When every element has the root of element 0, that root is the only one. */
  lemma AllSameRootOneSet(p: seq<nat>, rk: seq<nat>)
    requires WellRanked(p, rk) && |p| > 0
    requires forall a :: 0 <= a < |p| ==> Root(p, rk, a) == Root(p, rk, 0)
    ensures RootSet(p) == {Root(p, rk, 0)}
  {
    forall r | r in RootSet(p)
      ensures r == Root(p, rk, 0)
    {
      assert Root(p, rk, r) == r;
    }
  }

  /** At least one set as soon as there is one element. */
  lemma SomeRoot(p: seq<nat>, rk: seq<nat>)
    requires WellRanked(p, rk) && |p| > 0
    ensures |RootSet(p)| >= 1
  {
    assert Root(p, rk, 0) in RootSet(p);
  }
}
