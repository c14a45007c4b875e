/**
 * `kruskalMST`: extract the graph, sort the edges by distance, and accept
 * each edge whose ends are still in different union-find sets, stopping as
 * soon as `|vertices| - 1` edges are accepted.
 *
 * The specification `Greedy` runs the same acceptance rule over all sorted
 * edges against the component labelling of `Components`, with no early stop
 * and no union-find; the method is proved to compute it.
 */
module Kruskal {
  import opened GeoJson
  import opened GeojsonParser
  import opened ParentForest
  import opened UnionFind
  import opened Components
  import opened Subsequences

  ghost predicate SortedByDistance(s: seq<Edge>) {
    forall i, j :: 0 <= i < j < |s| ==> s[i].distance <= s[j].distance
  }

  /** Inserts `e` after every edge of `s` that is not longer than it. */
  function InsertByDistance(e: Edge, s: seq<Edge>): (r: seq<Edge>)
    ensures |r| == |s| + 1
  {
    if s == [] then [e]
    else if e.distance < s[0].distance then [e] + s
    else [s[0]] + InsertByDistance(e, s[1..])
  }

  /** A lower bound of `e` and of all of `s` bounds the result of inserting. */
  lemma {:induction false} InsertBounded(e: Edge, s: seq<Edge>, m: real)
    requires e.distance >= m && forall x :: x in s ==> x.distance >= m
    ensures forall x :: x in InsertByDistance(e, s) ==> x.distance >= m
    decreases |s|
  {
    if s != [] && e.distance >= s[0].distance {
      assert forall x :: x in s[1..] ==> x in s;
      InsertBounded(e, s[1..], m);
    }
  }

  /** Inserting into a sorted list keeps it sorted. */
  lemma {:induction false} InsertKeepsSorted(e: Edge, s: seq<Edge>)
    requires SortedByDistance(s)
    ensures SortedByDistance(InsertByDistance(e, s))
    decreases |s|
  {
    if s != [] && e.distance >= s[0].distance {
      var rest := InsertByDistance(e, s[1..]);
      InsertKeepsSorted(e, s[1..]);
      forall x | x in s[1..]
        ensures x.distance >= s[0].distance
      {
        var k :| 0 <= k < |s[1..]| && s[1..][k] == x;
        assert x == s[k + 1];
      }
      InsertBounded(e, s[1..], s[0].distance);
      assert forall j :: 0 <= j < |rest| ==> rest[j] in rest;
    }
  }

  /** Inserting adds exactly `e`. */
  lemma {:induction false} InsertAddsOne(e: Edge, s: seq<Edge>)
    ensures multiset(InsertByDistance(e, s)) == multiset(s) + multiset{e}
    decreases |s|
  {
    if s != [] && e.distance >= s[0].distance {
      InsertAddsOne(e, s[1..]);
      assert s == [s[0]] + s[1..];
    }
  }

  /**
   * The sort of `kruskalMST`: a stable sort by ascending distance
   * (insertion sort, each edge placed after the earlier edges of equal
   * distance). `SortIsSorted`, `SortIsPermutation` and `SortIsStable` prove
   * that it is one.
   */
  function SortByDistance(es: seq<Edge>): (sorted: seq<Edge>)
    ensures |sorted| == |es|
  {
    if es == [] then []
    else InsertByDistance(es[|es| - 1], SortByDistance(es[..|es| - 1]))
  }

  /** The sorted list is ascending by distance. */
  lemma {:induction false} SortIsSorted(es: seq<Edge>)
    ensures SortedByDistance(SortByDistance(es))
    decreases |es|
  {
    if es != [] {
      var prev, last := es[..|es| - 1], es[|es| - 1];
      SortIsSorted(prev);
      InsertKeepsSorted(last, SortByDistance(prev));
    }
  }

  /** The sorted list is a permutation of the input. */
  lemma {:induction false} SortIsPermutation(es: seq<Edge>)
    ensures multiset(SortByDistance(es)) == multiset(es)
    decreases |es|
  {
    if es != [] {
      var prev, last := es[..|es| - 1], es[|es| - 1];
      SortIsPermutation(prev);
      InsertAddsOne(last, SortByDistance(prev));
      assert es == prev + [last];
    }
  }

  /** Sorting neither adds nor loses an edge. */
  lemma SortKeepsEdges(es: seq<Edge>)
    ensures forall x :: x in SortByDistance(es) <==> x in es
  {
    SortIsPermutation(es);
    forall x
      ensures x in SortByDistance(es) <==> x in es
    {
      assert x in SortByDistance(es) <==> x in multiset(SortByDistance(es));
      assert x in es <==> x in multiset(es);
    }
  }

  /** The edges of `s` whose distance is `w`, in their order in `s`. */
  function WithDistance(s: seq<Edge>, w: real): seq<Edge> {
    if s == [] then []
    else WithDistance(s[..|s| - 1], w) + (if s[|s| - 1].distance == w then [s[|s| - 1]] else [])
  }

  lemma {:induction false} WithDistanceConcat(a: seq<Edge>, b: seq<Edge>, w: real)
    ensures WithDistance(a + b, w) == WithDistance(a, w) + WithDistance(b, w)
    decreases |b|
  {
    if b != [] {
      assert (a + b)[..|a + b| - 1] == a + b[..|b| - 1];
      WithDistanceConcat(a, b[..|b| - 1], w);
    } else {
      assert a + b == a;
    }
  }

  lemma {:induction false} WithDistanceNone(s: seq<Edge>, w: real)
    requires forall x :: x in s ==> x.distance != w
    ensures WithDistance(s, w) == []
    decreases |s|
  {
    if s != [] {
      assert s[|s| - 1] in s;
      WithDistanceNone(s[..|s| - 1], w);
    }
  }

  lemma WithDistanceSingle(e: Edge, w: real)
    ensures WithDistance([e], w) == if e.distance == w then [e] else []
  {
    assert [e][..0] == [];
  }

  lemma {:induction false} InsertIsStable(e: Edge, s: seq<Edge>, w: real)
    requires SortedByDistance(s)
    ensures WithDistance(InsertByDistance(e, s), w) == WithDistance(s, w) + WithDistance([e], w)
    decreases |s|
  {
    WithDistanceSingle(e, w);
    if s == [] {
      assert InsertByDistance(e, s) == [e];
    } else if e.distance < s[0].distance {
      assert InsertByDistance(e, s) == [e] + s;
      WithDistanceConcat([e], s, w);
      if e.distance == w {
        WithDistanceNone(s, w);
      }
    } else {
      var rest := InsertByDistance(e, s[1..]);
      assert InsertByDistance(e, s) == [s[0]] + rest;
      assert SortedByDistance(s[1..]);
      assert s == [s[0]] + s[1..];
      InsertIsStable(e, s[1..], w);
      WithDistanceConcat([s[0]], rest, w);
      WithDistanceConcat([s[0]], s[1..], w);
    }
  }

  /**
   * The sort is stable: for every distance, the edges of that distance keep
   * their relative order.
   */
  lemma {:induction false} SortIsStable(es: seq<Edge>, w: real)
    ensures WithDistance(SortByDistance(es), w) == WithDistance(es, w)
    decreases |es|
  {
    if es != [] {
      var prev, last := es[..|es| - 1], es[|es| - 1];
      SortIsStable(prev, w);
      SortIsSorted(prev);
      InsertIsStable(last, SortByDistance(prev), w);
      WithDistanceSingle(last, w);
    }
  }

  /**
   * The greedy rule over `es` in order: an edge is accepted when the edges
   * accepted before it do not yet connect its ends.
   */
  ghost function Greedy(es: seq<Edge>, n: nat): (forest: seq<Edge>)
    requires EdgesWithin(es, n)
    ensures EdgesWithin(forest, n)
    decreases |es|
  {
    if es == [] then []
    else
      var e := es[|es| - 1];
      assert e in es;
      var prev := Greedy(es[..|es| - 1], n);
      if Connected(prev, n, e.fromIndex, e.toIndex) then prev else prev + [e]
  }

  /** The accepted edges form a forest: no accepted edge closes a cycle. */
  lemma {:induction false} GreedyIsForest(es: seq<Edge>, n: nat)
    requires EdgesWithin(es, n)
    ensures IsForest(Greedy(es, n), n)
    decreases |es|
  {
    if es != [] {
      var prev := Greedy(es[..|es| - 1], n);
      GreedyIsForest(es[..|es| - 1], n);
      assert (prev + [es[|es| - 1]])[..|prev|] == prev;
    }
  }

  /** The accepted edges are a subsequence of the candidates, in their order. */
  lemma {:induction false} GreedyIsSubsequence(es: seq<Edge>, n: nat)
    requires EdgesWithin(es, n)
    ensures IsSubsequence(Greedy(es, n), es)
    decreases |es|
  {
    if es != [] {
      var prefix, e := es[..|es| - 1], es[|es| - 1];
      var prev := Greedy(prefix, n);
      GreedyIsSubsequence(prefix, n);
      assert prefix + [e] == es;
      if Connected(prev, n, e.fromIndex, e.toIndex) {
        SubsequenceOfLonger(prev, prefix, e);
      } else {
        assert (prev + [e])[..|prev|] == prev;
      }
    }
  }

  /** Spanning: the ends of every candidate edge are connected by the accepted edges. */
  lemma {:induction false} GreedySpans(es: seq<Edge>, n: nat)
    requires EdgesWithin(es, n)
    ensures forall e :: e in es ==> Connected(Greedy(es, n), n, e.fromIndex, e.toIndex)
    decreases |es|
  {
    if es != [] {
      var prefix, last := es[..|es| - 1], es[|es| - 1];
      var prev := Greedy(prefix, n);
      GreedySpans(prefix, n);
      assert es == prefix + [last];
      if !Connected(prev, n, last.fromIndex, last.toIndex) {
        AddEdgeConnects(prev, n, last);
      }
    }
  }

  /**
   * Once the accepted edges connect every pair of vertices, no later edge is
   * accepted: stopping there gives the same result as running to the end.
   */
  lemma {:induction false} GreedySettled(es: seq<Edge>, n: nat, i: nat)
    requires EdgesWithin(es, n) && i <= |es|
    requires forall a, b :: 0 <= a < n && 0 <= b < n ==> Connected(Greedy(es[..i], n), n, a, b)
    ensures Greedy(es, n) == Greedy(es[..i], n)
    decreases |es|
  {
    if |es| > i {
      var prefix := es[..|es| - 1];
      assert prefix[..i] == es[..i];
      GreedySettled(prefix, n, i);
    } else {
      assert es[..i] == es;
    }
  }

  /**
   * One step of the loop: the union-find labelling `A` and the accepted edges
   * `forest` describe the same partition; the union of the ends of `e`
   * merges two classes exactly when the greedy choice accepts `e`, and the
   * two descriptions agree again afterwards.
   */
  lemma KruskalStep(es: seq<Edge>, i: nat, n: nat, A: seq<nat>, A2: seq<nat>, loser: nat, winner: nat)
    requires EdgesWithin(es, n) && i < |es| && |A| == n
    requires SamePartition(A, Labels(Greedy(es[..i], n), n))
    requires A[es[i].fromIndex] != A[es[i].toIndex] ==>
      ((loser == A[es[i].fromIndex] && winner == A[es[i].toIndex]) || (loser == A[es[i].toIndex] && winner == A[es[i].fromIndex]))
      && A2 == Rename(A, loser, winner)
    requires A[es[i].fromIndex] == A[es[i].toIndex] ==> A2 == A
    ensures Greedy(es[..i + 1], n) ==
      if A[es[i].fromIndex] != A[es[i].toIndex] then Greedy(es[..i], n) + [es[i]] else Greedy(es[..i], n)
    ensures SamePartition(A2, Labels(Greedy(es[..i + 1], n), n))
  {
    var e, prefix := es[i], es[..i];
    assert es[..i + 1][..i] == prefix && es[..i + 1][i] == e;
    var forest := Greedy(prefix, n);
    if A[e.fromIndex] != A[e.toIndex] {
      MergeKeepsSamePartition(A, Labels(forest, n), e.fromIndex, e.toIndex, loser, winner);
      assert (forest + [e])[..|forest|] == forest;
    }
  }

  /**
   * The early exit of the loop: once the union-find holds a single set and
   * describes the same partition as the edges accepted from the first `i`
   * candidates, the remaining candidates add nothing.
   */
  lemma OneSetSettles(p: seq<nat>, rk: seq<nat>, es: seq<Edge>, n: nat, i: nat)
    requires WellRanked(p, rk) && |RootSet(p)| == 1
    requires EdgesWithin(es, n) && i <= |es|
    requires SamePartition(RootLabels(p, rk), Labels(Greedy(es[..i], n), n))
    ensures Greedy(es, n) == Greedy(es[..i], n)
  {
    OneRootOneSet(p, rk);
    GreedySettled(es, n, i);
  }

  /**
   * A union-find with one set per component of `forest`, and the same sets,
   * holds a single set when `forest` connects every pair of the `n > 0`
   * vertices; the forest then has exactly `n - 1` edges.
   */
  lemma ConnectedForestSize(p: seq<nat>, rk: seq<nat>, forest: seq<Edge>, n: nat)
    requires WellRanked(p, rk) && |p| == n && EdgesWithin(forest, n)
    requires SamePartition(RootLabels(p, rk), Labels(forest, n))
    requires |RootSet(p)| == n - |forest|
    ensures n > 0 && (forall a, b :: 0 <= a < n && 0 <= b < n ==> Connected(forest, n, a, b)) ==>
      |forest| == n - 1
  {
    if n > 0 && forall a, b :: 0 <= a < n && 0 <= b < n ==> Connected(forest, n, a, b) {
      forall a | 0 <= a < n
        ensures Root(p, rk, a) == Root(p, rk, 0)
      {
        assert Connected(forest, n, a, 0);
        assert SameLabel(RootLabels(p, rk), a, 0);
      }
      AllSameRootOneSet(p, rk);
    }
  }

  /**
   * The forest `kruskalMST` is meant to return: the greedy choice over the
   * extracted edges sorted by distance.
   */
  ghost function KruskalForest(doc: Document, dist: (Coord, Coord) -> real): (forest: seq<Edge>)
    ensures EdgesWithin(forest, |Vertices(doc)|)
  {
    var edges := Edges(doc, dist);
    SortKeepsEdges(edges);
    Greedy(SortByDistance(edges), |Vertices(doc)|)
  }

  /**
   * The loop invariant of `kruskalMST`: the union-find over `n` elements has
   * one set per component of `forest`, and the same sets.
   */
  ghost predicate Tracks(uf: DisjointSet, forest: seq<Edge>, n: nat)
    reads uf, uf.parent, uf.rank
  {
    && uf.Valid() && uf.Size() == n && EdgesWithin(forest, n)
    && SamePartition(uf.Partition(), Labels(forest, n))
    && |uf.Sets()| == n - |forest|
  }

  /**
   * The body of the main loop: `uf.union` on the ends of `edge`. The edge is
   * accepted (the union merges two sets) exactly when the greedy choice over
   * the candidates so far accepts it, and the union-find keeps describing
   * the components of the accepted edges, one set per component.
   */
  method Offer(uf: DisjointSet, sorted: seq<Edge>, i: nat, n: nat, ghost forest: seq<Edge>) returns (merged: bool)
    requires EdgesWithin(sorted, n) && i < |sorted| && forest == Greedy(sorted[..i], n) && Tracks(uf, forest, n)
    modifies uf.parent, uf.rank
    ensures Greedy(sorted[..i + 1], n) == if merged then forest + [sorted[i]] else forest
    ensures Tracks(uf, Greedy(sorted[..i + 1], n), n)
  {
    var edge := sorted[i];
    assert edge in sorted;
    ghost var before := uf.Partition();
    ghost var loser, winner := uf.Loser(edge.fromIndex, edge.toIndex), uf.Winner(edge.fromIndex, edge.toIndex);
    merged := uf.Union(edge.fromIndex, edge.toIndex);
    KruskalStep(sorted, i, n, before, uf.Partition(), loser, winner);
  }

  /**
   * The main loop of `kruskalMST`: one union-find over the `n` vertices,
   * the sorted edges taken in order, an edge kept exactly when its union
   * merges two sets, and the loop left as soon as `n - 1` edges are kept.
   * The result is the greedy choice over all of `sorted`: the early exit
   * loses nothing. When that choice connects all `n` vertices it has
   * exactly `n - 1` edges.
   */
  method AcceptEdges(sorted: seq<Edge>, n: nat) returns (mstEdges: seq<Edge>)
    requires EdgesWithin(sorted, n)
    ensures mstEdges == Greedy(sorted, n)
    ensures n > 0 ==> |mstEdges| <= n - 1
    ensures n == 0 ==> mstEdges == []
    ensures n > 0 && (forall a, b :: 0 <= a < n && 0 <= b < n ==> Connected(mstEdges, n, a, b)) ==>
      |mstEdges| == n - 1
  {
    var uf := new DisjointSet(n);
    mstEdges := [];
    var i := 0;
    while i < |sorted|
      invariant 0 <= i <= |sorted|
      invariant fresh(uf.parent) && fresh(uf.rank)
      invariant mstEdges == Greedy(sorted[..i], n) && Tracks(uf, mstEdges, n)
    {
      var edge := sorted[i];
      var merged := Offer(uf, sorted, i, n, mstEdges);
      if merged {
        mstEdges := mstEdges + [edge];
        if |mstEdges| == n - 1 {
          OneSetSettles(uf.parent[..], uf.rank[..], sorted, n, i + 1);
          break;
        }
      }
      i := i + 1;
    }
    if i == |sorted| {
      TakeAll(sorted);
      if n > 0 {
        SomeRoot(uf.parent[..], uf.rank[..]);
        ConnectedForestSize(uf.parent[..], uf.rank[..], mstEdges, n);
      }
    }
  }

  /**
   * `kruskalMST`. The vertices are the extracted ones; the accepted edges are
   * the greedy choice over the stably sorted edges; they form a forest with
   * at most `|vertices| - 1` edges, keep the sorted order, and connect the
   * two ends of every extracted edge. When the extracted graph is connected,
   * the forest spans it with exactly `|vertices| - 1` edges.
   */
  method KruskalMST(doc: Document, dist: (Coord, Coord) -> real) returns (vertices: seq<Vertex>, mstEdges: seq<Edge>)
    ensures vertices == Vertices(doc)
    ensures mstEdges == KruskalForest(doc, dist)
    ensures |vertices| > 0 ==> |mstEdges| <= |vertices| - 1
    ensures |vertices| == 0 ==> mstEdges == []
    ensures IsForest(mstEdges, |vertices|)
    ensures IsSubsequence(mstEdges, SortByDistance(Edges(doc, dist)))
    ensures forall e :: e in Edges(doc, dist) ==> Connected(mstEdges, |vertices|, e.fromIndex, e.toIndex)
    ensures |vertices| > 0
      && (forall a, b :: 0 <= a < |vertices| && 0 <= b < |vertices| ==> Connected(Edges(doc, dist), |vertices|, a, b))
      ==> |mstEdges| == |vertices| - 1
  {
    if doc.Missing? {
      return [], [];
    }
    var edges;
    vertices, edges := ParseGeoJson(doc, dist);
    var sorted := SortByDistance(edges);
    var n := |vertices|;
    SortKeepsEdges(edges);
    assert EdgesWithin(sorted, n);

    mstEdges := AcceptEdges(sorted, n);
    GreedyIsForest(sorted, n);
    GreedyIsSubsequence(sorted, n);
    GreedySpans(sorted, n);
    ConnectedWithin(edges, mstEdges, n);
  }
}
