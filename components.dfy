/**
 * Connectivity of an edge list over the vertices `[0, n)`, defined without
 * union-find: start with every vertex in a component of its own and, for
 * each edge in order, merge the component of its second end into that of
 * its first end. Two vertices are connected when they end up with the same
 * label. An edge list is a forest when every edge, at the point where it is
 * added, joins two different components (so it closes no cycle).
 */
module Components {
  import opened GeoJson
  import opened ParentForest

  /** Merges the component of `v` into the component of `u`. */
  function Relabel(labels: seq<nat>, u: nat, v: nat): (merged: seq<nat>)
    requires u < |labels| && v < |labels|
    ensures |merged| == |labels|
    ensures forall z :: 0 <= z < |labels| ==>
      merged[z] == if labels[z] == labels[v] then labels[u] else labels[z]
  {
    seq(|labels|, z requires 0 <= z < |labels| => if labels[z] == labels[v] then labels[u] else labels[z])
  }

  /** Every vertex in a component of its own. */
  function Singletons(n: nat): (labels: seq<nat>)
    ensures |labels| == n && forall z :: 0 <= z < n ==> labels[z] == z
  {
    seq(n, z requires 0 <= z < n => z)
  }

  /** The component label of every vertex once all of `es` has been merged. */
  ghost function Labels(es: seq<Edge>, n: nat): (labels: seq<nat>)
    requires EdgesWithin(es, n)
    ensures |labels| == n
    decreases |es|
  {
    if es == [] then Singletons(n)
    else
      var e := es[|es| - 1];
      assert e in es;
      Relabel(Labels(es[..|es| - 1], n), e.fromIndex, e.toIndex)
  }

  /** `a` and `b` carry the same label. */
  predicate SameLabel(labels: seq<nat>, a: nat, b: nat)
    requires a < |labels| && b < |labels|
  {
    labels[a] == labels[b]
  }

  /** `a` and `b` are in the same component of the graph `es`. */
  ghost predicate Connected(es: seq<Edge>, n: nat, a: nat, b: nat)
    requires EdgesWithin(es, n) && a < n && b < n
  {
    SameLabel(Labels(es, n), a, b)
  }

  /** Every edge joined two different components when it was added. */
  ghost predicate IsForest(es: seq<Edge>, n: nat)
    requires EdgesWithin(es, n)
    decreases |es|
  {
    es == [] ||
      var e := es[|es| - 1];
      assert e in es;
      IsForest(es[..|es| - 1], n) && !Connected(es[..|es| - 1], n, e.fromIndex, e.toIndex)
  }

  /**
   * Adding an edge keeps every connected pair connected and connects the
   * two ends of the new edge.
   */
  lemma AddEdgeConnects(es: seq<Edge>, n: nat, e: Edge)
    requires EdgesWithin(es + [e], n)
    ensures EdgesWithin(es, n)
    ensures Connected(es + [e], n, e.fromIndex, e.toIndex)
    ensures forall a, b :: 0 <= a < n && 0 <= b < n && Connected(es, n, a, b) ==> Connected(es + [e], n, a, b)
  {
    assert (es + [e])[..|es|] == es;
  }

  /** The two ends of every edge of `es` are connected by `es`. */
  lemma {:induction false} EdgeEndsConnected(es: seq<Edge>, n: nat)
    requires EdgesWithin(es, n)
    ensures forall e :: e in es ==> Connected(es, n, e.fromIndex, e.toIndex)
    decreases |es|
  {
    if es != [] {
      var prev, last := es[..|es| - 1], es[|es| - 1];
      assert es == prev + [last];
      EdgeEndsConnected(prev, n);
      AddEdgeConnects(prev, n, last);
    }
  }

  /** A forest has no self-loop: an edge from a vertex to itself closes a cycle. */
  lemma {:induction false} ForestHasNoSelfLoop(es: seq<Edge>, n: nat)
    requires EdgesWithin(es, n) && IsForest(es, n)
    ensures forall e :: e in es ==> e.fromIndex != e.toIndex
    decreases |es|
  {
    if es != [] {
      var prev := es[..|es| - 1];
      assert es == prev + [es[|es| - 1]];
      ForestHasNoSelfLoop(prev, n);
    }
  }

  /**
   * Connectivity is monotone: if `f` connects the two ends of every edge of
   * `es`, then `f` connects every pair that `es` connects.
   */
  lemma {:induction false} ConnectedWithin(es: seq<Edge>, f: seq<Edge>, n: nat)
    requires EdgesWithin(es, n) && EdgesWithin(f, n)
    requires forall e :: e in es ==> Connected(f, n, e.fromIndex, e.toIndex)
    ensures forall a, b :: 0 <= a < n && 0 <= b < n && Connected(es, n, a, b) ==> Connected(f, n, a, b)
    decreases |es|
  {
    if es != [] {
      var prev, e := es[..|es| - 1], es[|es| - 1];
      assert es == prev + [e];
      assert e in es;
      ConnectedWithin(prev, f, n);
      var u, v := e.fromIndex, e.toIndex;
      var L := Labels(prev, n);
      forall a, b | 0 <= a < n && 0 <= b < n && Connected(es, n, a, b)
        ensures Connected(f, n, a, b)
      {
        assert Connected(f, n, u, v);
        if L[a] == L[v] && L[b] != L[v] {
          assert Connected(prev, n, a, v) && Connected(prev, n, b, u);
        } else if L[a] != L[v] && L[b] == L[v] {
          assert Connected(prev, n, a, u) && Connected(prev, n, b, v);
        } else {
          assert Connected(prev, n, a, b);
        }
      }
    }
  }

  /** Two labellings of `[0, |A|)` that put the same pairs together. */
  ghost predicate SamePartition(A: seq<nat>, B: seq<nat>) {
    && |A| == |B|
    && forall a, b :: 0 <= a < |A| && 0 <= b < |A| ==> (SameLabel(A, a, b) <==> SameLabel(B, a, b))
  }

  /**
   * Merging the classes of `u` and `v` in two labellings of the same
   * partition gives labellings of the same partition again; on the left the
   * class `loser` is renamed `winner`, on the right `Relabel` merges.
   */
  lemma MergeKeepsSamePartition(A: seq<nat>, B: seq<nat>, u: nat, v: nat, loser: nat, winner: nat)
    requires SamePartition(A, B) && u < |A| && v < |A| && A[u] != A[v]
    requires (loser == A[u] && winner == A[v]) || (loser == A[v] && winner == A[u])
    ensures SamePartition(Rename(A, loser, winner), Relabel(B, u, v))
  {
    var A2, B2 := Rename(A, loser, winner), Relabel(B, u, v);
    forall a, b | 0 <= a < |A| && 0 <= b < |A|
      ensures SameLabel(A2, a, b) <==> SameLabel(B2, a, b)
    {
      assert SameLabel(A, a, u) <==> SameLabel(B, a, u);
      assert SameLabel(A, a, v) <==> SameLabel(B, a, v);
      assert SameLabel(A, b, u) <==> SameLabel(B, b, u);
      assert SameLabel(A, b, v) <==> SameLabel(B, b, v);
      assert SameLabel(A, a, b) <==> SameLabel(B, a, b);
    }
  }
}
