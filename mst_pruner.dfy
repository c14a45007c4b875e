/**
 * `pruneUnnamedLeaves`: repeatedly drop the tree edges that end at an
 * unnamed leaf (a vertex of degree one whose id starts with "Point") until a
 * pass finds no such leaf. The edge list is one array, shortened in place.
 *
 * `Pruned` is the fixed point as a function of the edge values; the method
 * is proved to compute it, and the lemmas say what it keeps and drops.
 */
module MstPruner {
  import opened GeoJson
  import opened GeojsonParser
  import opened Subsequences

  /** The edge array that the pruner shortens in place and returns. */
  class EdgeList {
    var items: seq<Edge>

    constructor (edges: seq<Edge>)
      ensures items == edges
    {
      items := edges;
    }

    /**
     * One removal sweep, from the last edge to the first: every edge with an
     * end in `leaves` is spliced out; the others stay, in order.
     */
    method RemoveTouching(leaves: seq<nat>)
      modifies this
      ensures items == Keep(old(items), Elements(leaves))
    {
      ghost var original := items;
      ghost var leafSet := Elements(leaves);
      var i := |items|;
      while i > 0
        invariant 0 <= i <= |original|
        invariant items == original[..i] + Keep(original[i..], leafSet)
      {
        i := i - 1;
        ghost var rest := Keep(original[i + 1..], leafSet);
        KeepAt(original, i, leafSet);
        SplitAt(items, original[..i], original[i], rest);
        if items[i].fromIndex in leaves || items[i].toIndex in leaves {
          items := items[..i] + items[i + 1..];
        }
      }
    }
  }

  /** Keeping from position `i` is deciding on `s[i]` and keeping from `i + 1`. */
  lemma KeepAt(s: seq<Edge>, i: nat, leaves: set<nat>)
    requires i < |s|
    ensures s[..i + 1] == s[..i] + [s[i]]
    ensures Keep(s[i..], leaves) == (if Touches(s[i], leaves) then [] else [s[i]]) + Keep(s[i + 1..], leaves)
  {
    assert s[i..][1..] == s[i + 1..];
  }

  /** Splicing `x` out of `pre + [x] + rest` leaves `pre + rest`. */
  lemma SplitAt(items: seq<Edge>, pre: seq<Edge>, x: Edge, rest: seq<Edge>)
    requires items == pre + [x] + rest
    ensures items[|pre|] == x && items[..|pre|] + items[|pre| + 1..] == pre + rest
  {
    assert items[..|pre|] == pre && items[|pre| + 1..] == rest;
  }

  /** The vertices listed in `s`. */
  function Elements(s: seq<nat>): set<nat> {
    set v | v in s
  }

  /** `startsWith('Point')`: the mark of an unnamed vertex. */
  predicate HasPointPrefix(id: string): (unnamed: bool)
    ensures unnamed <==> exists rest :: id == "Point" + rest
  {
    if |id| >= 5 && id[..5] == "Point" then
      assert id == "Point" + id[5..];
      true
    else
      false
  }

  /** Every placeholder id of a vertex with neither name nor id is unnamed. */
  lemma PlaceholderIsUnnamed(idx: nat)
    ensures HasPointPrefix(PlaceholderId(idx))
  {
    assert PlaceholderId(idx)[..5] == "Point";
  }

  /** The number of edge ends at `v` (an edge from `v` to `v` counts twice). */
  function Degree(es: seq<Edge>, v: nat): nat
    decreases |es|
  {
    if es == [] then 0
    else
      var e := es[|es| - 1];
      Degree(es[..|es| - 1], v) + (if e.fromIndex == v then 1 else 0) + (if e.toIndex == v then 1 else 0)
  }

  /** `e` has an end at `v`. */
  predicate Incident(e: Edge, v: nat) {
    e.fromIndex == v || e.toIndex == v
  }

  /** A vertex has a positive degree exactly when some edge has an end at it. */
  lemma {:induction false} DegreePositive(es: seq<Edge>, v: nat)
    ensures Degree(es, v) > 0 <==> exists e :: e in es && Incident(e, v)
    decreases |es|
  {
    if es != [] {
      var prev, last := es[..|es| - 1], es[|es| - 1];
      DegreePositive(prev, v);
      assert es == prev + [last];
      if Degree(prev, v) > 0 {
        var e :| e in prev && Incident(e, v);
        assert e in es;
      } else if Incident(last, v) {
        assert last in es;
      }
      forall e | e in es && Incident(e, v)
        ensures Degree(es, v) > 0
      {
        if e != last {
          assert e in prev;
        }
      }
    }
  }

  /** The degree array of one pass: `degree[v]` counts the edge ends at `v`. */
  method CountDegrees(es: seq<Edge>, n: nat) returns (degree: seq<nat>)
    requires EdgesWithin(es, n)
    ensures |degree| == n
    ensures forall v :: 0 <= v < n ==> degree[v] == Degree(es, v)
  {
    var counts := new nat[n](_ => 0);
    for k := 0 to |es|
      invariant forall v :: 0 <= v < n ==> counts[v] == Degree(es[..k], v)
    {
      var edge := es[k];
      assert edge in es;
      assert es[..k + 1][..k] == es[..k] && es[..k + 1][k] == edge;
      counts[edge.fromIndex] := counts[edge.fromIndex] + 1;
      counts[edge.toIndex] := counts[edge.toIndex] + 1;
    }
    assert es[..|es|] == es;
    degree := counts[..];
  }

  /** A vertex of degree one whose id starts with "Point". */
  predicate IsUnnamedLeaf(degree: seq<nat>, vs: seq<Vertex>, v: nat)
    requires |degree| == |vs|
  {
    v < |vs| && degree[v] == 1 && HasPointPrefix(vs[v].id)
  }

  /** The unnamed leaves of one pass, in increasing order. */
  method FindUnnamedLeaves(degree: seq<nat>, vertices: seq<Vertex>) returns (leaves: seq<nat>)
    requires |degree| == |vertices|
    ensures forall v: nat :: v in leaves <==> IsUnnamedLeaf(degree, vertices, v)
    ensures forall a, b :: 0 <= a < b < |leaves| ==> leaves[a] < leaves[b]
  {
    leaves := [];
    for i := 0 to |vertices|
      invariant forall v: nat :: v in leaves <==> v < i && IsUnnamedLeaf(degree, vertices, v)
      invariant forall a, b :: 0 <= a < b < |leaves| ==> leaves[a] < leaves[b]
      invariant forall a :: 0 <= a < |leaves| ==> leaves[a] < i
    {
      if degree[i] == 1 && HasPointPrefix(vertices[i].id) {
        leaves := leaves + [i];
      }
    }
  }

  /** The unnamed leaves of the graph `es` over the vertices `vs`. */
  ghost function UnnamedLeaves(es: seq<Edge>, vs: seq<Vertex>): set<nat> {
    set v: nat | v < |vs| && Degree(es, v) == 1 && HasPointPrefix(vs[v].id)
  }

  /** `e` has an end in `leaves`. */
  predicate Touches(e: Edge, leaves: set<nat>) {
    e.fromIndex in leaves || e.toIndex in leaves
  }

  /** The edges of `es` with no end in `leaves`, in order. */
  function Keep(es: seq<Edge>, leaves: set<nat>): seq<Edge>
    decreases |es|
  {
    if es == [] then []
    else (if Touches(es[0], leaves) then [] else [es[0]]) + Keep(es[1..], leaves)
  }

  /**
   * One pass removes exactly the edges with an end in `leaves`: an edge is
   * kept if and only if it is an edge of `es` with no end there. The kept
   * edges keep their order, and an edge touching `leaves` shortens the list.
   */
  lemma {:induction false} KeepExactly(es: seq<Edge>, leaves: set<nat>)
    ensures forall e :: e in Keep(es, leaves) <==> e in es && !Touches(e, leaves)
    ensures IsSubsequence(Keep(es, leaves), es)
    ensures |Keep(es, leaves)| <= |es|
    ensures (exists e :: e in es && Touches(e, leaves)) ==> |Keep(es, leaves)| < |es|
    decreases |es|
  {
    if es != [] {
      var rest := es[1..];
      KeepExactly(rest, leaves);
      assert es == [es[0]] + rest;
      KeepPrepend(es[0], rest, leaves);
    }
  }

  /** Prepending an edge extends a subsequence by it, or leaves it one. */
  lemma KeepPrepend(e: Edge, s: seq<Edge>, leaves: set<nat>)
    requires IsSubsequence(Keep(s, leaves), s)
    ensures IsSubsequence(Keep([e] + s, leaves), [e] + s)
  {
    var kept := Keep(s, leaves);
    assert ([e] + s)[1..] == s;
    assert Keep([e] + s, leaves) == (if Touches(e, leaves) then [] else [e]) + kept;
    if Touches(e, leaves) {
      SubsequencePrepend(kept, s, e);
      assert Keep([e] + s, leaves) == kept;
    } else {
      SubsequenceConsBoth(kept, s, e);
    }
  }

  /** Removing with `a` and then with `b` is removing with both at once. */
  lemma {:induction false} KeepTwice(es: seq<Edge>, a: set<nat>, b: set<nat>)
    ensures Keep(Keep(es, a), b) == Keep(es, a + b)
    decreases |es|
  {
    if es != [] {
      KeepTwice(es[1..], a, b);
      var head := if Touches(es[0], a) then [] else [es[0]];
      KeepConcat(head, Keep(es[1..], a), b);
      if !Touches(es[0], a) {
        assert ([es[0]] + [])[1..] == [];
        assert Keep([es[0]], b) == (if Touches(es[0], b) then [] else [es[0]]) + Keep([], b);
      }
    }
  }

  lemma {:induction false} KeepConcat(s: seq<Edge>, t: seq<Edge>, leaves: set<nat>)
    ensures Keep(s + t, leaves) == Keep(s, leaves) + Keep(t, leaves)
    decreases |s|
  {
    if s == [] {
      assert s + t == t;
    } else {
      assert (s + t)[0] == s[0] && (s + t)[1..] == s[1..] + t;
      KeepConcat(s[1..], t, leaves);
    }
  }

  /** An edge list whose ends all lie below `n` keeps that property when pruned. */
  lemma KeepWithin(es: seq<Edge>, leaves: set<nat>, n: nat)
    requires EdgesWithin(es, n)
    ensures EdgesWithin(Keep(es, leaves), n)
  {
    KeepExactly(es, leaves);
  }

  /** A pass that finds an unnamed leaf removes at least one edge. */
  lemma PassShrinks(es: seq<Edge>, vs: seq<Vertex>)
    requires UnnamedLeaves(es, vs) != {}
    ensures |Keep(es, UnnamedLeaves(es, vs))| < |es|
  {
    var leaves := UnnamedLeaves(es, vs);
    var v :| v in leaves;
    DegreePositive(es, v);
    var e :| e in es && Incident(e, v);
    assert Touches(e, leaves);
    KeepExactly(es, leaves);
  }

  /**
   * The fixed point of the passes: while some unnamed leaf exists, drop every
   * edge that touches one; stop when a pass finds none.
   */
  ghost function Pruned(es: seq<Edge>, vs: seq<Vertex>): seq<Edge>
    decreases |es|
  {
    var leaves := UnnamedLeaves(es, vs);
    if leaves == {} then es
    else
      PassShrinks(es, vs);
      Pruned(Keep(es, leaves), vs)
  }

  /** Every vertex dropped by some pass, over all passes. */
  ghost function Dropped(es: seq<Edge>, vs: seq<Vertex>): set<nat>
    decreases |es|
  {
    var leaves := UnnamedLeaves(es, vs);
    if leaves == {} then {}
    else
      PassShrinks(es, vs);
      leaves + Dropped(Keep(es, leaves), vs)
  }

  /**
   * All passes together remove exactly the edges that touch a dropped
   * vertex, and every dropped vertex has an id starting with "Point".
   */
  lemma {:induction false} PrunedIsKeep(es: seq<Edge>, vs: seq<Vertex>)
    ensures Pruned(es, vs) == Keep(es, Dropped(es, vs))
    ensures forall v :: v in Dropped(es, vs) ==> v < |vs| && HasPointPrefix(vs[v].id)
    decreases |es|
  {
    var leaves := UnnamedLeaves(es, vs);
    if leaves == {} {
      KeepNothing(es);
    } else {
      PassShrinks(es, vs);
      var next := Keep(es, leaves);
      PrunedIsKeep(next, vs);
      KeepTwice(es, leaves, Dropped(next, vs));
    }
  }

  lemma {:induction false} KeepNothing(es: seq<Edge>)
    ensures Keep(es, {}) == es
    decreases |es|
  {
    if es != [] {
      KeepNothing(es[1..]);
      assert es == [es[0]] + es[1..];
    }
  }

  /** The pruned edges are a subsequence of the input: nothing added, order kept. */
  lemma PrunedIsSubsequence(es: seq<Edge>, vs: seq<Vertex>)
    ensures IsSubsequence(Pruned(es, vs), es)
    ensures forall e :: e in Pruned(es, vs) ==> e in es
  {
    PrunedIsKeep(es, vs);
    KeepExactly(es, Dropped(es, vs));
  }

  /** After pruning no unnamed leaf is left: every remaining leaf is named. */
  lemma {:induction false} PrunedHasNoUnnamedLeaf(es: seq<Edge>, vs: seq<Vertex>)
    ensures UnnamedLeaves(Pruned(es, vs), vs) == {}
    decreases |es|
  {
    var leaves := UnnamedLeaves(es, vs);
    if leaves != {} {
      PassShrinks(es, vs);
      PrunedHasNoUnnamedLeaf(Keep(es, leaves), vs);
    }
  }

  /** Pruning the pruned edges again removes nothing. */
  lemma PruneIsIdempotent(es: seq<Edge>, vs: seq<Vertex>)
    ensures Pruned(Pruned(es, vs), vs) == Pruned(es, vs)
  {
    PrunedHasNoUnnamedLeaf(es, vs);
  }

  /**
   * An edge whose two ends both have ids not starting with "Point" is never
   * removed.
   */
  lemma NamedEdgeSurvives(es: seq<Edge>, vs: seq<Vertex>, e: Edge)
    requires e in es && e.fromIndex < |vs| && e.toIndex < |vs|
    requires !HasPointPrefix(vs[e.fromIndex].id) && !HasPointPrefix(vs[e.toIndex].id)
    ensures e in Pruned(es, vs)
  {
    PrunedIsKeep(es, vs);
    KeepExactly(es, Dropped(es, vs));
  }

  /**
   * Within one pass, an edge with a named end is removed exactly when its
   * other end is an unnamed leaf of that pass.
   */
  lemma NamedEndInOnePass(es: seq<Edge>, vs: seq<Vertex>, e: Edge)
    requires e in es && e.fromIndex < |vs| && !HasPointPrefix(vs[e.fromIndex].id)
    ensures e in Keep(es, UnnamedLeaves(es, vs)) <==> e.toIndex !in UnnamedLeaves(es, vs)
  {
    KeepExactly(es, UnnamedLeaves(es, vs));
  }

  /**
   * `pruneUnnamedLeaves`. Each pass recomputes the degrees, collects the
   * unnamed leaves and, if there are any, splices out the edges that touch
   * them; the loop stops after the first pass that finds none. The same edge
   * array comes back, now holding `Pruned` of its old contents. The number
   * of passes is at least one and at most one more than the number of edges.
   */
  method PruneUnnamedLeaves(mstEdges: EdgeList, vertices: seq<Vertex>) returns (result: EdgeList, ghost passes: nat)
    requires EdgesWithin(mstEdges.items, |vertices|)
    modifies mstEdges
    ensures result == mstEdges
    ensures mstEdges.items == Pruned(old(mstEdges.items), vertices)
    ensures 1 <= passes <= |old(mstEdges.items)| + 1
    ensures old(mstEdges.items) == [] ==> passes == 1 && mstEdges.items == []
  {
    ghost var original := mstEdges.items;
    var pruned := true;
    passes := 0;
    while pruned
      invariant EdgesWithin(mstEdges.items, |vertices|)
      invariant Pruned(mstEdges.items, vertices) == Pruned(original, vertices)
      invariant pruned ==> passes + |mstEdges.items| <= |original|
      invariant !pruned ==> UnnamedLeaves(mstEdges.items, vertices) == {} && 1 <= passes <= |original| + 1
      decreases |mstEdges.items| + (if pruned then 1 else 0)
    {
      pruned := false;
      passes := passes + 1;
      var degree := CountDegrees(mstEdges.items, |vertices|);
      var leafToRemove := FindUnnamedLeaves(degree, vertices);
      ghost var before := mstEdges.items;
      ghost var leaves := UnnamedLeaves(before, vertices);
      assert Elements(leafToRemove) == leaves;
      if |leafToRemove| > 0 {
        assert leafToRemove[0] in leaves;
        pruned := true;
        PassShrinks(mstEdges.items, vertices);
        KeepWithin(mstEdges.items, leaves, |vertices|);
        mstEdges.RemoveTouching(leafToRemove);
        assert mstEdges.items == Keep(before, leaves);
      } else {
        assert leaves == {};
      }
    }
    result := mstEdges;
  }
}
