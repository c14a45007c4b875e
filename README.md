# Kruskal MST over GeoJSON — a Dafny model

The application reads a GeoJSON FeatureCollection and builds a graph from it.
Every `Point` feature becomes a vertex. Every `LineString` whose two ends lie
within a tolerance of 0.00001 (Euclidean, in raw longitude/latitude units) of
some vertex becomes an edge between the first such vertices. The application
then computes a minimum spanning forest with Kruskal's algorithm over a
union-find with path compression and union by rank. Edges are sorted stably by
distance, and the algorithm stops early once `|vertices| - 1` edges are
accepted. Finally, it repeatedly removes the edges of leaves whose label
starts with `Point` (the synthetic placeholder labels), until none is left.

The Dafny modules follow the source files:

- `ParentForest` (parent_forest.dfy): a union-find's `parent`/`rank` arrays as
  values. It covers the root of each element, the labelling "element ↦ its
  root", path compression and linking.
- `UnionFind` (union_find.dfy): the class `DisjointSet`, with `array<nat>`
  fields `parent` and `rank`. `Find` and `Union` are methods, proved against
  `ParentForest`. The same structure is written twice in the source: the
  closure factory `createUnionFind` and the `UnionFind` class of the Kruskal
  file. This one class models both copies.
- `GeoJson` and `GeojsonParser` (geojson.dfy, geojson_parser.dfy): the
  document, the vertices and edges, and the two extraction passes. The Kruskal
  file repeats this extraction inline, and `KruskalMST` calls this model for
  it.
- `Components` (components.dfy): connectivity of an edge list as a component
  labelling. `Subsequences` (subsequences.dfy): order-preserving
  subsequences.
- `Kruskal` (kruskal.dfy): the stable sort as insertion by distance, the
  greedy acceptance rule `Greedy` as the specification, and the imperative
  loop of `kruskalMST`, including the early `break`.
- `MstPruner` (mst_pruner.dfy): the class `EdgeList`, whose `items` the
  pruner splices in place, and the pruning loop. The fixed point `Pruned` is
  its specification.

## Model

| member | source | states |
|---|---|---|
| UnionFind.DisjointSet.constructor | src/utils/unionFind.js:1-5 | every element is its own parent with rank 0, so there are `size` singleton sets |
| UnionFind.DisjointSet.Find | src/utils/unionFind.js:9-14 | returns the root of `x` and points every element on the path from `x` at that root; no other entry changes, and no element changes set |
| UnionFind.DisjointSet.Link | src/utils/unionFind.js:25-33 | of two distinct roots, the lower-rank one goes under the other; on a tie `rootY` goes under `rootX`, whose rank grows by one; the sets are relabelled by renaming the loser to the winner, and there is one set fewer |
| UnionFind.DisjointSet.Union | src/utils/unionFind.js:19-35 | returns true exactly when `x` and `y` were in different sets; then their sets are merged under the winner's root (one set fewer) and nothing else changes set; both paths are compressed even when it returns false |
| ParentForest.CompressionKeepsPartition | src/utils/unionFind.js:9-14 | path compression keeps the forest well ranked and keeps every element's root and the set of roots |
| ParentForest.LinkMerges | src/utils/unionFind.js:25-33 | pointing a root at another root of higher (or, after a rank increase, strictly higher) rank keeps the forest well ranked, renames the loser's set to the winner, and removes exactly one root |
| ParentForest.OneRootOneSet | src/utils/kruskal.js:118-120 | a forest with a single root puts every element in the same set, which is what makes the early stop safe |
| GeojsonParser.Near | src/utils/geojsonParser.js:5-8 | defines the match test: Euclidean distance in raw longitude/latitude below 0.00001 (compared squared); every position matches itself, and a match differs by less than the tolerance in each coordinate |
| GeojsonParser.NearIsSymmetric | src/utils/geojsonParser.js:5-8 | the match test does not depend on the order of the two positions |
| GeojsonParser.VertexId | src/utils/geojsonParser.js:48 | defines the label rule `name`, else `id`, else `Point <idx>`, where a property counts only when present and non-empty (JavaScript truthiness); the label is never empty, and without a name or id it starts with `Point`; PointVerticesInOrder places each label on its vertex |
| MstPruner.HasPointPrefix | src/utils/mstPruner.js:20 | defines the `startsWith('Point')` test; it holds exactly when the label is `Point` followed by something |
| Kruskal.SortByDistance | src/utils/kruskal.js:109 | defines the stable sort by distance as insertion sort, keeping the length; SortIsSorted, SortIsPermutation and SortIsStable prove it is a stable sort |
| GeojsonParser.FirstNearFrom | src/utils/geojsonParser.js:3-13 | the least index whose vertex is within the tolerance of the position, or -1 exactly when there is none |
| GeojsonParser.FindVertexIndex | src/utils/geojsonParser.js:3-13 | the linear scan returns the first vertex within the tolerance, or -1 |
| GeojsonParser.PointVerticesInOrder | src/utils/geojsonParser.js:45-52 | the vertices are exactly the Point features, one each and in document order, each labelled `name`, else `id`, else `Point <position in the feature list>` |
| GeojsonParser.LineEdges | src/utils/geojsonParser.js:55-76 | every extracted edge joins two existing vertex indices |
| GeojsonParser.LineEdgesInOrder | src/utils/geojsonParser.js:55-76 | each LineString gives exactly one edge when both of its ends resolve and none otherwise; edges follow document order; no other feature gives an edge |
| GeojsonParser.EdgeJoinsFirstMatches | src/utils/geojsonParser.js:60-73 | a LineString resolves exactly when each end has some vertex within the tolerance; its edge joins the first such vertices and copies their ids and positions |
| GeojsonParser.Edges | src/utils/geojsonParser.js:36-79 | the extracted edges refer only to extracted vertices |
| GeojsonParser.ParseGeoJson | src/utils/geojsonParser.js:36-79 | the two passes compute the specified vertices and edges; a missing document or one that is not a FeatureCollection gives neither |
| MstPruner.PlaceholderIsUnnamed | src/utils/mstPruner.js:20 | every placeholder label starts with `Point`, so placeholder vertices are candidates for pruning |
| Kruskal.SortIsSorted | src/utils/kruskal.js:109 | the sorted edges ascend by distance |
| Kruskal.SortIsPermutation | src/utils/kruskal.js:109 | the sorted edges are a permutation of the extracted edges |
| Kruskal.SortKeepsEdges | src/utils/kruskal.js:109 | an edge is in the sorted list exactly when it was extracted |
| Kruskal.SortIsStable | src/utils/kruskal.js:109 | for every distance, the edges of that distance keep their relative order |
| Kruskal.GreedyIsForest | src/utils/kruskal.js:115-122 | no accepted edge joins two vertices that the earlier accepted edges already connect |
| Kruskal.GreedyIsSubsequence | src/utils/kruskal.js:115-122 | the accepted edges are a subsequence of the sorted edges |
| Kruskal.GreedySpans | src/utils/kruskal.js:115-122 | the accepted edges connect the two ends of every candidate edge |
| Kruskal.GreedySettled | src/utils/kruskal.js:118-120 | once the accepted edges connect all vertices, later candidates are all rejected |
| Kruskal.KruskalStep | src/utils/kruskal.js:116-117 | a union merges two sets exactly when the greedy rule accepts the edge, and the union-find sets still equal the components of the accepted edges afterwards |
| Kruskal.OneSetSettles | src/utils/kruskal.js:118-120 | a union-find holding one set that agrees with the accepted edges means the remaining candidates add nothing |
| Kruskal.Offer | src/utils/kruskal.js:116-117 | one loop step: the union's answer is the greedy decision, and the union-find keeps tracking the accepted edges with one set per component |
| Kruskal.AcceptEdges | src/utils/kruskal.js:112-122 | the loop, with its early break, returns exactly the greedy choice over all sorted edges, with at most `n - 1` edges, and exactly `n - 1` when those edges connect every pair of vertices |
| Kruskal.ConnectedForestSize | src/utils/kruskal.js:112-122 | a union-find with one set per component of the accepted edges, and the same sets, holds one set when they connect every pair, so there are then exactly `n - 1` of them |
| ParentForest.AllSameRootOneSet | src/utils/unionFind.js:9-14 | when every element has the same root, that root is the only one |
| Components.ConnectedWithin | src/utils/kruskal.js:115-122 | connectivity is monotone: edges that connect the ends of every edge of a graph connect every pair that graph connects |
| Kruskal.KruskalMST | src/utils/kruskal.js:66-125 | returns the extracted vertices and the greedy choice over the stably sorted edges; that choice is a forest with at most one fewer than the vertices edges, a subsequence of the sorted edges, connecting the ends of every extracted edge, with exactly one fewer than the vertices when the extracted edges connect every pair of vertices; a missing document gives nothing |
| Components.EdgeEndsConnected | src/utils/kruskal.js:115-122 | every edge's ends are connected by the edge list it belongs to |
| Components.ForestHasNoSelfLoop | src/utils/kruskal.js:19 | a forest never holds an edge from a vertex to itself (a union of a vertex with itself returns false) |
| Components.MergeKeepsSamePartition | src/utils/kruskal.js:116-117 | if the union-find labelling and the components agree, merging the two ends' sets in both keeps them in agreement |
| MstPruner.EdgeList.RemoveTouching | src/utils/mstPruner.js:26-34 | the back-to-front splice loop leaves exactly the edges that touch no leaf, in their original order |
| MstPruner.CountDegrees | src/utils/mstPruner.js:11-15 | each vertex's degree is the number of edge ends at it (a self-loop counts twice) |
| MstPruner.DegreePositive | src/utils/mstPruner.js:11-15 | a vertex has positive degree exactly when some edge touches it |
| MstPruner.FindUnnamedLeaves | src/utils/mstPruner.js:18-23 | the collected indices are exactly the vertices of degree 1 whose label starts with `Point`, in increasing order |
| MstPruner.KeepExactly | src/utils/mstPruner.js:26-34 | a pass keeps exactly the edges that touch no leaf, in order, and removes at least one edge when some edge touches a leaf |
| MstPruner.KeepTwice | src/utils/mstPruner.js:7-35 | two passes remove exactly the edges that touch a leaf of either pass |
| MstPruner.KeepConcat | src/utils/mstPruner.js:28-33 | removal works edge by edge, so it distributes over concatenation |
| MstPruner.KeepWithin | src/utils/mstPruner.js:26-34 | removing edges keeps every remaining index within the vertices |
| MstPruner.PassShrinks | src/utils/mstPruner.js:26-34 | a pass that finds a leaf removes at least one edge, so the loop terminates |
| MstPruner.PrunedIsKeep | src/utils/mstPruner.js:7-35 | the final edges are the input minus the edges that touch some removed leaf, and every removed leaf is a vertex whose label starts with `Point` |
| MstPruner.PrunedIsSubsequence | src/utils/mstPruner.js:7-35 | pruning only removes edges and keeps the order of the rest |
| MstPruner.PrunedHasNoUnnamedLeaf | src/utils/mstPruner.js:7-35 | after pruning, no vertex whose label starts with `Point` has degree 1 |
| MstPruner.PruneIsIdempotent | src/utils/mstPruner.js:4-38 | pruning pruned edges changes nothing |
| MstPruner.NamedEdgeSurvives | src/utils/mstPruner.js:20 | an edge between two vertices whose labels do not start with `Point` is never removed |
| MstPruner.NamedEndInOnePass | src/utils/mstPruner.js:29-30 | in one pass, an edge with a named start is removed exactly when its other end is an unnamed leaf |
| MstPruner.PruneUnnamedLeaves | src/utils/mstPruner.js:4-38 | the loop mutates and returns the same edge list; its items become the fixed point of pruning; it runs at most one pass more than there are edges, and exactly one pass on an empty list |

## Left out

- The Haversine distance (src/utils/geojsonParser.js:17-33, src/utils/kruskal.js:48-64) is a function parameter `dist`. Floating-point arithmetic is not modelled: coordinates and distances are exact reals.
- `findVertexIndex` compares the Euclidean distance with the tolerance. The model compares the squared distance with the squared tolerance, which over the reals is the same test; `Math.sqrt` rounding is not modelled.
- JavaScript's dynamic typing is not modelled. The model has no feature without a geometry, no numeric `id` property (on which `startsWith` would throw), and no LineString without positions (`Path` is never empty).
- The sort's comparator is modelled as a stable insertion sort by distance. Array.prototype.sort is stable, and `NaN` distances are not modelled.
- The union-find, the pruner and `kruskalMST` are modelled only for edges whose indices are vertex indices. This holds for every edge the extraction produces. Out-of-range indices, which JavaScript turns into sparse-array entries, are excluded by `requires`.
- The minimum-total-weight property of the spanning forest is not proved. The model proves that the result is the greedy choice over the sorted edges, a forest, a subsequence of them, and spanning.
- MstPruner.PruneUnnamedLeaves: the number of passes is a ghost out-parameter, because the source does not return it.
- The pages and components of the user interface (src/App.jsx, src/pages/HomePage.jsx, src/components/) are not part of this model.

Details of the code that the model follows as written:

- An edge's distance is taken between the LineString's own first and last positions, not between the matched vertices' stored positions (src/utils/geojsonParser.js:64).
- The number in a placeholder label `Point <n>` is the feature's position in the whole feature list, not its position among the Point features (src/utils/geojsonParser.js:45-48).
- A union that returns false has still compressed both paths (src/utils/unionFind.js:20-23).
- A vertex whose given name happens to start with `Point` is treated as unnamed by the pruner (src/utils/mstPruner.js:20).
