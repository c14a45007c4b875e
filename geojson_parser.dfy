/**
 * Graph extraction from a GeoJSON FeatureCollection.
 *
 * Pass 1 turns every Point feature into a vertex, in document order. Pass 2
 * turns every LineString whose first and last positions both lie within the
 * tolerance of some vertex into an edge between the first such vertices.
 * Kruskal's inline copy of this extraction is the same code and uses this
 * model too.
 *
 * The Haversine distance is a parameter `dist`; it is never evaluated here.
 */
module GeojsonParser {
  import opened GeoJson

  /** Matching tolerance in raw longitude/latitude units. */
  const Tolerance: real := 0.00001

  function Square(x: real): real {
    x * x
  }

  /**
   * The Euclidean distance between `a` and `b` is below the tolerance
   * (compared squared, which over the reals is the same test).
   */
  predicate Near(a: Coord, b: Coord): (near: bool)
    ensures a == b ==> near
    ensures near ==> -Tolerance < a.lon - b.lon < Tolerance && -Tolerance < a.lat - b.lat < Tolerance
  {
    SquareBelow(a.lon - b.lon, Square(a.lat - b.lat));
    SquareBelow(a.lat - b.lat, Square(a.lon - b.lon));
    Square(a.lon - b.lon) + Square(a.lat - b.lat) < Tolerance * Tolerance
  }

  /** A difference whose square, plus something non-negative, is below the squared tolerance is below the tolerance. */
  lemma SquareBelow(x: real, other: real)
    ensures other >= 0.0 && Square(x) + other < Tolerance * Tolerance ==> -Tolerance < x < Tolerance
  {
    if x >= Tolerance {
      assert x * x >= Tolerance * x >= Tolerance * Tolerance;
    } else if x <= -Tolerance {
      assert x * x >= -Tolerance * x >= Tolerance * Tolerance;
    }
  }

  /** Nearness does not depend on the order of the two positions. */
  lemma NearIsSymmetric(a: Coord, b: Coord)
    ensures Near(a, b) <==> Near(b, a)
  {
    assert Square(a.lon - b.lon) == Square(b.lon - a.lon);
    assert Square(a.lat - b.lat) == Square(b.lat - a.lat);
  }

  /** The least index `i >= from` whose vertex is near `c`, or -1 if there is none. */
  function FirstNearFrom(vs: seq<Vertex>, c: Coord, from: nat): (i: int)
    requires from <= |vs|
    ensures -1 <= i < |vs|
    ensures i == -1 <==> forall j :: from <= j < |vs| ==> !Near(vs[j].coords, c)
    ensures i != -1 ==> from <= i && Near(vs[i].coords, c)
    ensures i != -1 ==> forall j :: from <= j < i ==> !Near(vs[j].coords, c)
    decreases |vs| - from
  {
    if from == |vs| then -1
    else if Near(vs[from].coords, c) then from
    else FirstNearFrom(vs, c, from + 1)
  }

  /** The vertex a position resolves to: the first one within the tolerance, or -1. */
  method FindVertexIndex(vertices: seq<Vertex>, coord: Coord) returns (index: int)
    ensures index == FirstNearFrom(vertices, coord, 0)
  {
    for i := 0 to |vertices|
      invariant forall j :: 0 <= j < i ==> !Near(vertices[j].coords, coord)
    {
      if Near(vertices[i].coords, coord) {
        return i;
      }
    }
    return -1;
  }

  function DecimalDigit(d: nat): char
    requires d < 10
  {
    "0123456789"[d]
  }

  /** The decimal numeral of `n`, as a template literal prints it. */
  function NatToString(n: nat): (s: string)
    ensures |s| > 0
    decreases n
  {
    if n < 10 then [DecimalDigit(n)] else NatToString(n / 10) + [DecimalDigit(n % 10)]
  }

  /** A property value that is present and not the empty string (JavaScript truthiness). */
  predicate Truthy(o: Option<string>) {
    o.Some? && o.value != ""
  }

  /** The label of a vertex that has neither a name nor an id. */
  function PlaceholderId(idx: nat): string {
    "Point " + NatToString(idx)
  }

  /**
   * `name || id || "Point <idx>"`, where `idx` is the feature's position in
   * the whole feature list.
   */
  function VertexId(props: Properties, idx: nat): (id: string)
    ensures |id| > 0
    ensures Truthy(props.name) || Truthy(props.id) || (|id| >= 5 && id[..5] == "Point")
  {
    if Truthy(props.name) then props.name.value
    else if Truthy(props.id) then props.id.value
    else PlaceholderId(idx)
  }

  /** The vertex that the Point feature at position `j` becomes. */
  function VertexAt(fs: seq<Feature>, j: nat): Vertex
    requires j < |fs| && fs[j].geometry.Point?
  {
    Vertex(VertexId(fs[j].properties, j), fs[j].geometry.position)
  }

  /** Pass 1 over the first `k` features: the vertices pushed so far. */
  function PointVertices(fs: seq<Feature>, k: nat): seq<Vertex>
    requires k <= |fs|
  {
    if k == 0 then []
    else PointVertices(fs, k - 1) + (if fs[k - 1].geometry.Point? then [VertexAt(fs, k - 1)] else [])
  }

  /** The positions, among the first `k` features, of the Point features. */
  ghost function PointPositions(fs: seq<Feature>, k: nat): seq<nat>
    requires k <= |fs|
  {
    if k == 0 then []
    else PointPositions(fs, k - 1) + (if fs[k - 1].geometry.Point? then [k - 1] else [])
  }

  /**
   * The vertices are exactly the Point features, in document order, one each:
   * the `m`-th vertex comes from the `m`-th Point feature and carries its id
   * (by the id rule, with the feature's position in the whole list) and its
   * position.
   */
  lemma {:induction false} PointVerticesInOrder(fs: seq<Feature>, k: nat)
    requires k <= |fs|
    ensures |PointVertices(fs, k)| == |PointPositions(fs, k)|
    ensures forall m :: 0 <= m < |PointPositions(fs, k)| ==>
      var j := PointPositions(fs, k)[m];
      j < k && fs[j].geometry.Point? && PointVertices(fs, k)[m] == VertexAt(fs, j)
    ensures forall m1, m2 :: 0 <= m1 < m2 < |PointPositions(fs, k)| ==>
      PointPositions(fs, k)[m1] < PointPositions(fs, k)[m2]
    ensures forall j :: 0 <= j < k && fs[j].geometry.Point? ==> j in PointPositions(fs, k)
  {
    if k > 0 {
      PointVerticesInOrder(fs, k - 1);
    }
  }

  /** Both ends of a LineString resolve to a vertex. */
  predicate Resolves(path: Path, vs: seq<Vertex>) {
    FirstNearFrom(vs, path[0], 0) != -1 && FirstNearFrom(vs, path[|path| - 1], 0) != -1
  }

  /**
   * The edge of a resolved LineString. Its weight is the distance between the
   * LineString's own first and last positions.
   */
  function EdgeFor(path: Path, vs: seq<Vertex>, dist: (Coord, Coord) -> real): Edge
    requires Resolves(path, vs)
  {
    var s := FirstNearFrom(vs, path[0], 0);
    var t := FirstNearFrom(vs, path[|path| - 1], 0);
    Edge(vs[s].id, vs[t].id, s, t, dist(path[0], path[|path| - 1]), (vs[s].coords, vs[t].coords))
  }

  /** The feature at `j` is a LineString whose two ends resolve. */
  predicate ResolvedLine(f: Feature, vs: seq<Vertex>) {
    f.geometry.LineString? && Resolves(f.geometry.path, vs)
  }

  /** Pass 2 over the first `k` features: the edges pushed so far. */
  function LineEdges(fs: seq<Feature>, vs: seq<Vertex>, dist: (Coord, Coord) -> real, k: nat): (es: seq<Edge>)
    requires k <= |fs|
    ensures EdgesWithin(es, |vs|)
  {
    if k == 0 then []
    else
      LineEdges(fs, vs, dist, k - 1)
      + (if ResolvedLine(fs[k - 1], vs) then [EdgeFor(fs[k - 1].geometry.path, vs, dist)] else [])
  }

  /** The positions, among the first `k` features, of the resolved LineStrings. */
  ghost function LinePositions(fs: seq<Feature>, vs: seq<Vertex>, k: nat): seq<nat>
    requires k <= |fs|
  {
    if k == 0 then []
    else LinePositions(fs, vs, k - 1) + (if ResolvedLine(fs[k - 1], vs) then [k - 1] else [])
  }

  /**
   * Each LineString contributes at most one edge, exactly when both ends
   * resolve; edges follow the LineStrings' document order; no other feature
   * contributes an edge.
   */
  lemma {:induction false} LineEdgesInOrder(fs: seq<Feature>, vs: seq<Vertex>, dist: (Coord, Coord) -> real, k: nat)
    requires k <= |fs|
    ensures |LineEdges(fs, vs, dist, k)| == |LinePositions(fs, vs, k)|
    ensures forall m :: 0 <= m < |LinePositions(fs, vs, k)| ==>
      var j := LinePositions(fs, vs, k)[m];
      j < k && ResolvedLine(fs[j], vs) && LineEdges(fs, vs, dist, k)[m] == EdgeFor(fs[j].geometry.path, vs, dist)
    ensures forall m1, m2 :: 0 <= m1 < m2 < |LinePositions(fs, vs, k)| ==>
      LinePositions(fs, vs, k)[m1] < LinePositions(fs, vs, k)[m2]
    ensures forall j :: 0 <= j < k && ResolvedLine(fs[j], vs) ==> j in LinePositions(fs, vs, k)
  {
    if k > 0 {
      LineEdgesInOrder(fs, vs, dist, k - 1);
    }
  }

  /**
   * A LineString resolves exactly when each end has some vertex within the
   * tolerance; its edge then joins the first such vertices and copies their
   * ids and positions.
   */
  lemma EdgeJoinsFirstMatches(path: Path, vs: seq<Vertex>, dist: (Coord, Coord) -> real)
    ensures Resolves(path, vs) <==>
      (exists i :: 0 <= i < |vs| && Near(vs[i].coords, path[0])) &&
      (exists i :: 0 <= i < |vs| && Near(vs[i].coords, path[|path| - 1]))
    ensures Resolves(path, vs) ==>
      var e := EdgeFor(path, vs, dist);
      && e.fromIndex < |vs| && e.toIndex < |vs|
      && Near(vs[e.fromIndex].coords, path[0])
      && (forall j :: 0 <= j < e.fromIndex ==> !Near(vs[j].coords, path[0]))
      && Near(vs[e.toIndex].coords, path[|path| - 1])
      && (forall j :: 0 <= j < e.toIndex ==> !Near(vs[j].coords, path[|path| - 1]))
      && e.from == vs[e.fromIndex].id && e.to == vs[e.toIndex].id
      && e.coords == (vs[e.fromIndex].coords, vs[e.toIndex].coords)
  {
  }

  predicate IsFeatureCollection(doc: Document) {
    doc.Document? && doc.kind == "FeatureCollection"
  }

  /** The vertices extracted from a document (none unless it is a FeatureCollection). */
  function Vertices(doc: Document): seq<Vertex> {
    if IsFeatureCollection(doc) then PointVertices(doc.features, |doc.features|) else []
  }

  /** The edges extracted from a document (none unless it is a FeatureCollection). */
  function Edges(doc: Document, dist: (Coord, Coord) -> real): (es: seq<Edge>)
    ensures EdgesWithin(es, |Vertices(doc)|)
  {
    if IsFeatureCollection(doc) then LineEdges(doc.features, Vertices(doc), dist, |doc.features|) else []
  }

  /**
   * `parseGeoJSON`: the two passes over the features. A missing document or
   * one that is not a FeatureCollection gives no vertices and no edges.
   */
  method ParseGeoJson(doc: Document, dist: (Coord, Coord) -> real) returns (vertices: seq<Vertex>, edges: seq<Edge>)
    ensures vertices == Vertices(doc) && edges == Edges(doc, dist)
    ensures !IsFeatureCollection(doc) ==> vertices == [] && edges == []
  {
    if doc.Missing? || doc.kind != "FeatureCollection" {
      return [], [];
    }
    var features := doc.features;
    vertices := [];
    for idx := 0 to |features|
      invariant vertices == PointVertices(features, idx)
    {
      var feature := features[idx];
      if feature.geometry.Point? {
        vertices := vertices + [Vertex(VertexId(feature.properties, idx), feature.geometry.position)];
      }
    }
    edges := [];
    for k := 0 to |features|
      invariant edges == LineEdges(features, vertices, dist, k)
    {
      var feature := features[k];
      if feature.geometry.LineString? {
        var coords := feature.geometry.path;
        var startIdx := FindVertexIndex(vertices, coords[0]);
        var endIdx := FindVertexIndex(vertices, coords[|coords| - 1]);
        if startIdx != -1 && endIdx != -1 {
          var distance := dist(coords[0], coords[|coords| - 1]);
          edges := edges + [Edge(vertices[startIdx].id, vertices[endIdx].id, startIdx, endIdx, distance,
                                 (vertices[startIdx].coords, vertices[endIdx].coords))];
        }
      }
    }
  }
}
