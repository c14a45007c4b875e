/**
 * The already-deserialised GeoJSON document and the graph extracted from it.
 *
 * Coordinates are exact reals; floating-point rounding is not modelled. A
 * missing (falsy) document is `Missing`. A feature's `name` and `id`
 * properties are optional strings.
 */
module GeoJson {

  datatype Option<T> = None | Some(value: T)

  /** A `[longitude, latitude]` position. */
  datatype Coord = Coord(lon: real, lat: real)

  /** The positions of a LineString: never empty. */
  type Path = p: seq<Coord> | |p| > 0 witness [Coord(0.0, 0.0)]

  datatype Geometry =
    | Point(position: Coord)
    | LineString(path: Path)
    | OtherGeometry(kind: string)

  datatype Properties = Properties(name: Option<string>, id: Option<string>)

  datatype Feature = Feature(properties: Properties, geometry: Geometry)

  /** The input: absent, or an object with a `type` tag and its `features`. */
  datatype Document =
    | Missing
    | Document(kind: string, features: seq<Feature>)

  /** A vertex of the graph: a label and the Point's position. */
  datatype Vertex = Vertex(id: string, coords: Coord)

  /** An edge between the vertices at `fromIndex` and `toIndex`. */
  datatype Edge = Edge(
    from: string,
    to: string,
    fromIndex: nat,
    toIndex: nat,
    distance: real,
    coords: (Coord, Coord))

  /** Both ends of every edge are vertex indices below `n`. */
  ghost predicate EdgesWithin(es: seq<Edge>, n: nat) {
    forall e :: e in es ==> e.fromIndex < n && e.toIndex < n
  }
}
