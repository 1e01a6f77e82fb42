/** The geometry tree the decoder builds: JTS's Point, LineString, Polygon
    (with LinearRing rings), MultiPoint, MultiLineString, MultiPolygon and
    GeometryCollection, each node carrying its own SRID. */
module Geometries {
  import opened Wire

  /** One coordinate: X, Y and an optional Z, as raw 64-bit words.
      An M ordinate is never kept. */
  datatype Coord = Coord(x: Word64, y: Word64, z: Option<Word64>)

  /** A LinearRing of a polygon, with its own SRID field. */
  datatype Ring = Ring(coords: seq<Coord>, srid: Int32)

  datatype Geometry =
    | Point(coord: Coord, srid: Int32)
    | LineString(coords: seq<Coord>, srid: Int32)
    | Polygon(shell: Ring, holes: seq<Ring>, srid: Int32)
    | MultiPoint(parts: seq<Geometry>, srid: Int32)
    | MultiLineString(parts: seq<Geometry>, srid: Int32)
    | MultiPolygon(parts: seq<Geometry>, srid: Int32)
    | GeometryCollection(parts: seq<Geometry>, srid: Int32)
  {
    /** The JTS GeometryCollection subclasses: the nodes that own children. */
    predicate IsCollection() {
      MultiPoint? || MultiLineString? || MultiPolygon? || GeometryCollection?
    }
  }

  /** Type codes of org.postgis.Geometry. */
  const POINT := 1
  const LINESTRING := 2
  const POLYGON := 3
  const MULTIPOINT := 4
  const MULTILINESTRING := 5
  const MULTIPOLYGON := 6
  const GEOMETRYCOLLECTION := 7

  /** The wire type code of a node. */
  function KindOf(g: Geometry): (k: int)
    ensures POINT <= k <= GEOMETRYCOLLECTION
    ensures g.IsCollection() <==> k >= MULTIPOINT
  {
    match g
    case Point(_, _) => POINT
    case LineString(_, _) => LINESTRING
    case Polygon(_, _, _) => POLYGON
    case MultiPoint(_, _) => MULTIPOINT
    case MultiLineString(_, _) => MULTILINESTRING
    case MultiPolygon(_, _) => MULTIPOLYGON
    case GeometryCollection(_, _) => GEOMETRYCOLLECTION
  }

  /** The collection node of type code `kind` holding `parts`. */
  function Collect(kind: int, parts: seq<Geometry>, srid: Int32): (g: Geometry)
    requires MULTIPOINT <= kind <= GEOMETRYCOLLECTION
    ensures g.IsCollection() && KindOf(g) == kind && g.parts == parts && g.srid == srid
  {
    if kind == MULTIPOINT then MultiPoint(parts, srid)
    else if kind == MULTILINESTRING then MultiLineString(parts, srid)
    else if kind == MULTIPOLYGON then MultiPolygon(parts, srid)
    else GeometryCollection(parts, srid)
  }

  /** Every ring has SRID `s`. */
  predicate RingsHaveSrid(rings: seq<Ring>, s: Int32)
  {
    forall i :: 0 <= i < |rings| ==> rings[i].srid == s
  }

  /** Every node of `g` at any depth, rings included, carries SRID `s`. */
  predicate Uniform(g: Geometry, s: Int32)
    decreases g, 1
  {
    g.srid == s && BelowHaveSrid(g, s)
  }

  /** Every ring and every node strictly below the root of `g` carries
      SRID `s` (the root's own field is not looked at). */
  predicate BelowHaveSrid(g: Geometry, s: Int32)
    decreases g, 0
  {
    match g
    case Point(_, _) => true
    case LineString(_, _) => true
    case Polygon(shell, holes, _) => shell.srid == s && RingsHaveSrid(holes, s)
    case _ => forall i :: 0 <= i < |g.parts| ==> Uniform(g.parts[i], s)
  }

  /** `g` and `h` differ at most in their SRID fields. */
  predicate SameShape(g: Geometry, h: Geometry)
  {
    match g
    case Point(c, _) => h.Point? && h.coord == c
    case LineString(cs, _) => h.LineString? && h.coords == cs
    case Polygon(shell, holes, _) =>
      h.Polygon? && h.shell.coords == shell.coords && |h.holes| == |holes| &&
      forall i :: 0 <= i < |holes| ==> h.holes[i].coords == holes[i].coords
    case _ =>
      h.IsCollection() && KindOf(h) == KindOf(g) && |h.parts| == |g.parts| &&
      forall i :: 0 <= i < |g.parts| ==> SameShape(g.parts[i], h.parts[i])
  }
}
