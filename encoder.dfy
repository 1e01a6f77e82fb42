/** A reference writer of the binary format the decoder reads: the layout
    the decoder expects, written out forwards, so that decoding can be
    checked against it. Coordinates are written without M; a nested
    geometry is written without its own SRID, which it then inherits. */
module WkbEncoder {
  import opened Wire
  import opened ValueGetters
  import opened Geometries
  import opened JtsBinaryParser

  /** The type word for a header with kind `t.kind` and the three flags. */
  ghost function TypeWord(t: TypeInfo): Int32
    requires 0 <= t.kind < 0x2000_0000
  {
    ToInt32(t.kind + (if t.haveZ then 0x8000_0000 else 0) + (if t.haveM then 0x4000_0000 else 0)
            + (if t.haveS then 0x2000_0000 else 0))
  }

  /** A Java `int` in the byte order `e`: the four bytes that getInt
      reads back as `i` (there is exactly one such sequence). */
  ghost function IntBytes(i: Int32, e: Byte): (s: seq<Byte>)
    ensures |s| == 4 && UInt32At(s, e, 0) == FromInt32(i)
  {
    var d := BigEndian32(FromInt32(i));
    var w: seq<Byte> := if e == XDR then d else [d[3], d[2], d[1], d[0]];
    assert |w| == 4 && UInt32At(w, e, 0) == FromInt32(i);
    var s: seq<Byte> :| |s| == 4 && UInt32At(s, e, 0) == FromInt32(i);
    s
  }

  /** A raw double in the byte order `e`: the eight bytes that getDouble
      reads back as `x`. */
  ghost function WordBytes(x: Word64, e: Byte): (s: seq<Byte>)
    ensures |s| == 8 && Word64At(s, e, 0) == x
  {
    var d := BigEndian32(x / 0x1_0000_0000) + BigEndian32(x % 0x1_0000_0000);
    var w: seq<Byte> := if e == XDR then d else [d[7], d[6], d[5], d[4], d[3], d[2], d[1], d[0]];
    assert |w| == 8 && Word64At(w, e, 0) == x;
    var s: seq<Byte> :| |s| == 8 && Word64At(s, e, 0) == x;
    s
  }

  /** Every coordinate has a Z exactly when `z`. */
  ghost predicate CoordsHaveZ(cs: seq<Coord>, z: bool)
  {
    forall i :: 0 <= i < |cs| ==> cs[i].z.Some? == z
  }

  /** The Z flag written in a node's header: whether its (first)
      coordinate has a Z. A collection header carries no Z flag. */
  ghost function HasZ(g: Geometry): bool
  {
    match g
    case Point(c, _) => c.z.Some?
    case LineString(cs, _) => |cs| > 0 && cs[0].z.Some?
    case Polygon(shell, _, _) => |shell.coords| > 0 && shell.coords[0].z.Some?
    case _ => false
  }

  /** A ring or line whose count fits an `int` and whose coordinates all
      agree on Z with the header flag `z`. */
  ghost predicate CoordsWritable(cs: seq<Coord>, z: bool)
  {
    |cs| < 0x8000_0000 && CoordsHaveZ(cs, z)
  }

  ghost predicate RingsWritable(rings: seq<Ring>, z: bool)
  {
    forall i :: 0 <= i < |rings| ==> CoordsWritable(rings[i].coords, z)
  }

  /** A polygon the writer can express: the ring count R = |holes| + 1
      fits an `int` and every ring agrees with the Z flag. */
  ghost predicate PolygonWritable(shell: Ring, holes: seq<Ring>, z: bool)
  {
    |holes| < 0x7FFF_FFFF && CoordsWritable(shell.coords, z) && RingsWritable(holes, z)
  }

  /** The geometries the writer can express: counts fit an `int`, each
      node's coordinates agree on Z, and each collection's children are of
      the kind its typed array holds. */
  ghost predicate WellFormed(g: Geometry)
  {
    match g
    case Point(_, _) => true
    case LineString(cs, _) => CoordsWritable(cs, HasZ(g))
    case Polygon(shell, holes, _) => PolygonWritable(shell, holes, HasZ(g))
    case _ =>
      |g.parts| < 0x8000_0000 &&
      forall i :: 0 <= i < |g.parts| ==> Fits(ElementOf(KindOf(g)), g.parts[i]) && WellFormed(g.parts[i])
  }

  ghost function EncodeCoord(c: Coord, e: Byte, z: bool): (s: seq<Byte>)
    requires c.z.Some? == z
    ensures |s| == CoordSize(z, false)
  {
    WordBytes(c.x, e) + WordBytes(c.y, e) + (if z then WordBytes(c.z.value, e) else [])
  }

  /** The coordinates of `cs` from the `k`th on. */
  ghost function EncodeCoords(cs: seq<Coord>, k: nat, e: Byte, z: bool): seq<Byte>
    requires CoordsHaveZ(cs, z)
    decreases |cs| - k
  {
    if k >= |cs| then [] else EncodeCoord(cs[k], e, z) + EncodeCoords(cs, k + 1, e, z)
  }

  /** A slim coordinate array: its count, then the coordinates. */
  ghost function EncodeCS(cs: seq<Coord>, e: Byte, z: bool): seq<Byte>
    requires CoordsWritable(cs, z)
  {
    IntBytes(|cs|, e) + EncodeCoords(cs, 0, e, z)
  }

  /** The rings of `rings` from the `k`th on, each a slim coordinate array. */
  ghost function EncodeRings(rings: seq<Ring>, k: nat, e: Byte, z: bool): seq<Byte>
    requires RingsWritable(rings, z)
    decreases |rings| - k
  {
    if k >= |rings| then [] else EncodeCS(rings[k].coords, e, z) + EncodeRings(rings, k + 1, e, z)
  }

  /** A polygon body: the ring count, the shell, then the holes. */
  ghost function EncodePolygon(shell: Ring, holes: seq<Ring>, e: Byte, z: bool): seq<Byte>
    requires PolygonWritable(shell, holes, z)
  {
    IntBytes(|holes| + 1, e) + EncodeCS(shell.coords, e, z) + EncodeRings(holes, 0, e, z)
  }

  /** The header: byte order, type word, and the SRID if `withSrid`. */
  ghost function EncodeHeader(g: Geometry, e: Byte, withSrid: bool): seq<Byte>
  {
    [e] + IntBytes(TypeWord(TypeInfo(KindOf(g), HasZ(g), false, withSrid)), e)
    + (if withSrid then IntBytes(g.srid, e) else [])
  }

  /** The body of a node as its parse method reads it. */
  ghost function EncodeBody(g: Geometry, e: Byte): seq<Byte>
    requires WellFormed(g)
    decreases g, 1
  {
    match g
    case Point(c, _) => EncodeCoord(c, e, HasZ(g))
    case LineString(cs, _) => EncodeCS(cs, e, HasZ(g))
    case Polygon(shell, holes, _) => EncodePolygon(shell, holes, e, HasZ(g))
    case _ => IntBytes(|g.parts|, e) + EncodeParts(g, 0, e)
  }

  /** The children of collection `g` from the `k`th on, each a full
      geometry without its own SRID. */
  ghost function EncodeParts(g: Geometry, k: nat, e: Byte): seq<Byte>
    requires g.IsCollection() && WellFormed(g)
    decreases g, 0, |g.parts| - k
  {
    if k >= |g.parts| then [] else EncodeGeometry(g.parts[k], e, false) + EncodeParts(g, k + 1, e)
  }

  ghost function EncodeGeometry(g: Geometry, e: Byte, withSrid: bool): seq<Byte>
    requires WellFormed(g)
    decreases g, 2
  {
    EncodeHeader(g, e, withSrid) + EncodeBody(g, e)
  }

  /** A whole value: the SRID is written at the top when it is not 0. */
  ghost function Encode(g: Geometry, e: Byte): seq<Byte>
    requires WellFormed(g)
  {
    EncodeGeometry(g, e, g.srid != UNKNOWN_SRID)
  }
}
