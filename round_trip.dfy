/** Decoding what the reference writer wrote gives the geometry back:
    the type word, the numbers, the coordinate arrays, the polygon's rings
    and every child of a collection, in both byte orders. */
module RoundTrip {
  import opened Wire
  import opened ValueGetters
  import opened Geometries
  import opened JtsBinaryParser
  import opened WkbEncoder

  // ---------------------------------------------------------------------
  // The type word

  /** A type word is split into exactly the kind and the flags it was built from. */
  lemma TypeWordRoundTrip(t: TypeInfo)
    requires 0 <= t.kind < 0x2000_0000
    ensures DecodeTypeWord(TypeWord(t)) == t
  {
    var z := if t.haveZ then 1 else 0;
    var m := if t.haveM then 1 else 0;
    var s := if t.haveS then 1 else 0;
    var u := (4 * z + 2 * m + s) * 0x2000_0000 + t.kind;
    Int32RoundTrip(u);
    assert u % 0x2000_0000 == t.kind;
    assert u / 0x2000_0000 % 2 == s;
    assert u / 0x4000_0000 % 2 == m;
    assert u / 0x8000_0000 == z;
  }

  /** Every 32-bit word is some kind below 2^29 with some three flags:
      splitting a word and building it again gives the word back. */
  lemma TypeWordOnto(w: Int32)
    ensures 0 <= DecodeTypeWord(w).kind < 0x2000_0000
    ensures TypeWord(DecodeTypeWord(w)) == w
  {
    var u := FromInt32(w);
    var k := u % 0x2000_0000;
    var q := u / 0x2000_0000;
    assert u == q * 0x2000_0000 + k && 0 <= q < 8;
    assert u / 0x8000_0000 == q / 4 && u / 0x4000_0000 == q / 2;
  }

  // ---------------------------------------------------------------------
  // Bytes at a position

  /** `b` holds `s` at `pos`. */
  predicate At(b: seq<Byte>, pos: nat, s: seq<Byte>)
  {
    pos + |s| <= |b| && forall k :: 0 <= k < |s| ==> s[k] == b[pos + k]
  }

  lemma AtBound(b: seq<Byte>, pos: nat, s: seq<Byte>)
    requires At(b, pos, s)
    ensures pos + |s| <= |b|
  {
  }

  lemma AtSplit(b: seq<Byte>, pos: nat, s: seq<Byte>, t: seq<Byte>)
    requires At(b, pos, s + t)
    ensures At(b, pos, s) && At(b, pos + |s|, t)
  {
    forall k | 0 <= k < |s|
      ensures s[k] == b[pos + k]
    {
      assert (s + t)[k] == s[k];
    }
    forall k | 0 <= k < |t|
      ensures t[k] == b[pos + |s| + k]
    {
      assert (s + t)[|s| + k] == t[k];
    }
  }

  lemma AtByte(b: seq<Byte>, pos: nat, s: seq<Byte>, k: nat)
    requires At(b, pos, s) && k < |s|
    ensures pos + k < |b| && b[pos + k] == s[k]
  {
  }

  lemma AtAll(b: seq<Byte>)
    ensures At(b, 0, b)
  {
  }

  lemma ReadIntAt(b: seq<Byte>, e: Byte, pos: nat, i: Int32)
    requires At(b, pos, IntBytes(i, e))
    ensures ReadInt(b, e, pos) == Ok(Parsed(i, pos + 4))
  {
    var s := IntBytes(i, e);
    AtByte(b, pos, s, 0);
    AtByte(b, pos, s, 1);
    AtByte(b, pos, s, 2);
    AtByte(b, pos, s, 3);
  }

  lemma ReadWordAt(b: seq<Byte>, e: Byte, pos: nat, x: Word64)
    requires At(b, pos, WordBytes(x, e))
    ensures pos + 8 <= |b| && Word64At(b, e, pos) == x
  {
    var s := WordBytes(x, e);
    AtByte(b, pos, s, 0);
    AtByte(b, pos, s, 1);
    AtByte(b, pos, s, 2);
    AtByte(b, pos, s, 3);
    AtByte(b, pos, s, 4);
    AtByte(b, pos, s, 5);
    AtByte(b, pos, s, 6);
    AtByte(b, pos, s, 7);
  }

  // ---------------------------------------------------------------------
  // Coordinates and rings

  lemma CoordRoundTrip(b: seq<Byte>, e: Byte, pos: nat, c: Coord, z: bool)
    requires IsEndianMarker(e) && c.z.Some? == z && At(b, pos, EncodeCoord(c, e, z))
    ensures DecodeCoord(b, e, pos, z, false) == Ok(Parsed(c, pos + CoordSize(z, false)))
  {
    var x, y := WordBytes(c.x, e), WordBytes(c.y, e);
    var rest := if z then WordBytes(c.z.value, e) else [];
    AtSplit(b, pos, x + y, rest);
    AtSplit(b, pos, x, y);
    ReadWordAt(b, e, pos, c.x);
    ReadWordAt(b, e, pos + 8, c.y);
    if z {
      ReadWordAt(b, e, pos + 16, c.z.value);
    }
  }

  // ---------------------------------------------------------------------
  // Lengths of what the writer writes, in either byte order

  /** Bytes `n` coordinates take. */
  function CoordsLength(n: nat, z: bool): nat
  {
    if z then 24 * n else 16 * n
  }

  function CSLength(cs: seq<Coord>, z: bool): nat
  {
    4 + CoordsLength(|cs|, z)
  }

  /** Bytes the rings from the `k`th on take. */
  function RingsLength(rings: seq<Ring>, k: nat, z: bool): nat
    decreases |rings| - k
  {
    if k >= |rings| then 0 else CSLength(rings[k].coords, z) + RingsLength(rings, k + 1, z)
  }

  function PolygonLength(shell: Ring, holes: seq<Ring>, z: bool): nat
  {
    4 + CSLength(shell.coords, z) + RingsLength(holes, 0, z)
  }

  function HeaderLength(withSrid: bool): nat
  {
    if withSrid then 9 else 5
  }

  ghost function GeomLength(g: Geometry, withSrid: bool): nat
    decreases g, 2
  {
    HeaderLength(withSrid) + BodyLength(g)
  }

  ghost function BodyLength(g: Geometry): nat
    decreases g, 1
  {
    match g
    case Point(_, _) => CoordSize(HasZ(g), false)
    case LineString(cs, _) => CSLength(cs, HasZ(g))
    case Polygon(shell, holes, _) => PolygonLength(shell, holes, HasZ(g))
    case _ => 4 + PartsLength(g, 0)
  }

  ghost function PartsLength(g: Geometry, k: nat): nat
    requires g.IsCollection()
    decreases g, 0, |g.parts| - k
  {
    if k >= |g.parts| then 0 else GeomLength(g.parts[k], false) + PartsLength(g, k + 1)
  }

  // ---------------------------------------------------------------------
  // How long the writer's output is

  lemma {:induction false} CoordsLen(cs: seq<Coord>, k: nat, e: Byte, z: bool)
    requires CoordsHaveZ(cs, z) && k <= |cs|
    ensures |EncodeCoords(cs, k, e, z)| == CoordsLength(|cs| - k, z)
    decreases |cs| - k
  {
    if k < |cs| {
      CoordsLen(cs, k + 1, e, z);
    }
  }

  lemma CSLen(cs: seq<Coord>, e: Byte, z: bool)
    requires CoordsWritable(cs, z)
    ensures |EncodeCS(cs, e, z)| == CSLength(cs, z)
  {
    CoordsLen(cs, 0, e, z);
  }

  lemma {:induction false} RingsLen(rings: seq<Ring>, k: nat, e: Byte, z: bool)
    requires RingsWritable(rings, z) && k <= |rings|
    ensures |EncodeRings(rings, k, e, z)| == RingsLength(rings, k, z)
    decreases |rings| - k
  {
    if k < |rings| {
      CSLen(rings[k].coords, e, z);
      RingsLen(rings, k + 1, e, z);
    }
  }

  lemma {:induction false} GeomLen(g: Geometry, e: Byte, withSrid: bool)
    requires WellFormed(g)
    ensures |EncodeGeometry(g, e, withSrid)| == GeomLength(g, withSrid)
    decreases g, 2
  {
    BodyLen(g, e);
  }

  lemma {:induction false} BodyLen(g: Geometry, e: Byte)
    requires WellFormed(g)
    ensures |EncodeBody(g, e)| == BodyLength(g)
    decreases g, 1
  {
    match g
    case Point(_, _) =>
    case LineString(cs, _) =>
      CSLen(cs, e, HasZ(g));
    case Polygon(shell, holes, _) =>
      CSLen(shell.coords, e, HasZ(g));
      RingsLen(holes, 0, e, HasZ(g));
    case _ =>
      PartsLen(g, 0, e);
  }

  lemma {:induction false} PartsLen(g: Geometry, k: nat, e: Byte)
    requires g.IsCollection() && WellFormed(g)
    ensures |EncodeParts(g, k, e)| == PartsLength(g, k)
    decreases g, 0, |g.parts| - k
  {
    if k < |g.parts| {
      GeomLen(g.parts[k], e, false);
      PartsLen(g, k + 1, e);
    }
  }

  /** `s` followed by `t` at `pos`, where `s` is `n` bytes long. */
  lemma AtSplitN(b: seq<Byte>, pos: nat, s: seq<Byte>, t: seq<Byte>, n: nat)
    requires At(b, pos, s + t) && |s| == n
    ensures At(b, pos, s) && At(b, pos + n, t)
  {
    AtSplit(b, pos, s, t);
  }


  lemma ConsAt<T>(s: seq<T>, k: nat)
    requires k < |s|
    ensures [s[k]] + s[k + 1..] == s[k..]
  {
    assert s[k..][1..] == s[k + 1..];
  }

  // ---------------------------------------------------------------------
  // What one decoder call yields. The lemmas that chain the steps of a
  // round trip hide every definition: they only pass each step's
  // conclusion on to the next step's premise.

  /** `n` coordinates decode at `pos` to `cs`, and reading stops at `next`. */
  ghost predicate CoordsYield(b: seq<Byte>, e: Byte, pos: nat, n: nat, z: bool, cs: seq<Coord>, next: nat)
  {
    pos <= |b| && DecodeCoords(b, e, pos, n, z, false) == Ok(Parsed(cs, next))
  }

  /** `n` rings stamped with `srid` decode at `pos` to `rings`, stopping at `next`. */
  ghost predicate RingsYield(b: seq<Byte>, e: Byte, pos: nat, n: nat, z: bool, srid: Int32, rings: seq<Ring>, next: nat)
  {
    pos <= |b| && DecodeRings(b, e, pos, n, z, false, srid) == Ok(Parsed(rings, next))
  }

  /** The header decoder yields the fields `t` and the SRID `srid'` at `pos` and stops at `next`. */
  ghost predicate HeaderYields(b: seq<Byte>, e: Byte, pos: nat, srid: Int32, inherit: bool, parseSrid: Int32 -> Int32,
                               t: TypeInfo, srid': Int32, next: nat)
  {
    DecodeHeader(b, e, pos, srid, inherit, parseSrid) == Ok(Parsed((t, srid'), next))
  }

  /** The body decoder yields `g` at `pos` and stops at `next`. */
  ghost predicate BodyYields(b: seq<Byte>, e: Byte, pos: nat, t: TypeInfo, srid: Int32, parseSrid: Int32 -> Int32,
                             g: Geometry, next: nat)
  {
    pos <= |b| && DecodeBody(b, e, pos, t, srid, parseSrid) == Ok(Parsed(g, next))
  }

  /** The geometry decoder yields `g` at `pos` and stops at `next`. */
  ghost predicate GeomYields(b: seq<Byte>, e: Byte, pos: nat, srid: Int32, inherit: bool, parseSrid: Int32 -> Int32,
                             g: Geometry, next: nat)
  {
    DecodeGeometry(b, e, pos, srid, inherit, parseSrid) == Ok(Parsed(g, next))
  }

  /** The array decoder yields `parts` from `n` elements at `pos` and stops at `next`. */
  ghost predicate ArrayYields(b: seq<Byte>, e: Byte, pos: nat, n: nat, srid: Int32, elem: Element,
                              parseSrid: Int32 -> Int32, parts: seq<Geometry>, next: nat)
  {
    pos <= |b| && DecodeArray(b, e, pos, n, srid, elem, parseSrid) == Ok(Parsed(parts, next))
  }

  // ---------------------------------------------------------------------
  // Coordinate arrays

  lemma CoordsNil(b: seq<Byte>, e: Byte, pos: nat, cs: seq<Coord>, k: nat, z: bool)
    requires CoordsHaveZ(cs, z) && k == |cs| && At(b, pos, EncodeCoords(cs, k, e, z))
    ensures CoordsYield(b, e, pos, 0, z, cs[k..], pos + CoordsLength(0, z))
  {
    AtBound(b, pos, EncodeCoords(cs, k, e, z));
    assert cs[k..] == [];
  }

  lemma CoordsSplit(b: seq<Byte>, e: Byte, pos: nat, cs: seq<Coord>, k: nat, z: bool)
    requires CoordsHaveZ(cs, z) && k < |cs| && At(b, pos, EncodeCoords(cs, k, e, z))
    ensures cs[k].z.Some? == z
    ensures At(b, pos, EncodeCoord(cs[k], e, z)) && At(b, pos + CoordSize(z, false), EncodeCoords(cs, k + 1, e, z))
  {
    AtSplitN(b, pos, EncodeCoord(cs[k], e, z), EncodeCoords(cs, k + 1, e, z), CoordSize(z, false));
  }

  /** A coordinate, then the rest of the array. */
  lemma CoordsStep(b: seq<Byte>, e: Byte, pos: nat, cs: seq<Coord>, k: nat, n: nat, z: bool)
    requires n == |cs| - k && n >= 1
    requires DecodeCoord(b, e, pos, z, false) == Ok(Parsed(cs[k], pos + CoordSize(z, false)))
    requires CoordsYield(b, e, pos + CoordSize(z, false), n - 1, z, cs[k + 1..],
                         pos + CoordSize(z, false) + CoordsLength(n - 1, z))
    ensures CoordsYield(b, e, pos, n, z, cs[k..], pos + CoordsLength(n, z))
  {
    ConsAt(cs, k);
  }

  /** The coordinates from the `k`-th on read back as themselves. */
  lemma {:induction false} CoordsRoundTrip(b: seq<Byte>, e: Byte, pos: nat, cs: seq<Coord>, k: nat, n: nat, z: bool)
    requires IsEndianMarker(e) && CoordsHaveZ(cs, z) && n == |cs| - k && At(b, pos, EncodeCoords(cs, k, e, z))
    ensures CoordsYield(b, e, pos, n, z, cs[k..], pos + CoordsLength(n, z))
    decreases n
  {
    hide *;
    if n == 0 {
      CoordsNil(b, e, pos, cs, k, z);
    } else {
      CoordsSplit(b, e, pos, cs, k, z);
      CoordRoundTrip(b, e, pos, cs[k], z);
      CoordsRoundTrip(b, e, pos + CoordSize(z, false), cs, k + 1, n - 1, z);
      CoordsStep(b, e, pos, cs, k, n, z);
    }
  }

  lemma CSSplit(b: seq<Byte>, e: Byte, pos: nat, cs: seq<Coord>, z: bool)
    requires CoordsWritable(cs, z) && At(b, pos, EncodeCS(cs, e, z))
    ensures |cs| < 0x8000_0000 && CoordsHaveZ(cs, z) && |EncodeCS(cs, e, z)| == CSLength(cs, z)
    ensures At(b, pos, IntBytes(|cs|, e)) && At(b, pos + 4, EncodeCoords(cs, 0, e, z))
  {
    CSLen(cs, e, z);
    AtSplitN(b, pos, IntBytes(|cs|, e), EncodeCoords(cs, 0, e, z), 4);
  }

  /** A count, then the coordinates. */
  lemma CSCons(b: seq<Byte>, e: Byte, pos: nat, cs: seq<Coord>, z: bool)
    requires |cs| < 0x8000_0000 && ReadInt(b, e, pos) == Ok(Parsed(|cs|, pos + 4))
    requires CoordsYield(b, e, pos + 4, |cs|, z, cs[0..], pos + 4 + CoordsLength(|cs|, z))
    ensures DecodeCS(b, e, pos, z, false) == Ok(Parsed(cs, pos + CSLength(cs, z)))
  {
    assert cs[0..] == cs;
  }

  /** A slim coordinate array reads back as itself, and the decoder stops
      right after it. */
  lemma CSRoundTrip(b: seq<Byte>, e: Byte, pos: nat, cs: seq<Coord>, z: bool)
    requires IsEndianMarker(e) && CoordsWritable(cs, z) && At(b, pos, EncodeCS(cs, e, z))
    ensures |EncodeCS(cs, e, z)| == CSLength(cs, z)
    ensures DecodeCS(b, e, pos, z, false) == Ok(Parsed(cs, pos + CSLength(cs, z)))
  {
    hide *;
    CSSplit(b, e, pos, cs, z);
    ReadIntAt(b, e, pos, |cs|);
    CoordsRoundTrip(b, e, pos + 4, cs, 0, |cs|, z);
    CSCons(b, e, pos, cs, z);
  }

  // ---------------------------------------------------------------------
  // Rings and polygons

  lemma RingsNil(b: seq<Byte>, e: Byte, pos: nat, rings: seq<Ring>, k: nat, z: bool, srid: Int32)
    requires RingsWritable(rings, z) && k == |rings| && At(b, pos, EncodeRings(rings, k, e, z))
    ensures RingsYield(b, e, pos, 0, z, srid, rings[k..], pos + RingsLength(rings, k, z))
  {
    AtBound(b, pos, EncodeRings(rings, k, e, z));
    assert rings[k..] == [];
  }

  lemma RingsSplit(b: seq<Byte>, e: Byte, pos: nat, rings: seq<Ring>, k: nat, z: bool)
    requires RingsWritable(rings, z) && k < |rings| && At(b, pos, EncodeRings(rings, k, e, z))
    ensures CoordsWritable(rings[k].coords, z)
    ensures At(b, pos, EncodeCS(rings[k].coords, e, z))
    ensures At(b, pos + CSLength(rings[k].coords, z), EncodeRings(rings, k + 1, e, z))
  {
    CSLen(rings[k].coords, e, z);
    AtSplitN(b, pos, EncodeCS(rings[k].coords, e, z), EncodeRings(rings, k + 1, e, z), CSLength(rings[k].coords, z));
  }

  /** A ring, then the rest of the rings. */
  lemma RingsStep(b: seq<Byte>, e: Byte, pos: nat, rings: seq<Ring>, k: nat, n: nat, z: bool, srid: Int32)
    requires n == |rings| - k && n >= 1 && RingsHaveSrid(rings, srid)
    requires DecodeCS(b, e, pos, z, false) == Ok(Parsed(rings[k].coords, pos + CSLength(rings[k].coords, z)))
    requires RingsYield(b, e, pos + CSLength(rings[k].coords, z), n - 1, z, srid, rings[k + 1..],
                        pos + CSLength(rings[k].coords, z) + RingsLength(rings, k + 1, z))
    ensures RingsYield(b, e, pos, n, z, srid, rings[k..], pos + RingsLength(rings, k, z))
  {
    ConsAt(rings, k);
    assert Ring(rings[k].coords, srid) == rings[k];
  }

  /** The rings from the `k`-th on read back as themselves. */
  lemma {:induction false} RingsRoundTrip(b: seq<Byte>, e: Byte, pos: nat, rings: seq<Ring>, k: nat, n: nat, z: bool,
                                          srid: Int32)
    requires IsEndianMarker(e) && RingsWritable(rings, z) && RingsHaveSrid(rings, srid) && n == |rings| - k
    requires At(b, pos, EncodeRings(rings, k, e, z))
    ensures RingsYield(b, e, pos, n, z, srid, rings[k..], pos + RingsLength(rings, k, z))
    decreases n
  {
    hide *;
    if n == 0 {
      RingsNil(b, e, pos, rings, k, z, srid);
    } else {
      RingsSplit(b, e, pos, rings, k, z);
      CSRoundTrip(b, e, pos, rings[k].coords, z);
      RingsRoundTrip(b, e, pos + CSLength(rings[k].coords, z), rings, k + 1, n - 1, z, srid);
      RingsStep(b, e, pos, rings, k, n, z, srid);
    }
  }

  lemma PolygonSplit(b: seq<Byte>, e: Byte, pos: nat, shell: Ring, holes: seq<Ring>, z: bool)
    requires PolygonWritable(shell, holes, z) && At(b, pos, EncodePolygon(shell, holes, e, z))
    ensures |holes| < 0x7FFF_FFFF && CoordsWritable(shell.coords, z) && RingsWritable(holes, z)
    ensures At(b, pos, IntBytes(|holes| + 1, e)) && At(b, pos + 4, EncodeCS(shell.coords, e, z))
    ensures At(b, pos + 4 + CSLength(shell.coords, z), EncodeRings(holes, 0, e, z))
  {
    var count := IntBytes(|holes| + 1, e);
    var cs := EncodeCS(shell.coords, e, z);
    CSLen(shell.coords, e, z);
    AtSplitN(b, pos, count + cs, EncodeRings(holes, 0, e, z), 4 + CSLength(shell.coords, z));
    AtSplitN(b, pos, count, cs, 4);
  }

  /** A ring count R, the shell, then R - 1 holes. */
  lemma PolygonCons(b: seq<Byte>, e: Byte, pos: nat, shell: Ring, holes: seq<Ring>, z: bool, srid: Int32)
    requires |holes| < 0x7FFF_FFFF && shell.srid == srid
    requires ReadInt(b, e, pos) == Ok(Parsed(|holes| + 1, pos + 4))
    requires DecodeCS(b, e, pos + 4, z, false) == Ok(Parsed(shell.coords, pos + 4 + CSLength(shell.coords, z)))
    requires RingsYield(b, e, pos + 4 + CSLength(shell.coords, z), |holes|, z, srid, holes[0..],
                        pos + 4 + CSLength(shell.coords, z) + RingsLength(holes, 0, z))
    ensures DecodePolygon(b, e, pos, z, false, srid) == Ok(Parsed(Polygon(shell, holes, 0), pos + PolygonLength(shell, holes, z)))
  {
    hide ReadInt, DecodeCS, DecodeRings;
    assert holes[0..] == holes;
  }

  /** A polygon body reads back as the polygon, its rings stamped with
      the SRID the decoder passes down. */
  lemma PolygonRoundTrip(b: seq<Byte>, e: Byte, pos: nat, shell: Ring, holes: seq<Ring>, z: bool, srid: Int32)
    requires IsEndianMarker(e) && PolygonWritable(shell, holes, z) && At(b, pos, EncodePolygon(shell, holes, e, z))
    requires shell.srid == srid && RingsHaveSrid(holes, srid)
    ensures DecodePolygon(b, e, pos, z, false, srid) == Ok(Parsed(Polygon(shell, holes, 0), pos + PolygonLength(shell, holes, z)))
  {
    hide *;
    PolygonSplit(b, e, pos, shell, holes, z);
    ReadIntAt(b, e, pos, |holes| + 1);
    CSRoundTrip(b, e, pos + 4, shell.coords, z);
    RingsRoundTrip(b, e, pos + 4 + CSLength(shell.coords, z), holes, 0, |holes|, z, srid);
    PolygonCons(b, e, pos, shell, holes, z, srid);
  }

  // ---------------------------------------------------------------------
  // Headers

  lemma HeaderRead(b: seq<Byte>, e: Byte, pos: nat, g: Geometry, withSrid: bool)
    requires IsEndianMarker(e) && At(b, pos, EncodeHeader(g, e, withSrid))
    ensures 0 <= KindOf(g) < 0x2000_0000
    ensures ReadByte(b, pos) == Ok(Parsed(e, pos + 1))
    ensures ReadInt(b, e, pos + 1) == Ok(Parsed(TypeWord(TypeInfo(KindOf(g), HasZ(g), false, withSrid)), pos + 5))
    ensures withSrid ==> ReadInt(b, e, pos + 5) == Ok(Parsed(g.srid, pos + 9))
  {
    var t := TypeInfo(KindOf(g), HasZ(g), false, withSrid);
    var word := IntBytes(TypeWord(t), e);
    var tail := if withSrid then IntBytes(g.srid, e) else [];
    AtSplitN(b, pos, [e] + word, tail, 5);
    AtSplitN(b, pos, [e], word, 1);
    AtByte(b, pos, [e], 0);
    ReadIntAt(b, e, pos + 1, TypeWord(t));
    if withSrid {
      ReadIntAt(b, e, pos + 5, g.srid);
    }
  }

  /** The marker, a type word that splits into `t`, then the SRID field
      if `t` flags one. */
  lemma HeaderCons(b: seq<Byte>, e: Byte, pos: nat, g: Geometry, t: TypeInfo, srid: Int32, inherit: bool,
                   parseSrid: Int32 -> Int32)
    requires 0 <= t.kind < 0x2000_0000 && DecodeTypeWord(TypeWord(t)) == t
    requires ReadByte(b, pos) == Ok(Parsed(e, pos + 1))
    requires ReadInt(b, e, pos + 1) == Ok(Parsed(TypeWord(t), pos + 5))
    requires t.haveS ==> ReadInt(b, e, pos + 5) == Ok(Parsed(g.srid, pos + 9))
    requires t.haveS ==> !inherit && parseSrid(g.srid) == g.srid
    requires !t.haveS ==> if inherit then g.srid == srid else g.srid == UNKNOWN_SRID
    ensures HeaderYields(b, e, pos, srid, inherit, parseSrid, t, g.srid, pos + HeaderLength(t.haveS))
  {
  }

  /** A header reads back as its kind, its Z flag, its SRID flag and the
      SRID the node ends up with. */
  lemma HeaderRoundTrip(b: seq<Byte>, e: Byte, pos: nat, g: Geometry, withSrid: bool, srid: Int32, inherit: bool,
                        parseSrid: Int32 -> Int32)
    requires IsEndianMarker(e) && At(b, pos, EncodeHeader(g, e, withSrid))
    requires withSrid ==> !inherit && parseSrid(g.srid) == g.srid
    requires !withSrid ==> if inherit then g.srid == srid else g.srid == UNKNOWN_SRID
    ensures HeaderYields(b, e, pos, srid, inherit, parseSrid, TypeInfo(KindOf(g), HasZ(g), false, withSrid), g.srid,
                         pos + HeaderLength(withSrid))
  {
    hide *;
    var t := TypeInfo(KindOf(g), HasZ(g), false, withSrid);
    HeaderRead(b, e, pos, g, withSrid);
    TypeWordRoundTrip(t);
    HeaderCons(b, e, pos, g, t, srid, inherit, parseSrid);
  }

  // ---------------------------------------------------------------------
  // Whole geometries

  lemma GeomSplit(b: seq<Byte>, e: Byte, pos: nat, g: Geometry, withSrid: bool)
    requires WellFormed(g) && Uniform(g, g.srid) && At(b, pos, EncodeGeometry(g, e, withSrid))
    ensures BelowHaveSrid(g, g.srid)
    ensures At(b, pos, EncodeHeader(g, e, withSrid)) && At(b, pos + HeaderLength(withSrid), EncodeBody(g, e))
  {
    AtSplitN(b, pos, EncodeHeader(g, e, withSrid), EncodeBody(g, e), HeaderLength(withSrid));
  }

  /** A header and then a body make a geometry that carries the header's SRID. */
  lemma GeomCons(b: seq<Byte>, e: Byte, pos: nat, srid: Int32, inherit: bool, parseSrid: Int32 -> Int32,
                 g: Geometry, withSrid: bool)
    requires HeaderYields(b, e, pos, srid, inherit, parseSrid, TypeInfo(KindOf(g), HasZ(g), false, withSrid), g.srid,
                          pos + HeaderLength(withSrid))
    requires BodyYields(b, e, pos + HeaderLength(withSrid), TypeInfo(KindOf(g), HasZ(g), false, withSrid), g.srid,
                        parseSrid, g.(srid := 0), pos + HeaderLength(withSrid) + BodyLength(g))
    ensures GeomYields(b, e, pos, srid, inherit, parseSrid, g, pos + GeomLength(g, withSrid))
  {
    hide DecodeHeader, DecodeBody;
  }

  /** A full geometry, wherever it sits in the bytes, reads back as itself
      and the decoder stops right after it. */
  lemma {:induction false} GeomRoundTrip(b: seq<Byte>, e: Byte, pos: nat, g: Geometry, withSrid: bool, srid: Int32,
                                         inherit: bool, parseSrid: Int32 -> Int32)
    requires IsEndianMarker(e) && WellFormed(g) && Uniform(g, g.srid) && At(b, pos, EncodeGeometry(g, e, withSrid))
    requires withSrid ==> !inherit && parseSrid(g.srid) == g.srid
    requires !withSrid ==> if inherit then g.srid == srid else g.srid == UNKNOWN_SRID
    ensures GeomYields(b, e, pos, srid, inherit, parseSrid, g, pos + GeomLength(g, withSrid))
    decreases g, 2
  {
    hide *;
    GeomSplit(b, e, pos, g, withSrid);
    HeaderRoundTrip(b, e, pos, g, withSrid, srid, inherit, parseSrid);
    BodyRoundTrip(b, e, pos + HeaderLength(withSrid), g, withSrid, parseSrid);
    GeomCons(b, e, pos, srid, inherit, parseSrid, g, withSrid);
  }

  /** A body reads back as its node, with the factory's SRID 0, and its
      rings and children stamped with the node's SRID. */
  lemma {:induction false} BodyRoundTrip(b: seq<Byte>, e: Byte, pos: nat, g: Geometry, haveS: bool,
                                         parseSrid: Int32 -> Int32)
    requires IsEndianMarker(e) && WellFormed(g) && BelowHaveSrid(g, g.srid) && At(b, pos, EncodeBody(g, e))
    ensures BodyYields(b, e, pos, TypeInfo(KindOf(g), HasZ(g), false, haveS), g.srid, parseSrid, g.(srid := 0),
                       pos + BodyLength(g))
    decreases g, 1
  {
    hide *;
    var h := g.(srid := 0);
    KindCases(g);
    if g.Point? {
      PointBody(b, e, pos, g, h, haveS, parseSrid);
    } else if g.LineString? {
      LineBody(b, e, pos, g, h, haveS, parseSrid);
    } else if g.Polygon? {
      PolygonBody(b, e, pos, g, h, haveS, parseSrid);
    } else {
      MultiBody(b, e, pos, g, h, haveS, parseSrid);
    }
  }

  lemma KindCases(g: Geometry)
    ensures !g.Point? && !g.LineString? && !g.Polygon? ==> g.IsCollection()
  {
  }

  lemma PointBody(b: seq<Byte>, e: Byte, pos: nat, g: Geometry, h: Geometry, haveS: bool, parseSrid: Int32 -> Int32)
    requires h == g.(srid := 0)
    requires g.Point? && IsEndianMarker(e) && WellFormed(g) && At(b, pos, EncodeBody(g, e))
    ensures BodyYields(b, e, pos, TypeInfo(KindOf(g), HasZ(g), false, haveS), g.srid, parseSrid, h,
                       pos + BodyLength(g))
  {
    CoordRoundTrip(b, e, pos, g.coord, HasZ(g));
  }

  lemma LineBody(b: seq<Byte>, e: Byte, pos: nat, g: Geometry, h: Geometry, haveS: bool, parseSrid: Int32 -> Int32)
    requires h == g.(srid := 0)
    requires g.LineString? && IsEndianMarker(e) && WellFormed(g) && At(b, pos, EncodeBody(g, e))
    ensures BodyYields(b, e, pos, TypeInfo(KindOf(g), HasZ(g), false, haveS), g.srid, parseSrid, h,
                       pos + BodyLength(g))
  {
    hide *;
    LineSplit(b, e, pos, g);
    CSRoundTrip(b, e, pos, g.coords, HasZ(g));
    LineCons(b, e, pos, g, h, haveS, parseSrid);
  }

  lemma LineSplit(b: seq<Byte>, e: Byte, pos: nat, g: Geometry)
    requires g.LineString? && WellFormed(g) && At(b, pos, EncodeBody(g, e))
    ensures CoordsWritable(g.coords, HasZ(g)) && At(b, pos, EncodeCS(g.coords, e, HasZ(g)))
  {
  }

  lemma LineCons(b: seq<Byte>, e: Byte, pos: nat, g: Geometry, h: Geometry, haveS: bool, parseSrid: Int32 -> Int32)
    requires h == g.(srid := 0)
    requires g.LineString?
    requires DecodeCS(b, e, pos, HasZ(g), false) == Ok(Parsed(g.coords, pos + CSLength(g.coords, HasZ(g))))
    ensures BodyYields(b, e, pos, TypeInfo(KindOf(g), HasZ(g), false, haveS), g.srid, parseSrid, h,
                       pos + BodyLength(g))
  {
    hide DecodePoint, DecodeCS, DecodePolygon, DecodeMulti, CSLength;
  }

  lemma PolygonBodySplit(b: seq<Byte>, e: Byte, pos: nat, g: Geometry)
    requires g.Polygon? && WellFormed(g) && BelowHaveSrid(g, g.srid) && At(b, pos, EncodeBody(g, e))
    ensures PolygonWritable(g.shell, g.holes, HasZ(g)) && At(b, pos, EncodePolygon(g.shell, g.holes, e, HasZ(g)))
    ensures g.shell.srid == g.srid && RingsHaveSrid(g.holes, g.srid)
  {
  }

  lemma PolygonBodyCons(b: seq<Byte>, e: Byte, pos: nat, g: Geometry, h: Geometry, haveS: bool, parseSrid: Int32 -> Int32)
    requires h == g.(srid := 0)
    requires g.Polygon? && pos <= |b|
    requires DecodePolygon(b, e, pos, HasZ(g), false, g.srid)
          == Ok(Parsed(Polygon(g.shell, g.holes, 0), pos + PolygonLength(g.shell, g.holes, HasZ(g))))
    ensures BodyYields(b, e, pos, TypeInfo(KindOf(g), HasZ(g), false, haveS), g.srid, parseSrid, h,
                       pos + BodyLength(g))
  {
    hide DecodePoint, DecodeLineString, DecodePolygon, DecodeMulti, PolygonLength;
  }

  lemma PolygonBody(b: seq<Byte>, e: Byte, pos: nat, g: Geometry, h: Geometry, haveS: bool, parseSrid: Int32 -> Int32)
    requires h == g.(srid := 0)
    requires g.Polygon? && IsEndianMarker(e) && WellFormed(g) && BelowHaveSrid(g, g.srid) && At(b, pos, EncodeBody(g, e))
    ensures BodyYields(b, e, pos, TypeInfo(KindOf(g), HasZ(g), false, haveS), g.srid, parseSrid, h,
                       pos + BodyLength(g))
  {
    hide *;
    PolygonBodySplit(b, e, pos, g);
    AtBound(b, pos, EncodePolygon(g.shell, g.holes, e, HasZ(g)));
    PolygonRoundTrip(b, e, pos, g.shell, g.holes, HasZ(g), g.srid);
    PolygonBodyCons(b, e, pos, g, h, haveS, parseSrid);
  }

  // ---------------------------------------------------------------------
  // Collections

  lemma MultiSplit(b: seq<Byte>, e: Byte, pos: nat, g: Geometry)
    requires g.IsCollection() && WellFormed(g) && At(b, pos, EncodeBody(g, e))
    ensures g.MultiPoint? || g.MultiLineString? || g.MultiPolygon? || g.GeometryCollection?
    ensures |g.parts| < 0x8000_0000
    ensures At(b, pos, IntBytes(|g.parts|, e)) && At(b, pos + 4, EncodeParts(g, 0, e))
  {
    AtSplitN(b, pos, IntBytes(|g.parts|, e), EncodeParts(g, 0, e), 4);
  }

  /** A count, then the children. */
  lemma MultiCons(b: seq<Byte>, e: Byte, pos: nat, g: Geometry, h: Geometry, haveS: bool, parseSrid: Int32 -> Int32)
    requires h == g.(srid := 0)
    requires g.IsCollection() && |g.parts| < 0x8000_0000 && ReadInt(b, e, pos) == Ok(Parsed(|g.parts|, pos + 4))
    requires ArrayYields(b, e, pos + 4, |g.parts|, g.srid, ElementOf(KindOf(g)), parseSrid, g.parts[0..],
                         pos + 4 + PartsLength(g, 0))
    ensures BodyYields(b, e, pos, TypeInfo(KindOf(g), HasZ(g), false, haveS), g.srid, parseSrid, h,
                       pos + BodyLength(g))
  {
    assert g.parts[0..] == g.parts;
    CollectSelf(g, h);
  }

  lemma CollectSelf(g: Geometry, h: Geometry)
    requires h == g.(srid := 0) && g.IsCollection()
    ensures Collect(KindOf(g), g.parts, 0) == h
  {
    match g
    case MultiPoint(_, _) =>
    case MultiLineString(_, _) =>
    case MultiPolygon(_, _) =>
    case GeometryCollection(_, _) =>
  }

  lemma {:induction false} MultiBody(b: seq<Byte>, e: Byte, pos: nat, g: Geometry, h: Geometry, haveS: bool,
                                     parseSrid: Int32 -> Int32)
    requires h == g.(srid := 0)
    requires g.IsCollection() && IsEndianMarker(e) && WellFormed(g) && BelowHaveSrid(g, g.srid)
    requires At(b, pos, EncodeBody(g, e))
    ensures BodyYields(b, e, pos, TypeInfo(KindOf(g), HasZ(g), false, haveS), g.srid, parseSrid, h,
                       pos + BodyLength(g))
    decreases g, 0, |g.parts| + 1
  {
    hide *;
    MultiSplit(b, e, pos, g);
    ReadIntAt(b, e, pos, |g.parts|);
    PartsRoundTrip(b, e, pos + 4, g, 0, |g.parts|, parseSrid);
    MultiCons(b, e, pos, g, h, haveS, parseSrid);
  }

  lemma PartsNil(b: seq<Byte>, e: Byte, pos: nat, g: Geometry, k: nat, parseSrid: Int32 -> Int32)
    requires g.IsCollection() && WellFormed(g) && k == |g.parts| && At(b, pos, EncodeParts(g, k, e))
    ensures ArrayYields(b, e, pos, 0, g.srid, ElementOf(KindOf(g)), parseSrid, g.parts[k..], pos + PartsLength(g, k))
  {
    AtBound(b, pos, EncodeParts(g, k, e));
    assert g.parts[k..] == [];
  }

  lemma ChildFacts(g: Geometry, k: nat)
    requires g.IsCollection() && WellFormed(g) && BelowHaveSrid(g, g.srid) && k < |g.parts|
    ensures g.MultiPoint? || g.MultiLineString? || g.MultiPolygon? || g.GeometryCollection?
    ensures Fits(ElementOf(KindOf(g)), g.parts[k]) && WellFormed(g.parts[k]) && Uniform(g.parts[k], g.srid)
  {
  }

  lemma PartsSplit(b: seq<Byte>, e: Byte, pos: nat, g: Geometry, k: nat)
    requires g.IsCollection() && WellFormed(g) && k < |g.parts| && WellFormed(g.parts[k])
    requires At(b, pos, EncodeParts(g, k, e))
    ensures At(b, pos, EncodeGeometry(g.parts[k], e, false))
    ensures At(b, pos + GeomLength(g.parts[k], false), EncodeParts(g, k + 1, e))
  {
    hide At, EncodeGeometry, GeomLength;
    GeomLen(g.parts[k], e, false);
    AtSplitN(b, pos, EncodeGeometry(g.parts[k], e, false), EncodeParts(g, k + 1, e), GeomLength(g.parts[k], false));
  }

  /** A child the typed array accepts, then the rest of the children. */
  lemma PartsStep(b: seq<Byte>, e: Byte, pos: nat, g: Geometry, k: nat, n: nat, parseSrid: Int32 -> Int32)
    requires g.IsCollection() && n == |g.parts| - k && n >= 1 && Fits(ElementOf(KindOf(g)), g.parts[k])
    requires GeomYields(b, e, pos, g.srid, true, parseSrid, g.parts[k], pos + GeomLength(g.parts[k], false))
    requires ArrayYields(b, e, pos + GeomLength(g.parts[k], false), n - 1, g.srid, ElementOf(KindOf(g)), parseSrid,
                         g.parts[k + 1..], pos + GeomLength(g.parts[k], false) + PartsLength(g, k + 1))
    ensures ArrayYields(b, e, pos, n, g.srid, ElementOf(KindOf(g)), parseSrid, g.parts[k..], pos + PartsLength(g, k))
  {
    ConsAt(g.parts, k);
  }

  /** The children from the `k`-th on read back as themselves, each
      inheriting the collection's SRID. */
  lemma {:induction false} PartsRoundTrip(b: seq<Byte>, e: Byte, pos: nat, g: Geometry, k: nat, n: nat,
                                          parseSrid: Int32 -> Int32)
    requires IsEndianMarker(e) && g.IsCollection() && WellFormed(g) && BelowHaveSrid(g, g.srid) && n == |g.parts| - k
    requires At(b, pos, EncodeParts(g, k, e))
    ensures ArrayYields(b, e, pos, n, g.srid, ElementOf(KindOf(g)), parseSrid, g.parts[k..], pos + PartsLength(g, k))
    decreases g, 0, n
  {
    hide *;
    if n == 0 {
      PartsNil(b, e, pos, g, k, parseSrid);
    } else {
      ChildFacts(g, k);
      PartsSplit(b, e, pos, g, k);
      GeomRoundTrip(b, e, pos, g.parts[k], false, g.srid, true, parseSrid);
      PartsRoundTrip(b, e, pos + GeomLength(g.parts[k], false), g, k + 1, n - 1, parseSrid);
      PartsStep(b, e, pos, g, k, n, parseSrid);
    }
  }

  // ---------------------------------------------------------------------
  // The whole value

  lemma DecodeCons(b: seq<Byte>, e: Byte, g: Geometry, parseSrid: Int32 -> Int32)
    requires |b| > 0 && b[0] == e && IsEndianMarker(e)
    requires GeomYields(b, e, 0, 0, false, parseSrid, g, |b|)
    ensures Decode(b, parseSrid) == Ok(g)
  {
  }

  lemma EncodeStart(g: Geometry, e: Byte)
    requires WellFormed(g)
    ensures 0 < |Encode(g, e)| == GeomLength(g, g.srid != UNKNOWN_SRID) && Encode(g, e)[0] == e
    ensures At(Encode(g, e), 0, EncodeGeometry(g, e, g.srid != UNKNOWN_SRID))
  {
    GeomLen(g, e, g.srid != UNKNOWN_SRID);
    AtAll(Encode(g, e));
  }

  /** The round trip for a whole value, in either byte order: a geometry
      the writer can express, uniform in its SRID, and whose SRID parseSRID
      keeps, comes back unchanged. */
  lemma DecodeEncode(g: Geometry, e: Byte, parseSrid: Int32 -> Int32)
    requires IsEndianMarker(e) && WellFormed(g) && Uniform(g, g.srid)
    requires g.srid != UNKNOWN_SRID ==> parseSrid(g.srid) == g.srid
    ensures Decode(Encode(g, e), parseSrid) == Ok(g)
  {
    hide *;
    var b := Encode(g, e);
    EncodeStart(g, e);
    GeomRoundTrip(b, e, 0, g, g.srid != UNKNOWN_SRID, 0, false, parseSrid);
    DecodeCons(b, e, g, parseSrid);
  }
}
