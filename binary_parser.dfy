/** The well-known-binary (PostGIS extended WKB) decoder of JtsBinaryParser.

    The `Decode…` functions say, for a byte sequence `b`, a fixed byte-order
    marker `e` and a position, what the decoder yields and where it stops.
    The `Parse…` methods are the Java methods: they advance one shared
    ValueGetter cursor and fill arrays in loops, and each is proved to agree
    with its `Decode…` function.

    `parseSrid` stands for org.postgis.Geometry.parseSRID, which is not part
    of this model; it is passed in as an arbitrary function. */
module JtsBinaryParser {
  import opened Wire
  import opened ValueGetters
  import opened Geometries

  /** The fields of a type word. */
  datatype TypeInfo = TypeInfo(kind: int, haveZ: bool, haveM: bool, haveS: bool)

  /** The low 29 bits are the kind; bits 31, 30 and 29 flag Z, M and SRID. */
  function DecodeTypeWord(w: Int32): TypeInfo
  {
    var u := FromInt32(w);
    TypeInfo(u % 0x2000_0000, u / 0x8000_0000 == 1, u / 0x4000_0000 % 2 == 1, u / 0x2000_0000 % 2 == 1)
  }

  /** org.postgis.Geometry.UNKNOWN_SRID */
  const UNKNOWN_SRID: Int32 := 0

  /** What each collection kind's typed Java array accepts. */
  datatype Element = AnyGeometry | PointElement | LineStringElement | PolygonElement

  function ElementOf(kind: int): Element
  {
    if kind == MULTIPOINT then PointElement
    else if kind == MULTILINESTRING then LineStringElement
    else if kind == MULTIPOLYGON then PolygonElement
    else AnyGeometry
  }

  predicate Fits(elem: Element, g: Geometry)
  {
    match elem
    case AnyGeometry => true
    case PointElement => g.Point?
    case LineStringElement => g.LineString?
    case PolygonElement => g.Polygon?
  }

  /** Number of ordinates stored per coordinate. */
  function Dims(haveZ: bool): nat { if haveZ then 3 else 2 }

  /** Bytes one slim coordinate takes: X, Y, Z if flagged, M if flagged. */
  function CoordSize(haveZ: bool, haveM: bool): nat
  {
    8 * (Dims(haveZ) + if haveM then 1 else 0)
  }

  // ---------------------------------------------------------------------
  // Specification of the decoder

  /** One coordinate: X, Y, then Z if `haveZ`, then an M word if `haveM`,
      which is read and dropped. Every read fails only by running out of
      bytes, so the coordinate fails exactly when its bytes are not all there. */
  function DecodeCoord(b: seq<Byte>, e: Byte, pos: nat, haveZ: bool, haveM: bool): (r: Result<Parsed<Coord>>)
  {
    if pos + CoordSize(haveZ, haveM) > |b| then Fail(Truncated)
    else
      var z := if haveZ then Some(Word64At(b, e, pos + 16)) else None;
      Ok(Parsed(Coord(Word64At(b, e, pos), Word64At(b, e, pos + 8), z), pos + CoordSize(haveZ, haveM)))
  }

  /** `n` coordinates of a slim array (no per-point header). */
  function DecodeCoords(b: seq<Byte>, e: Byte, pos: nat, n: nat, haveZ: bool, haveM: bool): (r: Result<Parsed<seq<Coord>>>)
    requires pos <= |b|
    ensures r.Ok? ==> |r.value.value| == n && pos <= r.value.next <= |b|
    decreases n
  {
    if n == 0 then Ok(Parsed([], pos))
    else
      match DecodeCoord(b, e, pos, haveZ, haveM)
      case Fail(err) => Fail(err)
      case Ok(c) =>
      match DecodeCoords(b, e, c.next, n - 1, haveZ, haveM)
      case Fail(err) => Fail(err)
      case Ok(rest) =>
      Ok(Parsed([c.value] + rest.value, rest.next))
  }

  /** A slim coordinate array: a count, then that many coordinates. */
  function DecodeCS(b: seq<Byte>, e: Byte, pos: nat, haveZ: bool, haveM: bool): (r: Result<Parsed<seq<Coord>>>)
    ensures r.Ok? ==> pos + 4 <= r.value.next <= |b|
  {
    match ReadInt(b, e, pos)
    case Fail(err) => Fail(err)
    case Ok(count) =>
    if count.value < 0 then Fail(NegativeSize)
    else DecodeCoords(b, e, count.next, count.value, haveZ, haveM)
  }

  /** parseLinearRing's result: a ring with the factory's SRID 0. */
  function DecodeRing(b: seq<Byte>, e: Byte, pos: nat, haveZ: bool, haveM: bool): (r: Result<Parsed<Ring>>)
    ensures r.Ok? ==> pos + 4 <= r.value.next <= |b|
  {
    match DecodeCS(b, e, pos, haveZ, haveM)
    case Fail(err) => Fail(err)
    case Ok(cs) =>
    Ok(Parsed(Ring(cs.value, 0), cs.next))
  }

  /** `n` linear rings, each stamped with `srid`. */
  function DecodeRings(b: seq<Byte>, e: Byte, pos: nat, n: nat, haveZ: bool, haveM: bool, srid: Int32)
    : (r: Result<Parsed<seq<Ring>>>)
    requires pos <= |b|
    ensures r.Ok? ==> |r.value.value| == n && pos <= r.value.next <= |b|
    decreases n
  {
    if n == 0 then Ok(Parsed([], pos))
    else
      match DecodeRing(b, e, pos, haveZ, haveM)
      case Fail(err) => Fail(err)
      case Ok(ring) =>
      match DecodeRings(b, e, ring.next, n - 1, haveZ, haveM, srid)
      case Fail(err) => Fail(err)
      case Ok(rest) =>
      Ok(Parsed([Ring(ring.value.coords, srid)] + rest.value, rest.next))
  }

  /** parseLineString's result, built with the factory's SRID 0. */
  function DecodeLineString(b: seq<Byte>, e: Byte, pos: nat, haveZ: bool, haveM: bool): (r: Result<Parsed<Geometry>>)
    ensures r.Ok? ==> pos + 4 <= r.value.next <= |b|
  {
    match DecodeCS(b, e, pos, haveZ, haveM)
    case Fail(err) => Fail(err)
    case Ok(cs) =>
    Ok(Parsed(LineString(cs.value, 0), cs.next))
  }

  /** parsePoint's result: one coordinate, with the factory's SRID 0. */
  function DecodePoint(b: seq<Byte>, e: Byte, pos: nat, haveZ: bool, haveM: bool): (r: Result<Parsed<Geometry>>)
    ensures r.Ok? ==> pos + 16 <= r.value.next <= |b|
  {
    match DecodeCoord(b, e, pos, haveZ, haveM)
    case Fail(err) => Fail(err)
    case Ok(c) =>
    Ok(Parsed(Point(c.value, 0), c.next))
  }

  /** A polygon body: a ring count R, the shell, then R - 1 holes
      (the subtraction is Java `int` arithmetic); every ring is stamped
      with `srid`, the node itself has the factory's SRID 0. */
  function DecodePolygon(b: seq<Byte>, e: Byte, pos: nat, haveZ: bool, haveM: bool, srid: Int32)
    : (r: Result<Parsed<Geometry>>)
    ensures r.Ok? ==> pos + 8 <= r.value.next <= |b|
  {
    match ReadInt(b, e, pos)
    case Fail(err) => Fail(err)
    case Ok(count) =>
    var holecount := Wrap32(count.value - 1);
    if holecount < 0 then Fail(NegativeSize)
    else
      match DecodeRing(b, e, count.next, haveZ, haveM)
      case Fail(err) => Fail(err)
      case Ok(shell) =>
      match DecodeRings(b, e, shell.next, holecount, haveZ, haveM, srid)
      case Fail(err) => Fail(err)
      case Ok(holes) =>
      Ok(Parsed(Polygon(shell.value.(srid := srid), holes.value, 0), holes.next))
  }

  /** A collection body of type code `kind`: a count, then that many full
      geometries; the node has the factory's SRID 0. */
  function DecodeMulti(b: seq<Byte>, e: Byte, pos: nat, kind: int, srid: Int32, parseSrid: Int32 -> Int32)
    : (r: Result<Parsed<Geometry>>)
    requires MULTIPOINT <= kind <= GEOMETRYCOLLECTION
    ensures r.Ok? ==> pos + 4 <= r.value.next <= |b|
    decreases |b| - pos, 3
  {
    match ReadInt(b, e, pos)
    case Fail(err) => Fail(err)
    case Ok(count) =>
    if count.value < 0 then Fail(NegativeSize)
    else
      match DecodeArray(b, e, count.next, count.value, srid, ElementOf(kind), parseSrid)
      case Fail(err) => Fail(err)
      case Ok(parts) =>
      Ok(Parsed(Collect(kind, parts.value, 0), parts.next))
  }

  /** The SRID a node ends with, and where its header ends. */
  function DecodeSrid(b: seq<Byte>, e: Byte, pos: nat, srid: Int32, inherit: bool, haveS: bool,
                      parseSrid: Int32 -> Int32): (r: Result<Parsed<Int32>>)
    ensures r.Ok? ==> r.value.next == pos + (if haveS then 4 else 0)
    ensures r.Ok? && haveS ==> r.value.next <= |b|
  {
    if !haveS then Ok(Parsed(if inherit then srid else UNKNOWN_SRID, pos))
    else
      match ReadInt(b, e, pos)
      case Fail(err) => Fail(err)
      case Ok(raw) =>
      var newsrid := parseSrid(raw.value);
      if inherit && newsrid != srid then Fail(InconsistentSrid)
      else Ok(Parsed(newsrid, raw.next))
  }

  /** A geometry header: the byte-order marker, which must be the cursor's
      own, the type word, and the SRID the node resolves to. */
  function DecodeHeader(b: seq<Byte>, e: Byte, pos: nat, srid: Int32, inherit: bool,
                        parseSrid: Int32 -> Int32): (r: Result<Parsed<(TypeInfo, Int32)>>)
    ensures r.Ok? ==> r.value.next == pos + 5 + (if r.value.value.0.haveS then 4 else 0) <= |b|
  {
    match ReadByte(b, pos)
    case Fail(err) => Fail(err)
    case Ok(marker) =>
    if marker.value != e then Fail(EndianMismatch)
    else
      match ReadInt(b, e, marker.next)
      case Fail(err) => Fail(err)
      case Ok(word) =>
      var t := DecodeTypeWord(word.value);
      match DecodeSrid(b, e, word.next, srid, inherit, t.haveS, parseSrid)
      case Fail(err) => Fail(err)
      case Ok(s) =>
      Ok(Parsed((t, s.value), s.next))
  }

  /** The switch on the kind: the node as its parse method returns it. */
  function DecodeBody(b: seq<Byte>, e: Byte, pos: nat, t: TypeInfo, srid: Int32,
                      parseSrid: Int32 -> Int32): (r: Result<Parsed<Geometry>>)
    requires pos <= |b|
    ensures r.Ok? ==> pos < r.value.next <= |b| && KindOf(r.value.value) == t.kind
    decreases |b| - pos, 4
  {
    if t.kind == POINT then DecodePoint(b, e, pos, t.haveZ, t.haveM)
    else if t.kind == LINESTRING then DecodeLineString(b, e, pos, t.haveZ, t.haveM)
    else if t.kind == POLYGON then DecodePolygon(b, e, pos, t.haveZ, t.haveM, srid)
    else if MULTIPOINT <= t.kind <= GEOMETRYCOLLECTION then DecodeMulti(b, e, pos, t.kind, srid, parseSrid)
    else Fail(UnknownType)
  }

  /** One full geometry: its header, its body, and the resolved SRID set
      on the node. */
  function DecodeGeometry(b: seq<Byte>, e: Byte, pos: nat, srid: Int32, inherit: bool,
                          parseSrid: Int32 -> Int32): (r: Result<Parsed<Geometry>>)
    ensures r.Ok? ==> pos + 5 <= r.value.next <= |b|
    decreases |b| - pos, 0
  {
    match DecodeHeader(b, e, pos, srid, inherit, parseSrid)
    case Fail(err) => Fail(err)
    case Ok(h) =>
    match DecodeBody(b, e, h.next, h.value.0, h.value.1, parseSrid)
    case Fail(err) => Fail(err)
    case Ok(g) =>
    Ok(Parsed(g.value.(srid := h.value.1), g.next))
  }

  /** One element of a collection: a full geometry inheriting `srid`,
      which the typed array then has to accept. */
  function DecodeElement(b: seq<Byte>, e: Byte, pos: nat, srid: Int32, elem: Element,
                         parseSrid: Int32 -> Int32): (r: Result<Parsed<Geometry>>)
    ensures r.Ok? ==> pos + 5 <= r.value.next <= |b|
    decreases |b| - pos, 1
  {
    match DecodeGeometry(b, e, pos, srid, true, parseSrid)
    case Fail(err) => Fail(err)
    case Ok(child) =>
    if Fits(elem, child.value) then Ok(child) else Fail(WrongChildKind)
  }

  /** `n` elements decoded one after another. */
  function DecodeArray(b: seq<Byte>, e: Byte, pos: nat, n: nat, srid: Int32, elem: Element,
                       parseSrid: Int32 -> Int32): (r: Result<Parsed<seq<Geometry>>>)
    requires pos <= |b|
    ensures r.Ok? ==> |r.value.value| == n && pos <= r.value.next <= |b|
    decreases |b| - pos, 2, n
  {
    if n == 0 then Ok(Parsed([], pos))
    else
      match DecodeElement(b, e, pos, srid, elem, parseSrid)
      case Fail(err) => Fail(err)
      case Ok(child) =>
      match DecodeArray(b, e, child.next, n - 1, srid, elem, parseSrid)
      case Fail(err) => Fail(err)
      case Ok(rest) =>
      Ok(Parsed([child.value] + rest.value, rest.next))
  }

  /** The whole decoder: byte 0 chooses the byte order once, then one
      top-level geometry is decoded from position 0 with no inherited SRID. */
  function Decode(b: seq<Byte>, parseSrid: Int32 -> Int32): Result<Geometry>
  {
    if |b| == 0 then Fail(Truncated)
    else if b[0] == XDR || b[0] == NDR then
      match DecodeGeometry(b, b[0], 0, 0, false, parseSrid)
      case Fail(err) => Fail(err)
      case Ok(g) =>
      Ok(g.value)
    else Fail(UnknownEndian)
  }

  /** `pre` followed by the elements an array decode yields. */
  function Prepend<T>(pre: seq<T>, r: Result<Parsed<seq<T>>>): Result<Parsed<seq<T>>>
  {
    match r
    case Ok(p) => Ok(Parsed(pre + p.value, p.next))
    case Fail(err) => Fail(err)
  }

  lemma PrependNothing<T>(r: Result<Parsed<seq<T>>>)
    ensures Prepend([], r) == r
  {
    if r.Ok? {
      assert [] + r.value.value == r.value.value;
    }
  }

  lemma PrependDone<T>(pre: seq<T>, p: nat)
    ensures Prepend(pre, Ok(Parsed([], p))) == Ok(Parsed(pre, p))
  {
    assert pre + [] == pre;
  }

  lemma PrependTwice<T>(pre: seq<T>, x: T, r: Result<Parsed<seq<T>>>)
    ensures Prepend(pre, Prepend([x], r)) == Prepend(pre + [x], r)
  {
    if r.Ok? {
      assert pre + ([x] + r.value.value) == (pre + [x]) + r.value.value;
    }
  }

  /** One turn of parseCS's loop, against the coordinates spec. */
  lemma CoordsStep(b: seq<Byte>, e: Byte, here: nat, n: nat, i: nat, haveZ: bool, haveM: bool,
                   pre: seq<Coord>, spec: Result<Parsed<seq<Coord>>>, c: Result<Coord>, next: nat)
    requires here <= |b| && i < n
    requires spec == Prepend(pre, DecodeCoords(b, e, here, n - i, haveZ, haveM))
    requires Agrees(c, DecodeCoord(b, e, here, haveZ, haveM), next)
    ensures c.Fail? ==> spec == Fail(c.error)
    ensures c.Ok? ==> next <= |b| && spec == Prepend(pre + [c.value], DecodeCoords(b, e, next, n - (i + 1), haveZ, haveM))
  {
    if c.Ok? {
      PrependTwice(pre, c.value, DecodeCoords(b, e, next, n - (i + 1), haveZ, haveM));
    }
  }

  /** One turn of parsePolygon's loop, against the rings spec: `post` is
      what the array holds after the turn. */
  lemma RingsStep(b: seq<Byte>, e: Byte, here: nat, n: nat, i: nat, haveZ: bool, haveM: bool, srid: Int32,
                  pre: seq<Ring>, post: seq<Ring>, spec: Result<Parsed<seq<Ring>>>, ring: Result<Ring>, next: nat)
    requires here <= |b| && i < n
    requires spec == Prepend(pre, DecodeRings(b, e, here, n - i, haveZ, haveM, srid))
    requires Agrees(ring, DecodeRing(b, e, here, haveZ, haveM), next)
    requires ring.Ok? ==> post == pre + [Ring(ring.value.coords, srid)]
    ensures ring.Fail? ==> spec == Fail(ring.error) && Agrees(Fail(ring.error), spec, next)
    ensures ring.Ok? ==> next <= |b| && spec == Prepend(post, DecodeRings(b, e, next, n - (i + 1), haveZ, haveM, srid))
  {
    if ring.Ok? {
      PrependTwice(pre, Ring(ring.value.coords, srid), DecodeRings(b, e, next, n - (i + 1), haveZ, haveM, srid));
    }
  }

  /** The end of parsePolygon's loop: the rings read are the whole spec. */
  lemma RingsDone(b: seq<Byte>, e: Byte, here: nat, haveZ: bool, haveM: bool, srid: Int32,
                  rings: seq<Ring>, spec: Result<Parsed<seq<Ring>>>)
    requires here <= |b|
    requires spec == Prepend(rings, DecodeRings(b, e, here, 0, haveZ, haveM, srid))
    ensures Agrees(Ok(rings), spec, here)
  {
    PrependDone(rings, here);
  }

  /** One turn of parseGeometryArray's loop, against the array spec. */
  lemma ElementsStep(b: seq<Byte>, e: Byte, here: nat, n: nat, i: nat, srid: Int32, elem: Element,
                     parseSrid: Int32 -> Int32, pre: seq<Geometry>, spec: Result<Parsed<seq<Geometry>>>,
                     child: Result<Geometry>, next: nat)
    requires here <= |b| && i < n
    requires spec == Prepend(pre, DecodeArray(b, e, here, n - i, srid, elem, parseSrid))
    requires Agrees(child, DecodeElement(b, e, here, srid, elem, parseSrid), next)
    ensures child.Fail? ==> spec == Fail(child.error)
    ensures child.Ok? ==>
      next <= |b| && spec == Prepend(pre + [child.value], DecodeArray(b, e, next, n - (i + 1), srid, elem, parseSrid))
  {
    if child.Ok? {
      PrependTwice(pre, child.value, DecodeArray(b, e, next, n - (i + 1), srid, elem, parseSrid));
    }
  }

  // ---------------------------------------------------------------------
  // The Java methods

  /** valueGetterForEndian: byte 0 picks an XDR or an NDR getter. */
  method ValueGetterForEndian(bytes: seq<Byte>) returns (r: Result<ValueGetter>)
    ensures r.Ok? <==> |bytes| > 0 && IsEndianMarker(bytes[0])
    ensures |bytes| == 0 ==> r == Fail(Truncated)
    ensures |bytes| > 0 && !IsEndianMarker(bytes[0]) ==> r == Fail(UnknownEndian)
    ensures r.Ok? ==> |bytes| > 0 && IsEndianMarker(bytes[0]) && fresh(r.value) && r.value.Valid()
    ensures r.Ok? ==> r.value.data == bytes && r.value.endian == bytes[0] && r.value.position == 0
  {
    if |bytes| == 0 {
      return Fail(Truncated);
    }
    if bytes[0] == XDR {
      var getter := new ValueGetter(bytes, XDR);
      return Ok(getter);
    } else if bytes[0] == NDR {
      var getter := new ValueGetter(bytes, NDR);
      return Ok(getter);
    }
    return Fail(UnknownEndian);
  }

  /** parse(byte[]) */
  method Parse(value: seq<Byte>, parseSrid: Int32 -> Int32) returns (r: Result<Geometry>)
    ensures r == Decode(value, parseSrid)
  {
    var getter :- ValueGetterForEndian(value);
    r := ParseTopGeometry(getter, parseSrid);
  }

  /** parse(String): the hex digits are turned into bytes by the external
      StringByteGetter, given here as `hexBytes`. */
  method ParseHex(value: string, hexBytes: string -> seq<Byte>, parseSrid: Int32 -> Int32)
    returns (r: Result<Geometry>)
    ensures r == Decode(hexBytes(value), parseSrid)
  {
    r := Parse(hexBytes(value), parseSrid);
  }

  /** parseGeometry(ValueGetter): a top-level geometry, SRID 0 unless flagged. */
  method ParseTopGeometry(data: ValueGetter, parseSrid: Int32 -> Int32) returns (r: Result<Geometry>)
    requires data.Valid()
    modifies data
    ensures data.Valid()
    ensures Agrees(r, DecodeGeometry(data.data, data.endian, old(data.position), 0, false, parseSrid), data.position)
  {
    r := ParseGeometry(data, 0, false, parseSrid);
  }

  /** parseGeometry(ValueGetter, int, boolean) */
  method ParseGeometry(data: ValueGetter, srid: Int32, inheritSrid: bool, parseSrid: Int32 -> Int32)
    returns (r: Result<Geometry>)
    requires data.Valid()
    modifies data
    ensures data.Valid() && old(data.position) <= data.position
    ensures Agrees(r, DecodeGeometry(data.data, data.endian, old(data.position), srid, inheritSrid, parseSrid),
                   data.position)
    decreases |data.data| - data.position, 0
  {
    ghost var b, e, p0 := data.data, data.endian, data.position;
    var endian :- data.GetByte();
    if endian != data.endian {
      return Fail(EndianMismatch);
    }
    var typeword :- data.GetInt();
    var t := DecodeTypeWord(typeword);
    var resolved := srid;
    if t.haveS {
      var raw :- data.GetInt();
      var newsrid := parseSrid(raw);
      if inheritSrid && newsrid != srid {
        return Fail(InconsistentSrid);
      } else {
        resolved := newsrid;
      }
    } else if !inheritSrid {
      resolved := UNKNOWN_SRID;
    }
    assert DecodeHeader(b, e, p0, srid, inheritSrid, parseSrid) == Ok(Parsed((t, resolved), data.position));
    var result := ParseBody(data, t, resolved, parseSrid);
    if result.Fail? {
      return Fail(result.error);
    }
    r := Ok(result.value.(srid := resolved));
  }

  /** The switch of parseGeometry: one parse method per kind, no fallback. */
  method ParseBody(data: ValueGetter, t: TypeInfo, srid: Int32, parseSrid: Int32 -> Int32)
    returns (r: Result<Geometry>)
    requires data.Valid()
    modifies data
    ensures data.Valid() && old(data.position) <= data.position
    ensures Agrees(r, DecodeBody(data.data, data.endian, old(data.position), t, srid, parseSrid), data.position)
    decreases |data.data| - data.position, 5
  {
    if t.kind == POINT {
      r := ParsePoint(data, t.haveZ, t.haveM);
    } else if t.kind == LINESTRING {
      r := ParseLineString(data, t.haveZ, t.haveM);
    } else if t.kind == POLYGON {
      r := ParsePolygon(data, t.haveZ, t.haveM, srid);
    } else if t.kind == MULTIPOINT {
      r := ParseMultiPoint(data, srid, parseSrid);
    } else if t.kind == MULTILINESTRING {
      r := ParseMultiLineString(data, srid, parseSrid);
    } else if t.kind == MULTIPOLYGON {
      r := ParseMultiPolygon(data, srid, parseSrid);
    } else if t.kind == GEOMETRYCOLLECTION {
      r := ParseCollection(data, srid, parseSrid);
    } else {
      r := Fail(UnknownType);
    }
  }

  /** parsePoint: X, Y, Z if flagged, then the M value skipped. */
  method ParsePoint(data: ValueGetter, haveZ: bool, haveM: bool) returns (r: Result<Geometry>)
    requires data.Valid()
    modifies data
    ensures data.Valid() && old(data.position) <= data.position
    ensures Agrees(r, DecodePoint(data.data, data.endian, old(data.position), haveZ, haveM), data.position)
  {
    var x :- data.GetDouble();
    var y :- data.GetDouble();
    var result: Geometry;
    if haveZ {
      var z :- data.GetDouble();
      result := Point(Coord(x, y, Some(z)), 0);
    } else {
      result := Point(Coord(x, y, None), 0);
    }
    if haveM {
      var _ :- data.GetDouble();
    }
    r := Ok(result);
  }

  /** The body of parseGeometryArray's loop: a full geometry with the
      inherited SRID, stored into a typed array that rejects a child of
      another kind (ArrayStoreException). */
  method ParseElement(data: ValueGetter, srid: Int32, elem: Element, parseSrid: Int32 -> Int32)
    returns (r: Result<Geometry>)
    requires data.Valid()
    modifies data
    ensures data.Valid() && old(data.position) <= data.position
    ensures Agrees(r, DecodeElement(data.data, data.endian, old(data.position), srid, elem, parseSrid), data.position)
    decreases |data.data| - data.position, 1
  {
    var child :- ParseGeometry(data, srid, true, parseSrid);
    if !Fits(elem, child) {
      return Fail(WrongChildKind);
    }
    r := Ok(child);
  }

  /** parseGeometryArray: fills `container` in order, each element a full
      geometry decoded with the inherited SRID; a child the typed array
      cannot hold fails the store. */
  method ParseGeometryArray(data: ValueGetter, container: array<Geometry>, srid: Int32, elem: Element,
                            parseSrid: Int32 -> Int32) returns (r: Result<()>)
    requires data.Valid()
    modifies data, container
    ensures data.Valid() && old(data.position) <= data.position
    ensures var spec := DecodeArray(data.data, data.endian, old(data.position), container.Length, srid, elem, parseSrid);
      (spec.Ok? ==> r.Ok? && container[..] == spec.value.value && data.position == spec.value.next) &&
      (spec.Fail? ==> r == Fail(spec.error))
    decreases |data.data| - data.position, 2
  {
    hide DecodeElement, DecodeGeometry;
    ghost var b, e, p0, n := data.data, data.endian, data.position, container.Length;
    ghost var spec := DecodeArray(b, e, p0, n, srid, elem, parseSrid);
    ghost var done: seq<Geometry> := [];
    PrependNothing(spec);
    for i := 0 to container.Length
      invariant data.Valid() && p0 <= data.position && |done| == i
      invariant spec == Prepend(done, DecodeArray(b, e, data.position, n - i, srid, elem, parseSrid))
      invariant container[..i] == done
    {
      ghost var here := data.position;
      var child := ParseElement(data, srid, elem, parseSrid);
      ElementsStep(b, e, here, n, i, srid, elem, parseSrid, done, spec, child, data.position);
      if child.Fail? {
        return Fail(child.error);
      }
      container[i] := child.value;
      done := done + [child.value];
    }
    assert container[..] == container[..n];
    PrependDone(done, data.position);
    r := Ok(());
  }


  /** parseCS: a count, then that many coordinates. */
  method ParseCS(data: ValueGetter, haveZ: bool, haveM: bool) returns (r: Result<seq<Coord>>)
    requires data.Valid()
    modifies data
    ensures data.Valid() && old(data.position) <= data.position
    ensures Agrees(r, DecodeCS(data.data, data.endian, old(data.position), haveZ, haveM), data.position)
  {
    var count :- data.GetInt();
    if count < 0 {
      return Fail(NegativeSize);
    }
    r := ParseCoords(data, count, haveZ, haveM);
  }

  /** parseCS's loop: `n` coordinates set one after another. */
  method ParseCoords(data: ValueGetter, n: nat, haveZ: bool, haveM: bool) returns (r: Result<seq<Coord>>)
    requires data.Valid()
    modifies data
    ensures data.Valid() && old(data.position) <= data.position
    ensures Agrees(r, DecodeCoords(data.data, data.endian, old(data.position), n, haveZ, haveM), data.position)
  {
    hide DecodeCoord;
    ghost var b, e, p0 := data.data, data.endian, data.position;
    ghost var spec := DecodeCoords(b, e, p0, n, haveZ, haveM);
    var cs: seq<Coord> := [];
    PrependNothing(spec);
    for i: nat := 0 to n
      invariant data.Valid() && p0 <= data.position && |cs| == i
      invariant spec == Prepend(cs, DecodeCoords(b, e, data.position, n - i, haveZ, haveM))
    {
      ghost var here := data.position;
      var c := ParseCoordinate(data, haveZ, haveM);
      CoordsStep(b, e, here, n, i, haveZ, haveM, cs, spec, c, data.position);
      if c.Fail? {
        return Fail(c.error);
      }
      cs := cs + [c.value];
    }
    PrependDone(cs, data.position);
    r := Ok(cs);
  }

  /** The body of parseCS's loop: `dims` ordinates through `setOrdinate`,
      then the M value skipped. */
  method ParseCoordinate(data: ValueGetter, haveZ: bool, haveM: bool) returns (r: Result<Coord>)
    requires data.Valid()
    modifies data
    ensures data.Valid() && old(data.position) <= data.position
    ensures Agrees(r, DecodeCoord(data.data, data.endian, old(data.position), haveZ, haveM), data.position)
  {
    hide Word64At;
    ghost var b, e, here := data.data, data.endian, data.position;
    var dims := if haveZ then 3 else 2;
    var ords: seq<Word64> := [];
    for d := 0 to dims
      invariant data.Valid() && data.position == here + 8 * d && |ords| == d
      invariant forall j :: 0 <= j < d ==> ords[j] == Word64At(b, e, here + 8 * j)
    {
      var w :- data.GetDouble();
      ords := ords + [w];
    }
    if haveM {
      var _ :- data.GetDouble();
    }
    r := Ok(Coord(ords[0], ords[1], if haveZ then Some(ords[2]) else None));
  }

  /** parseLineString */
  method ParseLineString(data: ValueGetter, haveZ: bool, haveM: bool) returns (r: Result<Geometry>)
    requires data.Valid()
    modifies data
    ensures data.Valid() && old(data.position) <= data.position
    ensures Agrees(r, DecodeLineString(data.data, data.endian, old(data.position), haveZ, haveM), data.position)
  {
    var cs :- ParseCS(data, haveZ, haveM);
    r := Ok(LineString(cs, 0));
  }

  /** parseLinearRing: a ring with the factory's SRID 0. */
  method ParseLinearRing(data: ValueGetter, haveZ: bool, haveM: bool) returns (r: Result<Ring>)
    requires data.Valid()
    modifies data
    ensures data.Valid() && old(data.position) <= data.position
    ensures Agrees(r, DecodeRing(data.data, data.endian, old(data.position), haveZ, haveM), data.position)
  {
    var cs :- ParseCS(data, haveZ, haveM);
    r := Ok(Ring(cs, 0));
  }

  /** parsePolygon: the hole count is the ring count minus one in `int`
      arithmetic, and its array is made before the shell is read; the
      shell and every hole are stamped with `srid`. */
  method ParsePolygon(data: ValueGetter, haveZ: bool, haveM: bool, srid: Int32) returns (r: Result<Geometry>)
    requires data.Valid()
    modifies data
    ensures data.Valid() && old(data.position) <= data.position
    ensures Agrees(r, DecodePolygon(data.data, data.endian, old(data.position), haveZ, haveM, srid), data.position)
  {
    hide DecodeRing, DecodeRings, DecodeCS;
    var count :- data.GetInt();
    var holecount := Wrap32(count as int - 1);
    if holecount < 0 {
      return Fail(NegativeSize);
    }
    var shell :- ParseLinearRing(data, haveZ, haveM);
    shell := shell.(srid := srid);
    var holes :- ParseHoles(data, holecount, haveZ, haveM, srid);
    r := Ok(Polygon(shell, holes, 0));
  }

  /** parsePolygon's loop: each hole read as a linear ring, stored in
      order and stamped with `srid`. */
  method ParseHoles(data: ValueGetter, n: nat, haveZ: bool, haveM: bool, srid: Int32)
    returns (r: Result<seq<Ring>>)
    requires data.Valid()
    modifies data
    ensures data.Valid() && old(data.position) <= data.position
    ensures Agrees(r, DecodeRings(data.data, data.endian, old(data.position), n, haveZ, haveM, srid), data.position)
  {
    hide DecodeRings, DecodeRing, DecodeCS, DecodeCoords, Prepend, Agrees;
    ghost var b, e, p0 := data.data, data.endian, data.position;
    ghost var spec := DecodeRings(b, e, p0, n, haveZ, haveM, srid);
    var rings: seq<Ring> := [];
    PrependNothing(spec);
    for i := 0 to n
      invariant data.Valid() && p0 <= data.position && |rings| == i
      invariant spec == Prepend(rings, DecodeRings(b, e, data.position, n - i, haveZ, haveM, srid))
    {
      ghost var here := data.position;
      var ring := ParseLinearRing(data, haveZ, haveM);
      ghost var post := if ring.Ok? then rings + [Ring(ring.value.coords, srid)] else rings;
      RingsStep(b, e, here, n, i, haveZ, haveM, srid, rings, post, spec, ring, data.position);
      if ring.Fail? {
        return Fail(ring.error);
      }
      rings := rings + [Ring(ring.value.coords, srid)];
    }
    RingsDone(b, e, data.position, haveZ, haveM, srid, rings, spec);
    r := Ok(rings);
  }

  /** The shared shape of parseMultiPoint, parseMultiLineString,
      parseMultiPolygon and parseCollection: a count, a typed array of that
      size, the array filled, the node built with the factory's SRID 0. */
  method ParseMulti(data: ValueGetter, kind: int, srid: Int32, parseSrid: Int32 -> Int32) returns (r: Result<Geometry>)
    requires data.Valid() && MULTIPOINT <= kind <= GEOMETRYCOLLECTION
    modifies data
    ensures data.Valid() && old(data.position) <= data.position
    ensures Agrees(r, DecodeMulti(data.data, data.endian, old(data.position), kind, srid, parseSrid), data.position)
    decreases |data.data| - data.position, 3
  {
    var count :- data.GetInt();
    if count < 0 {
      return Fail(NegativeSize);
    }
    var container := new Geometry[count];
    var filled :- ParseGeometryArray(data, container, srid, ElementOf(kind), parseSrid);
    r := Ok(Collect(kind, container[..], 0));
  }

  /** parseMultiPoint: children must be points. */
  method ParseMultiPoint(data: ValueGetter, srid: Int32, parseSrid: Int32 -> Int32) returns (r: Result<Geometry>)
    requires data.Valid()
    modifies data
    ensures data.Valid() && old(data.position) <= data.position
    ensures Agrees(r, DecodeMulti(data.data, data.endian, old(data.position), MULTIPOINT, srid, parseSrid), data.position)
    decreases |data.data| - data.position, 4
  {
    r := ParseMulti(data, MULTIPOINT, srid, parseSrid);
  }

  /** parseMultiLineString: children must be line strings. */
  method ParseMultiLineString(data: ValueGetter, srid: Int32, parseSrid: Int32 -> Int32) returns (r: Result<Geometry>)
    requires data.Valid()
    modifies data
    ensures data.Valid() && old(data.position) <= data.position
    ensures Agrees(r, DecodeMulti(data.data, data.endian, old(data.position), MULTILINESTRING, srid, parseSrid),
                   data.position)
    decreases |data.data| - data.position, 4
  {
    r := ParseMulti(data, MULTILINESTRING, srid, parseSrid);
  }

  /** parseMultiPolygon: children must be polygons. */
  method ParseMultiPolygon(data: ValueGetter, srid: Int32, parseSrid: Int32 -> Int32) returns (r: Result<Geometry>)
    requires data.Valid()
    modifies data
    ensures data.Valid() && old(data.position) <= data.position
    ensures Agrees(r, DecodeMulti(data.data, data.endian, old(data.position), MULTIPOLYGON, srid, parseSrid),
                   data.position)
    decreases |data.data| - data.position, 4
  {
    r := ParseMulti(data, MULTIPOLYGON, srid, parseSrid);
  }

  /** parseCollection: children of any kind. */
  method ParseCollection(data: ValueGetter, srid: Int32, parseSrid: Int32 -> Int32) returns (r: Result<Geometry>)
    requires data.Valid()
    modifies data
    ensures data.Valid() && old(data.position) <= data.position
    ensures Agrees(r, DecodeMulti(data.data, data.endian, old(data.position), GEOMETRYCOLLECTION, srid, parseSrid),
                   data.position)
    decreases |data.data| - data.position, 4
  {
    r := ParseMulti(data, GEOMETRYCOLLECTION, srid, parseSrid);
  }
}
