/** Properties of the decoder specification: the SRID rules,
    how many bytes coordinates take, the polygon ring count and the kinds
    and the SRIDs of the children of a collection. */
module ParserProperties {
  import opened Wire
  import opened ValueGetters
  import opened Geometries
  import opened JtsBinaryParser

  // ---------------------------------------------------------------------
  // Coordinates

  /** `n` slim coordinates decode exactly when their bytes are all there,
      and then take `n` times the width of one coordinate. */
  lemma {:induction false} CoordsSize(b: seq<Byte>, e: Byte, pos: nat, n: nat, haveZ: bool, haveM: bool)
    requires pos <= |b|
    ensures var r := DecodeCoords(b, e, pos, n, haveZ, haveM);
      (r.Ok? <==> pos + n * CoordSize(haveZ, haveM) <= |b|) &&
      (r.Ok? ==> r.value.next == pos + n * CoordSize(haveZ, haveM)) &&
      (r.Fail? ==> r.error == Truncated)
    decreases n
  {
    hide DecodeCoords, DecodeCoord;
    var w := CoordSize(haveZ, haveM);
    CoordsUnfold(b, e, pos, n, haveZ, haveM);
    if n > 0 {
      assert n * w == w + (n - 1) * w;
      if pos + w <= |b| {
        CoordsSize(b, e, pos + w, n - 1, haveZ, haveM);
      }
    }
  }

  /** One step of the coordinates decoder, seen from its positions only. */
  lemma CoordsUnfold(b: seq<Byte>, e: Byte, pos: nat, n: nat, haveZ: bool, haveM: bool)
    requires pos <= |b|
    ensures var w := CoordSize(haveZ, haveM);
      var r := DecodeCoords(b, e, pos, n, haveZ, haveM);
      (n == 0 ==> r == Ok(Parsed([], pos))) &&
      (n > 0 && pos + w > |b| ==> r == Fail(Truncated)) &&
      (n > 0 && pos + w <= |b| ==>
        var rest := DecodeCoords(b, e, pos + w, n - 1, haveZ, haveM);
        (rest.Fail? ==> r == rest) && (rest.Ok? ==> r.Ok? && r.value.next == rest.value.next))
  {
    hide Word64At;
  }

  /** A slim array decodes exactly when its count is present and not
      negative and all its coordinates are present. */
  lemma CSSize(b: seq<Byte>, e: Byte, pos: nat, haveZ: bool, haveM: bool)
    ensures var r := DecodeCS(b, e, pos, haveZ, haveM);
      (pos + 4 > |b| ==> r == Fail(Truncated)) &&
      (pos + 4 <= |b| ==>
        var count := ToInt32(UInt32At(b, e, pos));
        (count < 0 ==> r == Fail(NegativeSize)) &&
        (count >= 0 ==>
          (r.Ok? <==> pos + 4 + count * CoordSize(haveZ, haveM) <= |b|) &&
          (r.Ok? ==> |r.value.value| == count && r.value.next == pos + 4 + count * CoordSize(haveZ, haveM)) &&
          (r.Fail? ==> r.error == Truncated)))
  {
    if pos + 4 <= |b| && ToInt32(UInt32At(b, e, pos)) >= 0 {
      CoordsSize(b, e, pos + 4, ToInt32(UInt32At(b, e, pos)), haveZ, haveM);
    }
  }

  /** The M ordinate is read and dropped: with the M flag a coordinate is
      the same value 8 bytes wider, and the M bytes do not affect it. */
  lemma MDiscarded(b: seq<Byte>, b': seq<Byte>, e: Byte, pos: nat, haveZ: bool)
    requires |b| == |b'|
    requires forall k :: 0 <= k < |b| && !(pos + 8 * Dims(haveZ) <= k < pos + CoordSize(haveZ, true)) ==> b[k] == b'[k]
    ensures var r := DecodeCoord(b, e, pos, haveZ, true);
      r == DecodeCoord(b', e, pos, haveZ, true) &&
      (r.Ok? ==> DecodeCoord(b, e, pos, haveZ, false) == Ok(Parsed(r.value.value, r.value.next - 8)))
  {
    if pos + CoordSize(haveZ, true) <= |b| {
      assert Word64At(b, e, pos) == Word64At(b', e, pos);
      assert Word64At(b, e, pos + 8) == Word64At(b', e, pos + 8);
      if haveZ {
        assert Word64At(b, e, pos + 16) == Word64At(b', e, pos + 16);
      }
    }
  }

  // ---------------------------------------------------------------------
  // Polygons

  /** Every decoded ring carries the SRID it was stamped with. */
  lemma {:induction false} RingsSrid(b: seq<Byte>, e: Byte, pos: nat, n: nat, haveZ: bool, haveM: bool, srid: Int32)
    requires pos <= |b|
    ensures var r := DecodeRings(b, e, pos, n, haveZ, haveM, srid);
      r.Ok? ==> RingsHaveSrid(r.value.value, srid)
    decreases n
  {
    if n > 0 {
      var ring := DecodeRing(b, e, pos, haveZ, haveM);
      if ring.Ok? {
        RingsSrid(b, e, ring.value.next, n - 1, haveZ, haveM, srid);
      }
    }
  }

  /** A polygon with ring count R has one shell and R - 1 holes (R - 1 in
      `int` arithmetic, so a count of -2^31 reads as 2^31 - 1 holes), every
      ring with the given SRID. */
  lemma PolygonRings(b: seq<Byte>, e: Byte, pos: nat, haveZ: bool, haveM: bool, srid: Int32)
    requires DecodePolygon(b, e, pos, haveZ, haveM, srid).Ok?
    ensures pos + 4 <= |b|
    ensures var p := DecodePolygon(b, e, pos, haveZ, haveM, srid).value.value;
      var count := ToInt32(UInt32At(b, e, pos));
      (count >= 1 || count == -0x8000_0000) && |p.holes| == Wrap32(count - 1) &&
      p.shell.srid == srid && RingsHaveSrid(p.holes, srid)
  {
    var count := ReadInt(b, e, pos).value;
    var holecount := Wrap32(count.value - 1);
    var shell := DecodeRing(b, e, count.next, haveZ, haveM).value;
    var holes := DecodeRings(b, e, shell.next, holecount, haveZ, haveM, srid);
    assert DecodePolygon(b, e, pos, haveZ, haveM, srid).value.value == Polygon(Ring(shell.value.coords, srid), holes.value.value, 0);
    RingsSrid(b, e, shell.next, holecount, haveZ, haveM, srid);
  }

  /** A ring count of zero or below fails before any ring is read; only
      the lowest `int`, whose decrement wraps around, escapes this. */
  lemma PolygonNoRings(b: seq<Byte>, e: Byte, pos: nat, haveZ: bool, haveM: bool, srid: Int32)
    requires pos + 4 <= |b| && -0x8000_0000 < ToInt32(UInt32At(b, e, pos)) <= 0
    ensures DecodePolygon(b, e, pos, haveZ, haveM, srid) == Fail(NegativeSize)
  {
  }

  // ---------------------------------------------------------------------
  // SRIDs and the kinds of children

  /** A decoded geometry is uniform: its SRID is on every node and ring
      below it; a nested one has exactly the SRID it inherits. */
  lemma GeometryUniform(b: seq<Byte>, e: Byte, pos: nat, srid: Int32, inherit: bool, parseSrid: Int32 -> Int32)
    ensures var r := DecodeGeometry(b, e, pos, srid, inherit, parseSrid);
      r.Ok? ==> Uniform(r.value.value, r.value.value.srid) && (inherit ==> r.value.value.srid == srid)
    decreases |b| - pos, 0
  {
    hide DecodeBody;
    var h := DecodeHeader(b, e, pos, srid, inherit, parseSrid);
    if h.Ok? {
      BodyBelow(b, e, h.value.next, h.value.value.0, h.value.value.1, parseSrid);
    }
  }

  /** The node a parse method returns has the SRID it was given on every
      ring and every child. */
  lemma BodyBelow(b: seq<Byte>, e: Byte, pos: nat, t: TypeInfo, srid: Int32, parseSrid: Int32 -> Int32)
    requires pos <= |b|
    ensures var r := DecodeBody(b, e, pos, t, srid, parseSrid);
      r.Ok? ==> BelowHaveSrid(r.value.value, srid)
    decreases |b| - pos, 4
  {
    if t.kind == POLYGON && DecodePolygon(b, e, pos, t.haveZ, t.haveM, srid).Ok? {
      PolygonRings(b, e, pos, t.haveZ, t.haveM, srid);
    } else if MULTIPOINT <= t.kind <= GEOMETRYCOLLECTION {
      MultiParts(b, e, pos, t.kind, srid, parseSrid);
    }
  }

  /** A collection with count N has N children, in the order they are
      stored, each of the kind its typed array holds and each uniform with
      the collection's SRID; a negative count fails. */
  lemma MultiParts(b: seq<Byte>, e: Byte, pos: nat, kind: int, srid: Int32, parseSrid: Int32 -> Int32)
    requires MULTIPOINT <= kind <= GEOMETRYCOLLECTION
    ensures var r := DecodeMulti(b, e, pos, kind, srid, parseSrid);
      r.Ok? ==>
        pos + 4 <= |b| && |r.value.value.parts| == ToInt32(UInt32At(b, e, pos)) &&
        forall i :: 0 <= i < |r.value.value.parts| ==>
          Fits(ElementOf(kind), r.value.value.parts[i]) && Uniform(r.value.value.parts[i], srid)
    ensures pos + 4 <= |b| && ToInt32(UInt32At(b, e, pos)) < 0 ==>
      DecodeMulti(b, e, pos, kind, srid, parseSrid) == Fail(NegativeSize)
    decreases |b| - pos, 3
  {
    if pos + 4 <= |b| && ToInt32(UInt32At(b, e, pos)) >= 0 {
      ArrayParts(b, e, pos + 4, ToInt32(UInt32At(b, e, pos)), srid, ElementOf(kind), parseSrid);
    }
  }

  /** The children of a collection all fit its element type and all carry
      the inherited SRID throughout. */
  lemma {:induction false} ArrayParts(b: seq<Byte>, e: Byte, pos: nat, n: nat, srid: Int32, elem: Element,
                                      parseSrid: Int32 -> Int32)
    requires pos <= |b|
    ensures var r := DecodeArray(b, e, pos, n, srid, elem, parseSrid);
      r.Ok? ==> forall i :: 0 <= i < |r.value.value| ==> Fits(elem, r.value.value[i]) && Uniform(r.value.value[i], srid)
    decreases |b| - pos, 2, n
  {
    hide DecodeGeometry, Uniform;
    var r := DecodeArray(b, e, pos, n, srid, elem, parseSrid);
    if n > 0 && r.Ok? {
      var child := DecodeElement(b, e, pos, srid, elem, parseSrid).value;
      var d := DecodeGeometry(b, e, pos, srid, true, parseSrid);
      assert d.Ok? && d.value == child && Fits(elem, child.value);
      var rest := DecodeArray(b, e, child.next, n - 1, srid, elem, parseSrid);
      assert rest.Ok? && r.value.value == [child.value] + rest.value.value;
      GeometryUniform(b, e, pos, srid, true, parseSrid);
      assert Uniform(child.value, srid);
      ArrayParts(b, e, child.next, n - 1, srid, elem, parseSrid);
      forall i | 0 <= i < |r.value.value|
        ensures Fits(elem, r.value.value[i]) && Uniform(r.value.value[i], srid)
      {
        if i == 0 {
          assert r.value.value[i] == child.value;
        } else {
          var j := i - 1;
          assert 0 <= j < |rest.value.value| && r.value.value[i] == rest.value.value[j];
          assert Fits(elem, rest.value.value[j]) && Uniform(rest.value.value[j], srid);
        }
      }
    }
  }

  /** The whole decoder's result is uniform; its SRID is the flagged one
      passed through parseSRID, or 0 when the top type word has no SRID flag. */
  lemma DecodedSrid(b: seq<Byte>, parseSrid: Int32 -> Int32)
    requires Decode(b, parseSrid).Ok?
    ensures |b| >= 5 && IsEndianMarker(b[0])
    ensures var g := Decode(b, parseSrid).value;
      var t := DecodeTypeWord(ToInt32(UInt32At(b, b[0], 1)));
      Uniform(g, g.srid) &&
      (t.haveS ==> |b| >= 9 && g.srid == parseSrid(ToInt32(UInt32At(b, b[0], 5)))) &&
      (!t.haveS ==> g.srid == UNKNOWN_SRID)
  {
    hide DecodeBody;
    GeometryUniform(b, b[0], 0, 0, false, parseSrid);
  }

  /** A nested geometry whose own SRID differs from the inherited one fails. */
  lemma NestedSridConflict(b: seq<Byte>, e: Byte, pos: nat, srid: Int32, parseSrid: Int32 -> Int32)
    requires pos + 9 <= |b| && b[pos] == e
    requires DecodeTypeWord(ToInt32(UInt32At(b, e, pos + 1))).haveS
    requires parseSrid(ToInt32(UInt32At(b, e, pos + 5))) != srid
    ensures DecodeGeometry(b, e, pos, srid, true, parseSrid) == Fail(InconsistentSrid)
  {
  }

  /** A nested header must repeat the byte order chosen at the top. */
  lemma NestedEndianMismatch(b: seq<Byte>, e: Byte, pos: nat, srid: Int32, inherit: bool, parseSrid: Int32 -> Int32)
    requires pos < |b| && b[pos] != e
    ensures DecodeGeometry(b, e, pos, srid, inherit, parseSrid) == Fail(EndianMismatch)
  {
  }

  /** A kind outside 1..7 fails once the header is read. */
  lemma UnknownKind(b: seq<Byte>, e: Byte, pos: nat, srid: Int32, inherit: bool, parseSrid: Int32 -> Int32)
    requires DecodeHeader(b, e, pos, srid, inherit, parseSrid).Ok?
    requires !(POINT <= DecodeHeader(b, e, pos, srid, inherit, parseSrid).value.value.0.kind <= GEOMETRYCOLLECTION)
    ensures DecodeGeometry(b, e, pos, srid, inherit, parseSrid) == Fail(UnknownType)
  {
  }

  /** A child of the wrong kind makes the whole array fail. */
  lemma WrongChildFails(b: seq<Byte>, e: Byte, pos: nat, n: nat, srid: Int32, elem: Element, parseSrid: Int32 -> Int32)
    requires pos <= |b| && n > 0
    requires DecodeGeometry(b, e, pos, srid, true, parseSrid).Ok?
    requires !Fits(elem, DecodeGeometry(b, e, pos, srid, true, parseSrid).value.value)
    ensures DecodeArray(b, e, pos, n, srid, elem, parseSrid) == Fail(WrongChildKind)
  {
  }

  // ---------------------------------------------------------------------
  // A concrete value

  /** An XDR type word whose low 29 bits are 99 is an unknown kind. */
  lemma UnknownKindExample(parseSrid: Int32 -> Int32)
    ensures Decode([0, 0, 0, 0, 99], parseSrid) == Fail(UnknownType)
  {
  }
}
