/** What the decoder does with a cut-off value. Every read first checks
    that its bytes are all there, so decoding the first `m` bytes of a
    value repeats the decode of the whole value up to the first read that
    would pass `m`, and that read fails with Truncated (a
    BufferUnderflow/IndexOutOfBounds in the Java getter). */
module Truncation {
  import opened Wire
  import opened ValueGetters
  import opened Geometries
  import opened JtsBinaryParser
  import opened WkbEncoder
  import opened RoundTrip

  /** What a decode that stopped at `r.value.next` on the whole value
      yields on its first `m` bytes. */
  function Cut<T>(r: Result<Parsed<T>>, m: nat): (c: Result<Parsed<T>>)
    ensures c.Ok? ==> c == r && r.value.next <= m
  {
    if r.Ok? && r.value.next > m then Fail(Truncated) else r
  }

  // ---------------------------------------------------------------------
  // Single reads

  lemma ReadBytePrefix(b: seq<Byte>, pos: nat, m: nat)
    requires m <= |b|
    ensures ReadByte(b[..m], pos) == if pos < m then ReadByte(b, pos) else Fail(Truncated)
  {
  }

  lemma ReadIntPrefix(b: seq<Byte>, e: Byte, pos: nat, m: nat)
    requires m <= |b|
    ensures ReadInt(b[..m], e, pos) == if pos + 4 <= m then ReadInt(b, e, pos) else Fail(Truncated)
  {
    if pos + 4 <= m {
      assert UInt32At(b[..m], e, pos) == UInt32At(b, e, pos);
    }
  }

  lemma WordPrefix(b: seq<Byte>, e: Byte, pos: nat, m: nat)
    requires pos + 8 <= m <= |b|
    ensures Word64At(b[..m], e, pos) == Word64At(b, e, pos)
  {
  }

  lemma CoordPrefix(b: seq<Byte>, e: Byte, pos: nat, haveZ: bool, haveM: bool, m: nat)
    requires m <= |b|
    ensures DecodeCoord(b[..m], e, pos, haveZ, haveM)
         == if pos + CoordSize(haveZ, haveM) <= m then DecodeCoord(b, e, pos, haveZ, haveM) else Fail(Truncated)
  {
    hide Word64At;
    if pos + CoordSize(haveZ, haveM) <= m {
      WordPrefix(b, e, pos, m);
      WordPrefix(b, e, pos + 8, m);
      if haveZ {
        WordPrefix(b, e, pos + 16, m);
      }
    }
  }

  // ---------------------------------------------------------------------
  // Coordinate arrays and rings

  lemma {:induction false} CoordsPrefix(b: seq<Byte>, e: Byte, pos: nat, n: nat, haveZ: bool, haveM: bool, m: nat)
    requires pos <= m <= |b|
    ensures DecodeCoords(b, e, pos, n, haveZ, haveM).Ok? ==>
      DecodeCoords(b[..m], e, pos, n, haveZ, haveM) == Cut(DecodeCoords(b, e, pos, n, haveZ, haveM), m)
    decreases n
  {
    hide Word64At;
    if n > 0 {
      CoordPrefix(b, e, pos, haveZ, haveM, m);
      var c := DecodeCoord(b, e, pos, haveZ, haveM);
      if c.Ok? && c.value.next <= m {
        CoordsPrefix(b, e, c.value.next, n - 1, haveZ, haveM, m);
      }
    }
  }

  lemma CSPrefix(b: seq<Byte>, e: Byte, pos: nat, haveZ: bool, haveM: bool, m: nat)
    requires m <= |b|
    ensures DecodeCS(b, e, pos, haveZ, haveM).Ok? ==>
      DecodeCS(b[..m], e, pos, haveZ, haveM) == Cut(DecodeCS(b, e, pos, haveZ, haveM), m)
  {
    hide DecodeCoords, ReadInt;
    ReadIntPrefix(b, e, pos, m);
    var count := ReadInt(b, e, pos);
    if count.Ok? && pos + 4 <= m && count.value.value >= 0 {
      CoordsPrefix(b, e, pos + 4, count.value.value, haveZ, haveM, m);
    }
  }

  lemma RingPrefix(b: seq<Byte>, e: Byte, pos: nat, haveZ: bool, haveM: bool, m: nat)
    requires m <= |b|
    ensures DecodeRing(b, e, pos, haveZ, haveM).Ok? ==>
      DecodeRing(b[..m], e, pos, haveZ, haveM) == Cut(DecodeRing(b, e, pos, haveZ, haveM), m)
  {
    hide DecodeCS;
    CSPrefix(b, e, pos, haveZ, haveM, m);
  }

  lemma {:induction false} RingsPrefix(b: seq<Byte>, e: Byte, pos: nat, n: nat, haveZ: bool, haveM: bool,
                                       srid: Int32, m: nat)
    requires pos <= m <= |b|
    ensures DecodeRings(b, e, pos, n, haveZ, haveM, srid).Ok? ==>
      DecodeRings(b[..m], e, pos, n, haveZ, haveM, srid) == Cut(DecodeRings(b, e, pos, n, haveZ, haveM, srid), m)
    decreases n
  {
    hide DecodeRing;
    if n > 0 {
      RingPrefix(b, e, pos, haveZ, haveM, m);
      var ring := DecodeRing(b, e, pos, haveZ, haveM);
      if ring.Ok? && ring.value.next <= m {
        RingsPrefix(b, e, ring.value.next, n - 1, haveZ, haveM, srid, m);
      }
    }
  }

  // ---------------------------------------------------------------------
  // Bodies

  lemma PointPrefix(b: seq<Byte>, e: Byte, pos: nat, haveZ: bool, haveM: bool, m: nat)
    requires m <= |b|
    ensures DecodePoint(b, e, pos, haveZ, haveM).Ok? ==>
      DecodePoint(b[..m], e, pos, haveZ, haveM) == Cut(DecodePoint(b, e, pos, haveZ, haveM), m)
  {
    hide Word64At;
    CoordPrefix(b, e, pos, haveZ, haveM, m);
  }

  lemma LineStringPrefix(b: seq<Byte>, e: Byte, pos: nat, haveZ: bool, haveM: bool, m: nat)
    requires m <= |b|
    ensures DecodeLineString(b, e, pos, haveZ, haveM).Ok? ==>
      DecodeLineString(b[..m], e, pos, haveZ, haveM) == Cut(DecodeLineString(b, e, pos, haveZ, haveM), m)
  {
    hide DecodeCS;
    CSPrefix(b, e, pos, haveZ, haveM, m);
  }

  lemma PolygonPrefix(b: seq<Byte>, e: Byte, pos: nat, haveZ: bool, haveM: bool, srid: Int32, m: nat)
    requires m <= |b|
    ensures DecodePolygon(b, e, pos, haveZ, haveM, srid).Ok? ==>
      DecodePolygon(b[..m], e, pos, haveZ, haveM, srid) == Cut(DecodePolygon(b, e, pos, haveZ, haveM, srid), m)
  {
    hide DecodeRing, DecodeRings, ReadInt;
    ReadIntPrefix(b, e, pos, m);
    var count := ReadInt(b, e, pos);
    if count.Ok? && pos + 4 <= m {
      RingPrefix(b, e, pos + 4, haveZ, haveM, m);
      var shell := DecodeRing(b, e, pos + 4, haveZ, haveM);
      var holecount := Wrap32(count.value.value - 1);
      if shell.Ok? && shell.value.next <= m && holecount >= 0 {
        RingsPrefix(b, e, shell.value.next, holecount, haveZ, haveM, srid, m);
      }
    }
  }

  // ---------------------------------------------------------------------
  // Geometries, following the decoder's own recursion

  lemma SridPrefix(b: seq<Byte>, e: Byte, pos: nat, srid: Int32, inherit: bool, haveS: bool,
                   parseSrid: Int32 -> Int32, m: nat)
    requires pos <= m <= |b|
    ensures DecodeSrid(b, e, pos, srid, inherit, haveS, parseSrid).Ok? ==>
      DecodeSrid(b[..m], e, pos, srid, inherit, haveS, parseSrid)
        == Cut(DecodeSrid(b, e, pos, srid, inherit, haveS, parseSrid), m)
  {
    ReadIntPrefix(b, e, pos, m);
  }

  lemma HeaderPrefix(b: seq<Byte>, e: Byte, pos: nat, srid: Int32, inherit: bool, parseSrid: Int32 -> Int32, m: nat)
    requires m <= |b|
    ensures DecodeHeader(b, e, pos, srid, inherit, parseSrid).Ok? ==>
      DecodeHeader(b[..m], e, pos, srid, inherit, parseSrid) == Cut(DecodeHeader(b, e, pos, srid, inherit, parseSrid), m)
  {
    hide DecodeSrid, ReadInt, ReadByte;
    ReadBytePrefix(b, pos, m);
    ReadIntPrefix(b, e, pos + 1, m);
    var word := ReadInt(b, e, pos + 1);
    if word.Ok? && pos + 5 <= m {
      var t := DecodeTypeWord(word.value.value);
      SridPrefix(b, e, pos + 5, srid, inherit, t.haveS, parseSrid, m);
    }
  }

  lemma {:induction false} GeometryPrefix(b: seq<Byte>, e: Byte, pos: nat, srid: Int32, inherit: bool,
                                          parseSrid: Int32 -> Int32, m: nat)
    requires m <= |b|
    ensures DecodeGeometry(b, e, pos, srid, inherit, parseSrid).Ok? ==>
      DecodeGeometry(b[..m], e, pos, srid, inherit, parseSrid)
        == Cut(DecodeGeometry(b, e, pos, srid, inherit, parseSrid), m)
    decreases |b| - pos, 0
  {
    hide DecodeHeader, DecodeBody;
    HeaderPrefix(b, e, pos, srid, inherit, parseSrid, m);
    var h := DecodeHeader(b, e, pos, srid, inherit, parseSrid);
    if h.Ok? && h.value.next <= m {
      BodyPrefix(b, e, h.value.next, h.value.value.0, h.value.value.1, parseSrid, m);
    }
  }

  lemma {:induction false} BodyPrefix(b: seq<Byte>, e: Byte, pos: nat, t: TypeInfo, srid: Int32,
                                      parseSrid: Int32 -> Int32, m: nat)
    requires pos <= m <= |b|
    ensures DecodeBody(b, e, pos, t, srid, parseSrid).Ok? ==>
      DecodeBody(b[..m], e, pos, t, srid, parseSrid) == Cut(DecodeBody(b, e, pos, t, srid, parseSrid), m)
    decreases |b| - pos, 4
  {
    hide DecodePoint, DecodeLineString, DecodePolygon, DecodeMulti;
    if t.kind == POINT {
      PointPrefix(b, e, pos, t.haveZ, t.haveM, m);
    } else if t.kind == LINESTRING {
      LineStringPrefix(b, e, pos, t.haveZ, t.haveM, m);
    } else if t.kind == POLYGON {
      PolygonPrefix(b, e, pos, t.haveZ, t.haveM, srid, m);
    } else if MULTIPOINT <= t.kind <= GEOMETRYCOLLECTION {
      MultiPrefix(b, e, pos, t.kind, srid, parseSrid, m);
    }
  }

  lemma {:induction false} MultiPrefix(b: seq<Byte>, e: Byte, pos: nat, kind: int, srid: Int32,
                                       parseSrid: Int32 -> Int32, m: nat)
    requires MULTIPOINT <= kind <= GEOMETRYCOLLECTION
    requires m <= |b|
    ensures DecodeMulti(b, e, pos, kind, srid, parseSrid).Ok? ==>
      DecodeMulti(b[..m], e, pos, kind, srid, parseSrid) == Cut(DecodeMulti(b, e, pos, kind, srid, parseSrid), m)
    decreases |b| - pos, 3
  {
    hide DecodeArray, ReadInt;
    ReadIntPrefix(b, e, pos, m);
    var count := ReadInt(b, e, pos);
    if count.Ok? && pos + 4 <= m && count.value.value >= 0 {
      ArrayPrefix(b, e, pos + 4, count.value.value, srid, ElementOf(kind), parseSrid, m);
    }
  }

  lemma {:induction false} ArrayPrefix(b: seq<Byte>, e: Byte, pos: nat, n: nat, srid: Int32, elem: Element,
                                       parseSrid: Int32 -> Int32, m: nat)
    requires pos <= m <= |b|
    ensures DecodeArray(b, e, pos, n, srid, elem, parseSrid).Ok? ==>
      DecodeArray(b[..m], e, pos, n, srid, elem, parseSrid) == Cut(DecodeArray(b, e, pos, n, srid, elem, parseSrid), m)
    decreases |b| - pos, 2, n
  {
    hide DecodeElement;
    if n > 0 {
      ElementPrefix(b, e, pos, srid, elem, parseSrid, m);
      var child := DecodeElement(b, e, pos, srid, elem, parseSrid);
      if child.Ok? && child.value.next <= m {
        ArrayPrefix(b, e, child.value.next, n - 1, srid, elem, parseSrid, m);
      }
    }
  }

  lemma {:induction false} ElementPrefix(b: seq<Byte>, e: Byte, pos: nat, srid: Int32, elem: Element,
                                         parseSrid: Int32 -> Int32, m: nat)
    requires m <= |b|
    ensures DecodeElement(b, e, pos, srid, elem, parseSrid).Ok? ==>
      DecodeElement(b[..m], e, pos, srid, elem, parseSrid) == Cut(DecodeElement(b, e, pos, srid, elem, parseSrid), m)
    decreases |b| - pos, 1
  {
    hide DecodeGeometry;
    GeometryPrefix(b, e, pos, srid, true, parseSrid, m);
  }

  // ---------------------------------------------------------------------
  // Whole values

  /** A value the decoder reads to its last byte fails with Truncated on
      every proper prefix, the empty one included. */
  lemma PrefixFails(b: seq<Byte>, parseSrid: Int32 -> Int32, m: nat)
    requires |b| > 0 && IsEndianMarker(b[0])
    requires DecodeGeometry(b, b[0], 0, 0, false, parseSrid).Ok?
    requires DecodeGeometry(b, b[0], 0, 0, false, parseSrid).value.next == |b|
    requires m < |b|
    ensures Decode(b[..m], parseSrid) == Fail(Truncated)
  {
    hide DecodeGeometry;
    if m > 0 {
      GeometryPrefix(b, b[0], 0, 0, false, parseSrid, m);
    }
  }

  /** Bytes after the end of the top-level geometry are never looked at:
      cutting them off, or some of them, changes nothing. */
  lemma TrailingIgnored(b: seq<Byte>, parseSrid: Int32 -> Int32, m: nat)
    requires |b| > 0 && IsEndianMarker(b[0])
    requires DecodeGeometry(b, b[0], 0, 0, false, parseSrid).Ok?
    requires DecodeGeometry(b, b[0], 0, 0, false, parseSrid).value.next <= m <= |b|
    ensures Decode(b[..m], parseSrid) == Decode(b, parseSrid)
  {
    hide DecodeGeometry;
    GeometryPrefix(b, b[0], 0, 0, false, parseSrid, m);
  }

  /** Every proper prefix of what the writer writes, in either byte order,
      fails with Truncated. */
  lemma TruncatedFails(g: Geometry, e: Byte, parseSrid: Int32 -> Int32, m: nat)
    requires IsEndianMarker(e) && WellFormed(g) && Uniform(g, g.srid)
    requires g.srid != UNKNOWN_SRID ==> parseSrid(g.srid) == g.srid
    requires m < |Encode(g, e)|
    ensures Decode(Encode(g, e)[..m], parseSrid) == Fail(Truncated)
  {
    hide Encode, EncodeGeometry, GeomLength, At, WellFormed, Uniform, DecodeGeometry, Decode;
    var b := Encode(g, e);
    EncodeStart(g, e);
    GeomRoundTrip(b, e, 0, g, g.srid != UNKNOWN_SRID, 0, false, parseSrid);
    PrefixFails(b, parseSrid, m);
  }
}
