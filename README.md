# JTS PostGIS geometry decoding, in Dafny

This project models the two parts of the `jts-postgis-jdbc` module that
turn a PostGIS column value into a JTS geometry tree:

- **`JtsBinaryParser`**, the decoder of PostGIS extended well-known binary.
  Byte 0 picks the byte order (0 is XDR, big-endian; 1 is NDR, little-endian)
  for a single shared read cursor. Each geometry header then repeats that
  marker and carries a 32-bit type word: the kind is in the low 29 bits, and
  bits 31, 30 and 29 flag Z, M and an SRID. An optional SRID follows, then a
  kind-specific body:
  - a point;
  - a slim coordinate array for a line string;
  - a ring count and slim rings for a polygon;
  - a count and full sub-geometries for the multi kinds and the collection.
  The nested sub-geometries inherit the parent's SRID and must not contradict
  it.
- **`JtsGeometry`**. It has two parts:
  - `geomFromString` picks the hex-WKB path or the `SRID=<n>;<WKT>` text path
    by looking at the trimmed value's prefix.
  - `setSridRecurse` stamps one SRID on a whole tree, the polygon rings
    included.

## How the model is built

Each part takes the form of the code it models.

- **Byte reads.** `ValueGetters.ValueGetter` is a class holding the bytes, the
  fixed byte order and a mutable `position`. Its `GetByte`, `GetInt` and
  `GetDouble` methods advance the cursor and fail with `Truncated` past the
  end.
- **Parse methods.** Every parse method of the Java class is a method of
  module `JtsBinaryParser`. These methods share one getter, as the Java code
  does.
  - The `for` loops of `parseCS`, `parsePolygon` and `parseGeometryArray` are
    loops. `parseGeometryArray` fills a Dafny `array`, as it fills a Java
    array.
  - Each method is proved to agree with a `Decode…` function of the same
    module. That function states its result and the cursor position where
    reading stopped.
- **Decoder properties.** The properties of the decoder are lemmas about
  those functions, in `ParserProperties`:
  - SRID resolution and inheritance;
  - endianness consistency;
  - unknown kinds;
  - the sizes consumed;
  - the discarded M value;
  - the exact ring and child counts;
  - the kinds a typed array accepts.
- **Round trip.** `WkbEncoder` is a writer defined in this model. The
  repository's own `JtsBinaryWriter`, which `JtsGeometry.getValue` uses
  (JtsGeometry.java:51 and :138), is not part of this model.
  `RoundTrip.DecodeEncode` proves that decoding what `WkbEncoder` writes
  gives the geometry back, in both byte orders.
- **Truncated values.** `Truncation` proves that a cut-off value fails
  with `Truncated`: decoding a prefix repeats the whole decode up to the
  first read that runs past the cut. Every proper prefix of a written
  value fails, and bytes after the top-level geometry are never read.
- **Column values.** `JtsGeometry.GeomFromString` is proved equal to the
  function `FromColumn`. The lemmas beside it state the routing, the `SRID=`
  split and the SQL error.
- **SRID fan-out.** `SetSridRecurse` is a recursive method with the source's
  two loops. It is proved equal to the function `WithSrid`, whose properties
  are lemmas: uniform SRID, same shape, unique, last stamp wins, idempotent.
- **Java strings.** `JavaStrings` models the `java.lang` operations that
  `geomFromString` uses: `trim`, `startsWith`, `split` on a plain character
  and `Integer.parseInt`. Each comes with a partner: trimming is idempotent,
  cutting a string into its pieces (`Pieces`) and joining them (`Join`) are
  inverses, and `parseInt` reads back `toString`.

The following stay outside the model and appear as parameters:

- `org.postgis.Geometry.parseSRID` is an arbitrary `Int32 -> Int32`.
- The hex decoding of `StringByteGetter` is an arbitrary `string -> seq<Byte>`.
- The JTS `WKTReader` is an arbitrary `string -> Option<Geometry>`, where
  `None` stands for its `ParseException`.

## Model

| member | source | states |
|---|---|---|
| Wire.ToInt32 | jts-postgis-jdbc/src/main/java/com/tongtu/jts/jdbc/JtsBinaryParser.java:118 | `getInt` reads 32 bits as a Java `int`: negative exactly when the top bit is set, the unsigned value itself below 2^31 |
| Wire.FromInt32 | jts-postgis-jdbc/src/main/java/com/tongtu/jts/jdbc/JtsBinaryParser.java:120-124 | the 32 bits the masks of the type word act on; reading them as an `int` gives the `int` back |
| Wire.Int32RoundTrip | jts-postgis-jdbc/src/main/java/com/tongtu/jts/jdbc/JtsBinaryParser.java:118-124 | reading 32 bits as an `int` and taking its bits again loses nothing |
| Wire.Wrap32 | jts-postgis-jdbc/src/main/java/com/tongtu/jts/jdbc/JtsBinaryParser.java:235 | `int` subtraction wraps: -2^31 - 1 becomes 2^31 - 1, values in range are unchanged |
| Wire.Wrap32Congruent | jts-postgis-jdbc/src/main/java/com/tongtu/jts/jdbc/JtsBinaryParser.java:235 | the wrapped result differs from the exact one by a multiple of 2^32, so it keeps the low 32 bits |
| ValueGetters.ReadByte | jts-postgis-jdbc/src/main/java/com/tongtu/jts/jdbc/JtsBinaryParser.java:114 | a byte read succeeds exactly when a byte is left, yields that byte and advances one; otherwise `Truncated` |
| ValueGetters.ReadInt | jts-postgis-jdbc/src/main/java/com/tongtu/jts/jdbc/JtsBinaryParser.java:118 | an `int` read succeeds exactly when four bytes are left, yields them as a signed `int` in the cursor's byte order and advances four; otherwise `Truncated` |
| ValueGetters.ReadWord | jts-postgis-jdbc/src/main/java/com/tongtu/jts/jdbc/JtsBinaryParser.java:170-174 | a double read succeeds exactly when eight bytes are left, yields their 64 bits in the cursor's byte order and advances eight; otherwise `Truncated` |
| ValueGetters.ValueGetter.constructor | jts-postgis-jdbc/src/main/java/com/tongtu/jts/jdbc/JtsBinaryParser.java:61-63 | a getter over the given bytes with the given byte order, positioned at 0 |
| ValueGetters.ValueGetter.GetByte | jts-postgis-jdbc/src/main/java/com/tongtu/jts/jdbc/JtsBinaryParser.java:114 | returns what `ReadByte` says at the old position and leaves the cursor where it stops |
| ValueGetters.ValueGetter.GetInt | jts-postgis-jdbc/src/main/java/com/tongtu/jts/jdbc/JtsBinaryParser.java:118 | returns what `ReadInt` says at the old position and leaves the cursor where it stops |
| ValueGetters.ValueGetter.GetDouble | jts-postgis-jdbc/src/main/java/com/tongtu/jts/jdbc/JtsBinaryParser.java:170 | returns what `ReadWord` says at the old position and leaves the cursor where it stops |
| Geometries.KindOf | jts-postgis-jdbc/src/main/java/com/tongtu/jts/jdbc/JtsBinaryParser.java:138-159 | every node has a type code 1..7, and it is 4 or more exactly for the collection kinds |
| Geometries.Collect | jts-postgis-jdbc/src/main/java/com/tongtu/jts/jdbc/JtsBinaryParser.java:223 | the factory's collection node for a code 4..7 has that code, the given children in order and the given SRID |
| JtsBinaryParser.DecodeCoords | jts-postgis-jdbc/src/main/java/com/tongtu/jts/jdbc/JtsBinaryParser.java:209-216 | a successful slim array of `n` coordinates has exactly `n` and stops inside the bytes |
| JtsBinaryParser.DecodeRings | jts-postgis-jdbc/src/main/java/com/tongtu/jts/jdbc/JtsBinaryParser.java:239-242 | a successful run of `n` holes has exactly `n` rings |
| JtsBinaryParser.DecodeArray | jts-postgis-jdbc/src/main/java/com/tongtu/jts/jdbc/JtsBinaryParser.java:190-194 | a successful array of `n` sub-geometries has exactly `n` children |
| JtsBinaryParser.DecodeSrid | jts-postgis-jdbc/src/main/java/com/tongtu/jts/jdbc/JtsBinaryParser.java:126-135 | the SRID word is consumed exactly when the SRID flag is set |
| JtsBinaryParser.DecodeHeader | jts-postgis-jdbc/src/main/java/com/tongtu/jts/jdbc/JtsBinaryParser.java:114-135 | a header is 5 bytes, or 9 with the SRID flag, and lies inside the bytes |
| JtsBinaryParser.DecodeBody | jts-postgis-jdbc/src/main/java/com/tongtu/jts/jdbc/JtsBinaryParser.java:137-162 | a successful body consumes at least one byte and yields a node of exactly the kind in the type word |
| JtsBinaryParser.ValueGetterForEndian | jts-postgis-jdbc/src/main/java/com/tongtu/jts/jdbc/JtsBinaryParser.java:59-67 | a fresh getter at position 0 exactly when byte 0 is 0 or 1, with that byte as its byte order; `UnknownEndian` for any other byte 0, `Truncated` for no bytes |
| JtsBinaryParser.Parse | jts-postgis-jdbc/src/main/java/com/tongtu/jts/jdbc/JtsBinaryParser.java:88-91 | the result is `Decode` of the bytes |
| JtsBinaryParser.ParseHex | jts-postgis-jdbc/src/main/java/com/tongtu/jts/jdbc/JtsBinaryParser.java:76-79 | the result is `Decode` of the bytes the hex decoder yields |
| JtsBinaryParser.ParseTopGeometry | jts-postgis-jdbc/src/main/java/com/tongtu/jts/jdbc/JtsBinaryParser.java:100-102 | agrees with the geometry spec at the cursor with no inherited SRID, result and final position |
| JtsBinaryParser.ParseGeometry | jts-postgis-jdbc/src/main/java/com/tongtu/jts/jdbc/JtsBinaryParser.java:113-167 | agrees with `DecodeGeometry`: marker check, type word, SRID resolution and conflict, the body, and the resolved SRID set on the node |
| JtsBinaryParser.ParseBody | jts-postgis-jdbc/src/main/java/com/tongtu/jts/jdbc/JtsBinaryParser.java:137-162 | agrees with `DecodeBody`, the switch on the kind; no fallback kind |
| JtsBinaryParser.ParsePoint | jts-postgis-jdbc/src/main/java/com/tongtu/jts/jdbc/JtsBinaryParser.java:169-185 | agrees with `DecodePoint`: X, Y, Z if flagged, then M read and dropped |
| JtsBinaryParser.ParseElement | jts-postgis-jdbc/src/main/java/com/tongtu/jts/jdbc/JtsBinaryParser.java:192 | agrees with `DecodeElement`: a full geometry inheriting the SRID, refused by the typed array if of the wrong kind |
| JtsBinaryParser.ParseGeometryArray | jts-postgis-jdbc/src/main/java/com/tongtu/jts/jdbc/JtsBinaryParser.java:190-194 | on success the array holds exactly the decoded children in order and the cursor is where they end; otherwise the spec's error |
| JtsBinaryParser.ParseCS | jts-postgis-jdbc/src/main/java/com/tongtu/jts/jdbc/JtsBinaryParser.java:203-218 | agrees with `DecodeCS`: a count, negative fails, then that many coordinates |
| JtsBinaryParser.ParseCoords | jts-postgis-jdbc/src/main/java/com/tongtu/jts/jdbc/JtsBinaryParser.java:209-216 | the loop over the coordinates agrees with `DecodeCoords` |
| JtsBinaryParser.ParseCoordinate | jts-postgis-jdbc/src/main/java/com/tongtu/jts/jdbc/JtsBinaryParser.java:210-215 | the loop over the ordinates, then the M skip, agrees with `DecodeCoord` |
| JtsBinaryParser.ParseLineString | jts-postgis-jdbc/src/main/java/com/tongtu/jts/jdbc/JtsBinaryParser.java:226-228 | agrees with `DecodeLineString`: the slim array as a line with SRID 0 |
| JtsBinaryParser.ParseLinearRing | jts-postgis-jdbc/src/main/java/com/tongtu/jts/jdbc/JtsBinaryParser.java:230-232 | agrees with `DecodeRing`: the slim array as a ring with SRID 0 |
| JtsBinaryParser.ParsePolygon | jts-postgis-jdbc/src/main/java/com/tongtu/jts/jdbc/JtsBinaryParser.java:234-244 | agrees with `DecodePolygon`: hole count R - 1 in `int` arithmetic checked before the shell, shell and holes stamped with the SRID |
| JtsBinaryParser.ParseHoles | jts-postgis-jdbc/src/main/java/com/tongtu/jts/jdbc/JtsBinaryParser.java:239-242 | the holes loop agrees with `DecodeRings` |
| JtsBinaryParser.ParseMulti | jts-postgis-jdbc/src/main/java/com/tongtu/jts/jdbc/JtsBinaryParser.java:246-265 | agrees with `DecodeMulti`: a count, negative fails, a typed array filled, the node with SRID 0 |
| JtsBinaryParser.ParseMultiPoint | jts-postgis-jdbc/src/main/java/com/tongtu/jts/jdbc/JtsBinaryParser.java:220-224 | agrees with `DecodeMulti` for kind 4, children points |
| JtsBinaryParser.ParseMultiLineString | jts-postgis-jdbc/src/main/java/com/tongtu/jts/jdbc/JtsBinaryParser.java:246-251 | agrees with `DecodeMulti` for kind 5, children line strings |
| JtsBinaryParser.ParseMultiPolygon | jts-postgis-jdbc/src/main/java/com/tongtu/jts/jdbc/JtsBinaryParser.java:253-258 | agrees with `DecodeMulti` for kind 6, children polygons |
| JtsBinaryParser.ParseCollection | jts-postgis-jdbc/src/main/java/com/tongtu/jts/jdbc/JtsBinaryParser.java:260-265 | agrees with `DecodeMulti` for kind 7, children of any kind |
| ParserProperties.CoordsSize | jts-postgis-jdbc/src/main/java/com/tongtu/jts/jdbc/JtsBinaryParser.java:209-216 | `n` coordinates decode exactly when n × (dims + M) words are present, stop after exactly those, and otherwise fail `Truncated` |
| ParserProperties.CSSize | jts-postgis-jdbc/src/main/java/com/tongtu/jts/jdbc/JtsBinaryParser.java:203-218 | a slim array fails `Truncated` without its count, `NegativeSize` for a negative count, and otherwise succeeds exactly when all count × (dims + M) words follow, yielding count coordinates |
| ParserProperties.MDiscarded | jts-postgis-jdbc/src/main/java/com/tongtu/jts/jdbc/JtsBinaryParser.java:213-215 | the M bytes do not affect the coordinate, and with M the same coordinate takes 8 more bytes |
| ParserProperties.RingsSrid | jts-postgis-jdbc/src/main/java/com/tongtu/jts/jdbc/JtsBinaryParser.java:239-242 | every hole read carries the polygon's SRID |
| ParserProperties.PolygonRings | jts-postgis-jdbc/src/main/java/com/tongtu/jts/jdbc/JtsBinaryParser.java:234-244 | a decoded polygon had ring count R ≥ 1 (or -2^31, which wraps), has Wrap32(R - 1) holes, and shell and holes carry its SRID |
| ParserProperties.PolygonNoRings | jts-postgis-jdbc/src/main/java/com/tongtu/jts/jdbc/JtsBinaryParser.java:235-236 | a ring count of 0 or below (other than -2^31) fails `NegativeSize` |
| ParserProperties.GeometryUniform | jts-postgis-jdbc/src/main/java/com/tongtu/jts/jdbc/JtsBinaryParser.java:126-164 | every node and ring of a decoded geometry carries its SRID, and a nested one has exactly the inherited SRID |
| ParserProperties.BodyBelow | jts-postgis-jdbc/src/main/java/com/tongtu/jts/jdbc/JtsBinaryParser.java:137-162 | every ring and child of a decoded body carries the SRID passed down |
| ParserProperties.MultiParts | jts-postgis-jdbc/src/main/java/com/tongtu/jts/jdbc/JtsBinaryParser.java:220-265 | a collection with count N has exactly N children, each of its typed array's kind and uniform in the inherited SRID; a negative count fails `NegativeSize` |
| ParserProperties.ArrayParts | jts-postgis-jdbc/src/main/java/com/tongtu/jts/jdbc/JtsBinaryParser.java:190-194 | every child of a decoded array fits the element kind and carries the inherited SRID throughout |
| ParserProperties.DecodedSrid | jts-postgis-jdbc/src/main/java/com/tongtu/jts/jdbc/JtsBinaryParser.java:126-135 | a decoded value starts with a byte-order marker and is uniform; its SRID is `parseSRID` of the SRID word when flagged, else 0 |
| ParserProperties.NestedSridConflict | jts-postgis-jdbc/src/main/java/com/tongtu/jts/jdbc/JtsBinaryParser.java:128-129 | a nested geometry whose flagged SRID differs from the inherited one fails `InconsistentSrid` |
| ParserProperties.NestedEndianMismatch | jts-postgis-jdbc/src/main/java/com/tongtu/jts/jdbc/JtsBinaryParser.java:114-117 | a header whose marker is not the cursor's byte order fails `EndianMismatch` |
| ParserProperties.UnknownKind | jts-postgis-jdbc/src/main/java/com/tongtu/jts/jdbc/JtsBinaryParser.java:160-161 | a kind outside 1..7 fails `UnknownType` once its header is read |
| ParserProperties.WrongChildFails | jts-postgis-jdbc/src/main/java/com/tongtu/jts/jdbc/JtsBinaryParser.java:221 | a child of the wrong kind for the typed array fails the whole array with `WrongChildKind` |
| ParserProperties.UnknownKindExample | jts-postgis-jdbc/src/main/java/com/tongtu/jts/jdbc/JtsBinaryParser.java:160-161 | the XDR bytes `00 00000063` (kind 99) fail `UnknownType` |
| RoundTrip.TypeWordRoundTrip | jts-postgis-jdbc/src/main/java/com/tongtu/jts/jdbc/JtsBinaryParser.java:120-124 | a type word built from a kind below 2^29 and three flags splits back into exactly those |
| RoundTrip.TypeWordOnto | jts-postgis-jdbc/src/main/java/com/tongtu/jts/jdbc/JtsBinaryParser.java:120-124 | every 32-bit word splits into a kind below 2^29 and three flags that build it again |
| RoundTrip.CoordRoundTrip | jts-postgis-jdbc/src/main/java/com/tongtu/jts/jdbc/JtsBinaryParser.java:169-178 | a written coordinate reads back as itself, 16 or 24 bytes later |
| RoundTrip.CoordsRoundTrip | jts-postgis-jdbc/src/main/java/com/tongtu/jts/jdbc/JtsBinaryParser.java:209-216 | written coordinates read back as themselves |
| RoundTrip.CSRoundTrip | jts-postgis-jdbc/src/main/java/com/tongtu/jts/jdbc/JtsBinaryParser.java:203-218 | a written slim array reads back as itself and the cursor stops right after it |
| RoundTrip.RingsRoundTrip | jts-postgis-jdbc/src/main/java/com/tongtu/jts/jdbc/JtsBinaryParser.java:239-242 | written holes read back as themselves, stamped with their SRID |
| RoundTrip.PolygonRoundTrip | jts-postgis-jdbc/src/main/java/com/tongtu/jts/jdbc/JtsBinaryParser.java:234-244 | a written polygon body reads back as the polygon |
| RoundTrip.HeaderRoundTrip | jts-postgis-jdbc/src/main/java/com/tongtu/jts/jdbc/JtsBinaryParser.java:114-135 | a written header reads back as its kind, Z flag, SRID flag and the SRID the node resolves to |
| RoundTrip.BodyRoundTrip | jts-postgis-jdbc/src/main/java/com/tongtu/jts/jdbc/JtsBinaryParser.java:137-162 | a written body reads back as its node with SRID 0, and its rings and children keep their SRID |
| RoundTrip.PartsRoundTrip | jts-postgis-jdbc/src/main/java/com/tongtu/jts/jdbc/JtsBinaryParser.java:190-194 | written children read back as themselves, each inheriting the collection's SRID |
| RoundTrip.GeomRoundTrip | jts-postgis-jdbc/src/main/java/com/tongtu/jts/jdbc/JtsBinaryParser.java:113-167 | a written geometry, wherever it sits, reads back as itself and the cursor stops right after it |
| RoundTrip.DecodeEncode | jts-postgis-jdbc/src/main/java/com/tongtu/jts/jdbc/JtsBinaryParser.java:88-91 | decoding what the writer writes gives back every expressible, SRID-uniform geometry whose SRID `parseSRID` keeps, in both byte orders |
| Truncation.Cut | jts-postgis-jdbc/src/main/java/com/tongtu/jts/jdbc/JtsBinaryParser.java:113-167 | a cut result is either the decode's own success, ending within the cut, or a Truncated failure |
| Truncation.ReadBytePrefix | jts-postgis-jdbc/src/main/java/com/tongtu/jts/jdbc/JtsBinaryParser.java:114 | a byte read on a prefix is the same read when the byte is there, else Truncated |
| Truncation.ReadIntPrefix | jts-postgis-jdbc/src/main/java/com/tongtu/jts/jdbc/JtsBinaryParser.java:118 | an `int` read on a prefix is the same read when its four bytes are there, else Truncated |
| Truncation.WordPrefix | jts-postgis-jdbc/src/main/java/com/tongtu/jts/jdbc/JtsBinaryParser.java:170-171 | a `double` word read within a prefix equals the read on the whole value |
| Truncation.CoordPrefix | jts-postgis-jdbc/src/main/java/com/tongtu/jts/jdbc/JtsBinaryParser.java:210-215 | a coordinate read on a prefix is the same read when its bytes are there, else Truncated |
| Truncation.CoordsPrefix | jts-postgis-jdbc/src/main/java/com/tongtu/jts/jdbc/JtsBinaryParser.java:209-216 | n coordinates that decode from the whole value decode the same from a prefix that holds them, else fail Truncated |
| Truncation.CSPrefix | jts-postgis-jdbc/src/main/java/com/tongtu/jts/jdbc/JtsBinaryParser.java:203-218 | a counted coordinate array that decodes from the whole value decodes the same from a prefix holding all its bytes, and fails with Truncated on a shorter one |
| Truncation.RingPrefix | jts-postgis-jdbc/src/main/java/com/tongtu/jts/jdbc/JtsBinaryParser.java:230-232 | a linear ring that decodes from the whole value decodes the same from a prefix holding all its bytes, and fails with Truncated on a shorter one |
| Truncation.RingsPrefix | jts-postgis-jdbc/src/main/java/com/tongtu/jts/jdbc/JtsBinaryParser.java:239-242 | n rings that decode from the whole value decode the same from a prefix holding all their bytes, and fail with Truncated on a shorter one |
| Truncation.PointPrefix | jts-postgis-jdbc/src/main/java/com/tongtu/jts/jdbc/JtsBinaryParser.java:169-185 | a point body that decodes from the whole value decodes the same from a prefix holding all its bytes, and fails with Truncated on a shorter one |
| Truncation.LineStringPrefix | jts-postgis-jdbc/src/main/java/com/tongtu/jts/jdbc/JtsBinaryParser.java:226-228 | a line-string body that decodes from the whole value decodes the same from a prefix holding all its bytes, and fails with Truncated on a shorter one |
| Truncation.PolygonPrefix | jts-postgis-jdbc/src/main/java/com/tongtu/jts/jdbc/JtsBinaryParser.java:234-244 | a polygon body that decodes from the whole value decodes the same from a prefix holding all its bytes, and fails with Truncated on a shorter one |
| Truncation.SridPrefix | jts-postgis-jdbc/src/main/java/com/tongtu/jts/jdbc/JtsBinaryParser.java:126-135 | the optional SRID field that decodes from the whole value decodes the same from a prefix holding all its bytes, and fails with Truncated on a shorter one |
| Truncation.HeaderPrefix | jts-postgis-jdbc/src/main/java/com/tongtu/jts/jdbc/JtsBinaryParser.java:113-135 | a geometry header that decodes from the whole value decodes the same from a prefix holding all its bytes, and fails with Truncated on a shorter one |
| Truncation.GeometryPrefix | jts-postgis-jdbc/src/main/java/com/tongtu/jts/jdbc/JtsBinaryParser.java:113-167 | a full geometry that decodes from the whole value decodes the same from a prefix holding all its bytes, and fails with Truncated on a shorter one |
| Truncation.BodyPrefix | jts-postgis-jdbc/src/main/java/com/tongtu/jts/jdbc/JtsBinaryParser.java:137-162 | the body of any kind that decodes from the whole value decodes the same from a prefix holding all its bytes, and fails with Truncated on a shorter one |
| Truncation.MultiPrefix | jts-postgis-jdbc/src/main/java/com/tongtu/jts/jdbc/JtsBinaryParser.java:220-224 | a collection body that decodes from the whole value decodes the same from a prefix holding all its bytes, and fails with Truncated on a shorter one |
| Truncation.ArrayPrefix | jts-postgis-jdbc/src/main/java/com/tongtu/jts/jdbc/JtsBinaryParser.java:190-194 | n collection elements that decode from the whole value decode the same from a prefix holding all their bytes, and fail with Truncated on a shorter one |
| Truncation.ElementPrefix | jts-postgis-jdbc/src/main/java/com/tongtu/jts/jdbc/JtsBinaryParser.java:192 | one collection element that decodes from the whole value decodes the same from a prefix holding all its bytes, and fails with Truncated on a shorter one |
| Truncation.PrefixFails | jts-postgis-jdbc/src/main/java/com/tongtu/jts/jdbc/JtsBinaryParser.java:88-91 | a value the decoder reads to its last byte fails with Truncated on every proper prefix, the empty one included |
| Truncation.TrailingIgnored | jts-postgis-jdbc/src/main/java/com/tongtu/jts/jdbc/JtsBinaryParser.java:88-91 | cutting off bytes after the top-level geometry does not change the result |
| Truncation.TruncatedFails | jts-postgis-jdbc/src/main/java/com/tongtu/jts/jdbc/JtsBinaryParser.java:88-91 | every proper prefix of what the writer writes fails with Truncated |
| JavaStrings.Trim | jts-postgis-jdbc/src/main/java/com/tongtu/jts/jdbc/JtsGeometry.java:82 | `trim` yields a string that starts and ends with a non-space |
| JavaStrings.TrimSlice | jts-postgis-jdbc/src/main/java/com/tongtu/jts/jdbc/JtsGeometry.java:82 | `trim` keeps exactly the slice between the leading and trailing characters at or below U+0020 |
| JavaStrings.TrimIdempotent | jts-postgis-jdbc/src/main/java/com/tongtu/jts/jdbc/JtsGeometry.java:92 | trimming a trimmed string changes nothing |
| JavaStrings.IndexOf | jts-postgis-jdbc/src/main/java/com/tongtu/jts/jdbc/JtsGeometry.java:91 | the first `;`: no `;` before it, and none at all when it is the length |
| JavaStrings.Pieces | jts-postgis-jdbc/src/main/java/com/tongtu/jts/jdbc/JtsGeometry.java:91 | the first piece is everything before the first separator, and without a separator the string itself |
| JavaStrings.PiecesFree | jts-postgis-jdbc/src/main/java/com/tongtu/jts/jdbc/JtsGeometry.java:91 | no piece holds the separator |
| JavaStrings.PiecesJoin | jts-postgis-jdbc/src/main/java/com/tongtu/jts/jdbc/JtsGeometry.java:91 | joining the pieces with the separator gives the string back |
| JavaStrings.JoinPieces | jts-postgis-jdbc/src/main/java/com/tongtu/jts/jdbc/JtsGeometry.java:91 | splitting a join of separator-free pieces gives the pieces back |
| JavaStrings.DropTrailingEmpty | jts-postgis-jdbc/src/main/java/com/tongtu/jts/jdbc/JtsGeometry.java:91 | a prefix of the pieces, not ending in an empty piece, that drops only empty pieces |
| JavaStrings.Split | jts-postgis-jdbc/src/main/java/com/tongtu/jts/jdbc/JtsGeometry.java:91 | `split` yields the string itself without a separator; otherwise a prefix of the pieces that drops exactly the trailing run of empty pieces |
| JavaStrings.PiecesEmpty | jts-postgis-jdbc/src/main/java/com/tongtu/jts/jdbc/JtsGeometry.java:91 | every piece is empty exactly when the string is separators only |
| JavaStrings.SplitSecond | jts-postgis-jdbc/src/main/java/com/tongtu/jts/jdbc/JtsGeometry.java:91-93 | with a separator, `split` has a second piece exactly when something other than the separator follows the first one; the first two pieces are then the text before it and the text up to the next separator |
| JavaStrings.SplitPair | jts-postgis-jdbc/src/main/java/com/tongtu/jts/jdbc/JtsGeometry.java:91 | a head and a nonempty tail around one `;` split into exactly those two |
| JavaStrings.SeparatorAfterPrefix | jts-postgis-jdbc/src/main/java/com/tongtu/jts/jdbc/JtsGeometry.java:90-93 | the first `;` comes after the `SRID=` prefix, so `temp[0].substring(5)` is defined |
| JavaStrings.ParseInt | jts-postgis-jdbc/src/main/java/com/tongtu/jts/jdbc/JtsGeometry.java:93 | a number starts with a sign or a digit and is not negative without '-' |
| JavaStrings.ParseRange | jts-postgis-jdbc/src/main/java/com/tongtu/jts/jdbc/JtsGeometry.java:93 | the decimal digits of n read as n below 2^31 and fail from 2^31 on; with '-' they read as -n down to -2^31 and fail below it |
| JavaStrings.ParseDigits | jts-postgis-jdbc/src/main/java/com/tongtu/jts/jdbc/JtsGeometry.java:93 | any digit string, leading zeros allowed, reads as its value when that fits an `int` and fails otherwise, with or without '-' |
| JavaStrings.ParseNonCanonical | jts-postgis-jdbc/src/main/java/com/tongtu/jts/jdbc/JtsGeometry.java:93 | a '+' sign and leading zeros do not change what `parseInt` reads |
| JavaStrings.DigitsLeadingZero | jts-postgis-jdbc/src/main/java/com/tongtu/jts/jdbc/JtsGeometry.java:93 | a leading '0' does not change the value of a digit string |
| JavaStrings.ShowNat | jts-postgis-jdbc/src/main/java/com/tongtu/jts/jdbc/JtsGeometry.java:93 | the decimal digits of `n` without a leading zero, whose value is `n` |
| JavaStrings.ShowIntChars | jts-postgis-jdbc/src/main/java/com/tongtu/jts/jdbc/JtsGeometry.java:93 | `toString` of an `int` is a '-' or a digit followed by digits |
| JavaStrings.ParseShow | jts-postgis-jdbc/src/main/java/com/tongtu/jts/jdbc/JtsGeometry.java:93 | `parseInt` reads back `toString` of every `int` |
| JavaStrings.ParseRejects | jts-postgis-jdbc/src/main/java/com/tongtu/jts/jdbc/JtsGeometry.java:93 | a non-digit after the first character makes `parseInt` fail |
| JtsGeometry.StampRings | jts-postgis-jdbc/src/main/java/com/tongtu/jts/jdbc/JtsGeometry.java:122-125 | every interior ring, in order and with its coordinates, gets the SRID |
| JtsGeometry.SetSridRecurse | jts-postgis-jdbc/src/main/java/com/tongtu/jts/jdbc/JtsGeometry.java:112-127 | the tree left behind is `WithSrid(g, s)` |
| JtsGeometry.WithSridUniform | jts-postgis-jdbc/src/main/java/com/tongtu/jts/jdbc/JtsGeometry.java:113-126 | afterwards the root, every descendant at any depth and every ring carries `s` |
| JtsGeometry.WithSridShape | jts-postgis-jdbc/src/main/java/com/tongtu/jts/jdbc/JtsGeometry.java:112-127 | only SRID fields change: kinds, child and ring order and coordinates stay |
| JtsGeometry.WithSridUnique | jts-postgis-jdbc/src/main/java/com/tongtu/jts/jdbc/JtsGeometry.java:112-127 | any tree of the same shape carrying `s` everywhere is the result |
| JtsGeometry.SameShapeReflexive | jts-postgis-jdbc/src/main/java/com/tongtu/jts/jdbc/JtsGeometry.java:112-127 | every tree has its own shape |
| JtsGeometry.SameShapeTransitive | jts-postgis-jdbc/src/main/java/com/tongtu/jts/jdbc/JtsGeometry.java:112-127 | having the same shape is transitive |
| JtsGeometry.WithSridFixed | jts-postgis-jdbc/src/main/java/com/tongtu/jts/jdbc/JtsGeometry.java:112-127 | a tree already carrying `s` everywhere is left unchanged |
| JtsGeometry.WithSridLastWins | jts-postgis-jdbc/src/main/java/com/tongtu/jts/jdbc/JtsGeometry.java:112-127 | stamping `t` and then `s` equals stamping `s` |
| JtsGeometry.WithSridIdempotent | jts-postgis-jdbc/src/main/java/com/tongtu/jts/jdbc/JtsGeometry.java:112-127 | stamping twice with the same SRID equals stamping once |
| JtsGeometry.SridAndText | jts-postgis-jdbc/src/main/java/com/tongtu/jts/jdbc/JtsGeometry.java:88-94 | without the `SRID=` prefix the SRID is 0 and the text is the value itself |
| JtsGeometry.SridTextRead | jts-postgis-jdbc/src/main/java/com/tongtu/jts/jdbc/JtsGeometry.java:88-94 | with the `SRID=` prefix and i the first `;`: no result exactly when there is no `;`, only `;`s follow it, or the text between `SRID=` and it is not an `int`; otherwise that number and the trimmed text up to the next `;` |
| JtsGeometry.FromColumn | jts-postgis-jdbc/src/main/java/com/tongtu/jts/jdbc/JtsGeometry.java:100-103 | every failure, on either path, is the one SQL error |
| JtsGeometry.GeomFromString | jts-postgis-jdbc/src/main/java/com/tongtu/jts/jdbc/JtsGeometry.java:80-104 | the method, with its two routes, its locals and its `setSridRecurse` call, yields `FromColumn` |
| JtsGeometry.SplitSrid | jts-postgis-jdbc/src/main/java/com/tongtu/jts/jdbc/JtsGeometry.java:88-94 | the method's split, trim and `parseInt` yield `SridAndText` |
| JtsGeometry.HexRoute | jts-postgis-jdbc/src/main/java/com/tongtu/jts/jdbc/JtsGeometry.java:82-85 | a trimmed value starting "00" or "01" succeeds exactly when the binary parser does, with the parser's geometry and SRIDs as they are |
| JtsGeometry.TextRoute | jts-postgis-jdbc/src/main/java/com/tongtu/jts/jdbc/JtsGeometry.java:86-98 | other values succeed exactly when the prefix is well formed and the WKT reader succeeds, yielding the reader's tree of the same shape with the prefix's SRID on every node |
| JtsGeometry.PlainTextRoute | jts-postgis-jdbc/src/main/java/com/tongtu/jts/jdbc/JtsGeometry.java:88 | text without a prefix gets SRID 0 on every node, whatever the reader set |
| JtsGeometry.SridPrefixRead | jts-postgis-jdbc/src/main/java/com/tongtu/jts/jdbc/JtsGeometry.java:90-93 | `SRID=<n>;<w>` gives back n and the trimmed w |
| JtsGeometry.SridNotHex | jts-postgis-jdbc/src/main/java/com/tongtu/jts/jdbc/JtsGeometry.java:83 | a value with the `SRID=` prefix never takes the hex route |
| JtsGeometry.SridTextRoute | jts-postgis-jdbc/src/main/java/com/tongtu/jts/jdbc/JtsGeometry.java:90-98 | `SRID=<n>;<w>` succeeds exactly when the reader reads the trimmed w, with n on every node |
| JtsGeometry.MissingSeparator | jts-postgis-jdbc/src/main/java/com/tongtu/jts/jdbc/JtsGeometry.java:91-92 | `SRID=` with no `;` has no second piece, so the value fails with the SQL error |

## Left out

- Floating point: the model keeps each coordinate as the raw 64 bits of the `double` it was read from, and moves those bits without computing on them. What Java's `Double.longBitsToDouble` and JTS do to those bits (a NaN's payload, for instance) is not modelled. A missing Z is `None` in the model, where JTS's `new Coordinate(X, Y)` stores a NaN.
- `StringByteGetter`, `BinaryByteGetter` and the XDR and NDR `ValueGetter`s are org.postgis.binary code and are not part of this model. They appear as a byte sequence and one cursor class. The hex-digit decoding is a parameter. `StringByteGetter` decodes lazily and throws only when a byte with a non-hex digit or a missing low digit is actually read. The total parameter `hexBytes` stands for this by returning the bytes up to the first bad pair. Together with `Truncation.GeometryPrefix` and `Truncation.TrailingIgnored`, the decode then fails with `Truncated`, and `geomFromString` with `SqlError`, exactly when the Java read would throw.
- `org.postgis.Geometry.parseSRID` is not part of this model; it is an arbitrary function parameter.
- The JTS `WKTReader` is not part of this model; it is an arbitrary function parameter.
- JtsBinaryParser.ParseLinearRing: JTS's `createLinearRing` rejects rings that are not closed or have one to three points. The model builds the ring without that check, so it accepts inputs the source refuses.
- JtsBinaryParser.ParseLineString: JTS's `createLineString` rejects a line of exactly one point. The model does not.
- JtsBinaryParser.ParsePolygon: JTS's Polygon constructor rejects an empty shell with a non-empty hole ("shell is empty but holes are not"); the model accepts it. `DecodePolygon` and `ParserProperties.PolygonRings` return such a polygon where `createPolygon` throws and `geomFromString` gives the SQL error.
- JtsBinaryParser.ParsePolygon: the model does not allocate the `holecount` array. Java allocates it first, so a ring count of -2^31 asks for an array of 2^31 - 1 rings and fails with an `OutOfMemoryError`, which `geomFromString`'s `catch (Exception)` does not catch. The model instead reads that many holes. It fails `Truncated` unless the bytes really hold them.
- JtsBinaryParser.ParseMulti: allocating a huge child array before reading the children is not modelled. Memory limits and `OutOfMemoryError` are outside the model. A large count instead fails `Truncated` unless the bytes hold that many children.
- JtsBinaryParser.ParseCS: `parseCS` likewise allocates `new CoordinateArraySequence(count, dims)` before reading any coordinate. That allocation and its `OutOfMemoryError` are not modelled. A large count instead fails `Truncated` unless the bytes hold that many coordinates.
- A ring count of 0, which is how PostGIS writes an empty polygon, fails with `NegativeSize`, because that is what the code does. `PolygonNoRings` states this.
- There is no recursion-depth guard, as in the source. The stack depth of nested collections is not modelled.
- JtsGeometry.SetSridRecurse works on values and returns the new tree. The Java method mutates nodes in place, so the model leaves out aliasing: a node shared by two parents, or a caller still holding a sub-geometry, sees the change in Java.
- Java's `setSRID` on a polygon does not reach its rings, and the decoder stamps those separately. The model has an SRID field on each ring for this reason, so that JTS's `getSRID` of a ring is represented.
- JavaStrings.ParseInt: `Integer.parseInt` accepts any Unicode decimal digit (`Character.digit`). The model accepts the ASCII digits only, so non-ASCII digit strings fail here but not in the source.
- JavaStrings.Split: only a separator without regex meaning is modelled, which `;` is. Limits and regex patterns are not.
- Exception messages, `printStackTrace` and the `SQLException` text are left out. Every failure of `geomFromString` is the single `SqlError`, and decoder failures are named by kind only.
- `null` inputs are left out, because Dafny strings are never null.
- JavaStrings: a Dafny `char` is a Unicode scalar value, not a UTF-16 code unit. Unpaired surrogates are not modelled, and a character beyond U+FFFF is one `char` here but two in Java. `trim`, the split on `;` and `parseInt` on ASCII digits treat both forms alike, since they only look at characters at or below U+0020, at `;` and at ASCII digits.
- The writer in `WkbEncoder` belongs to this model. It is the repository's `JtsBinaryWriter` only in spirit, because that class is not part of this model.
  - It writes no M ordinate, and no SRID on nested geometries.
  - It writes bytes, not hex text.
  - The round trip is stated for the geometries this writer can express (`WellFormed`). These are geometries whose counts fit an `int`, whose coordinates agree with their node's Z flag, and whose typed arrays hold children of the right kind.
- The remaining members of `JtsGeometry` are left out: the constructors, `setValue`, `getGeometry`, `getValue`, `toString`, `equals` and `clone`. They are thin `PGobject` plumbing.
- The Jackson JSON modules (`JtsModule`, `MultiPointParser`) only register serializers and are left out.
- On the text path the code calls `setSridRecurse` for every value, with SRID 0 when there is no `SRID=` prefix. The model follows the code (`PlainTextRoute`), not a reading in which the SRID is stamped only when a prefix is present.
