/** Fixed-width integers of the binary wire format and their byte orders.
    XDR (marker 0) is big-endian, NDR (marker 1) is little-endian. */
module Wire {

  type Byte = x: int | 0 <= x < 0x100
  type UInt32 = x: int | 0 <= x < 0x1_0000_0000
  type Int32 = x: int | -0x8000_0000 <= x < 0x8000_0000
  /** The raw bits of an IEEE double, read as an unsigned 64-bit number:
      moved by the codec, never computed on as a floating-point value. */
  type Word64 = x: int | 0 <= x < 0x1_0000_0000_0000_0000

  /** Eight bytes, most significant first, as an unsigned number. */
  function UInt64Of(b0: Byte, b1: Byte, b2: Byte, b3: Byte, b4: Byte, b5: Byte, b6: Byte, b7: Byte): Word64
  {
    UInt32Of(b0, b1, b2, b3) * 0x1_0000_0000 + UInt32Of(b4, b5, b6, b7)
  }

  /** Endianness markers (ValueGetter.XDR.NUMBER and ValueGetter.NDR.NUMBER). */
  const XDR: Byte := 0
  const NDR: Byte := 1

  predicate IsEndianMarker(e: Byte) { e == XDR || e == NDR }

  /** Failures of decoding; each stands for an exception of the Java code. */
  datatype Error =
    | Truncated          // a read past the end of the byte source
    | UnknownEndian      // byte 0 is neither XDR nor NDR
    | EndianMismatch     // a nested header repeats a different byte-order marker
    | UnknownType        // the low 29 bits of the type word are not a known kind
    | InconsistentSrid   // a nested SRID differs from the inherited one
    | NegativeSize       // a negative element count (NegativeArraySizeException)
    | WrongChildKind     // a child stored into a typed array (ArrayStoreException)
    | SqlError           // any failure of the column-value path

  datatype Option<T> = None | Some(value: T)

  datatype Result<T> = Ok(value: T) | Fail(error: Error) {
    predicate IsFailure() { Fail? }
    function PropagateFailure<U>(): Result<U> requires Fail? { Fail(error) }
    function Extract(): T requires Ok? { value }
  }

  /** Four bytes, most significant first, as an unsigned number. */
  function UInt32Of(b0: Byte, b1: Byte, b2: Byte, b3: Byte): UInt32
  {
    b0 * 0x100_0000 + b1 * 0x1_0000 + b2 * 0x100 + b3
  }

  /** The four bytes of `x`, most significant first. */
  ghost function BigEndian32(x: UInt32): (s: seq<Byte>)
    ensures |s| == 4 && UInt32Of(s[0], s[1], s[2], s[3]) == x
  {
    DigitsOf(x);
    var d: seq<Byte> := [x / 0x100_0000, x / 0x1_0000 % 0x100, x / 0x100 % 0x100, x % 0x100];
    assert |d| == 4 && UInt32Of(d[0], d[1], d[2], d[3]) == x;
    var s: seq<Byte> :| |s| == 4 && UInt32Of(s[0], s[1], s[2], s[3]) == x;
    s
  }

  lemma DigitsOf(x: UInt32)
    ensures UInt32Of(x / 0x100_0000, x / 0x1_0000 % 0x100, x / 0x100 % 0x100, x % 0x100) == x
  {
    var q1 := x / 0x100;
    var q2 := q1 / 0x100;
    var q3 := q2 / 0x100;
    assert x == q1 * 0x100 + x % 0x100;
    assert q1 == q2 * 0x100 + q1 % 0x100;
    assert q2 == q3 * 0x100 + q2 % 0x100;
    assert x / 0x1_0000 == q2;
    assert x / 0x100_0000 == q3;
  }

  /** Java's reading of 32 bits as a two's-complement `int`. */
  function ToInt32(u: UInt32): (r: Int32)
    ensures r < 0 <==> u >= 0x8000_0000
    ensures u < 0x8000_0000 ==> r == u
  {
    if u < 0x8000_0000 then u else u - 0x1_0000_0000
  }

  /** The 32 bits that hold a Java `int`. */
  function FromInt32(i: Int32): (u: UInt32)
    ensures ToInt32(u) == i
  {
    if i >= 0 then i else i + 0x1_0000_0000
  }

  /** Reading 32 bits as an `int` and back loses nothing. */
  lemma Int32RoundTrip(u: UInt32)
    ensures FromInt32(ToInt32(u)) == u
  {
  }

  /** Java `int` arithmetic result, wrapped into 32 bits: one below the
      lowest `int` is the highest. */
  function Wrap32(x: int): (r: Int32)
    ensures x == -0x8000_0001 ==> r == 0x7FFF_FFFF
    ensures -0x8000_0000 <= x < 0x8000_0000 ==> r == x
  {
    var m := (x + 0x8000_0000) % 0x1_0000_0000;
    m - 0x8000_0000
  }

  /** The wrapped result differs from the exact one by a multiple of 2^32:
      it keeps the low 32 bits. */
  lemma Wrap32Congruent(x: int)
    ensures (Wrap32(x) - x) % 0x1_0000_0000 == 0
  {
    var m := (x + 0x8000_0000) % 0x1_0000_0000;
    var q := (x + 0x8000_0000) / 0x1_0000_0000;
    assert x + 0x8000_0000 == q * 0x1_0000_0000 + m;
    assert Wrap32(x) - x == (-q) * 0x1_0000_0000;
  }
}
