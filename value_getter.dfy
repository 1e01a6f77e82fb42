/** The byte source with a read cursor that the decoder shares across all
    recursion levels (org.postgis.binary.ValueGetter over a ByteGetter).
    The spec functions read at an explicit position; the class keeps the
    position as mutable state, as the Java object does. */
module ValueGetters {
  import opened Wire

  /** A value read at some position and the position just after it. */
  datatype Parsed<T> = Parsed(value: T, next: nat)

  /** A method result agrees with a spec result when both fail with the same
      error, or both succeed with the same value and the cursor is where the
      spec says reading stopped. */
  predicate Agrees<T(==)>(r: Result<T>, spec: Result<Parsed<T>>, pos: nat)
  {
    match spec
    case Ok(p) => r == Ok(p.value) && pos == p.next
    case Fail(e) => r == Fail(e)
  }

  function ReadByte(b: seq<Byte>, pos: nat): (r: Result<Parsed<Byte>>)
    ensures r.Ok? <==> pos < |b|
    ensures r.Fail? ==> r.error == Truncated
    ensures r.Ok? ==> r.value.value == b[pos] && r.value.next == pos + 1
  {
    if pos + 1 > |b| then Fail(Truncated) else Ok(Parsed(b[pos], pos + 1))
  }

  /** The four bytes at `pos` in the byte order `e` as an unsigned number. */
  function UInt32At(b: seq<Byte>, e: Byte, pos: nat): UInt32
    requires pos + 4 <= |b|
  {
    var b0, b1, b2, b3 := b[pos], b[pos + 1], b[pos + 2], b[pos + 3];
    if e == XDR then UInt32Of(b0, b1, b2, b3) else UInt32Of(b3, b2, b1, b0)
  }

  /** The eight bytes at `pos` in the byte order `e` as a raw word. */
  function Word64At(b: seq<Byte>, e: Byte, pos: nat): Word64
    requires pos + 8 <= |b|
  {
    var b0, b1, b2, b3, b4, b5, b6, b7 := b[pos], b[pos + 1], b[pos + 2], b[pos + 3], b[pos + 4], b[pos + 5], b[pos + 6], b[pos + 7];
    if e == XDR then UInt64Of(b0, b1, b2, b3, b4, b5, b6, b7) else UInt64Of(b7, b6, b5, b4, b3, b2, b1, b0)
  }

  /** `getInt`: four bytes as a Java (signed) `int`. */
  function ReadInt(b: seq<Byte>, e: Byte, pos: nat): (r: Result<Parsed<Int32>>)
    ensures r.Ok? <==> pos + 4 <= |b|
    ensures r.Fail? ==> r.error == Truncated
    ensures r.Ok? ==> r.value.value == ToInt32(UInt32At(b, e, pos)) && r.value.next == pos + 4
  {
    if pos + 4 > |b| then Fail(Truncated) else Ok(Parsed(ToInt32(UInt32At(b, e, pos)), pos + 4))
  }

  /** `getDouble`: eight bytes, kept as the raw 64-bit word. */
  function ReadWord(b: seq<Byte>, e: Byte, pos: nat): (r: Result<Parsed<Word64>>)
    ensures r.Ok? <==> pos + 8 <= |b|
    ensures r.Fail? ==> r.error == Truncated
    ensures r.Ok? ==> r.value.value == Word64At(b, e, pos) && r.value.next == pos + 8
  {
    if pos + 8 > |b| then Fail(Truncated) else Ok(Parsed(Word64At(b, e, pos), pos + 8))
  }

  class ValueGetter {
    /** The bytes of the ByteGetter; never changed. */
    const data: seq<Byte>
    /** The byte order fixed when the getter is built (`endian`). */
    const endian: Byte
    var position: nat

    ghost predicate Valid()
      reads this
    {
      position <= |data| && IsEndianMarker(endian)
    }

    constructor (bytes: seq<Byte>, e: Byte)
      requires IsEndianMarker(e)
      ensures Valid() && data == bytes && endian == e && position == 0
    {
      data := bytes;
      endian := e;
      position := 0;
    }

    method GetByte() returns (r: Result<Byte>)
      requires Valid()
      modifies this
      ensures Valid() && old(position) <= position
      ensures Agrees(r, ReadByte(data, old(position)), position)
    {
      if position + 1 > |data| {
        return Fail(Truncated);
      }
      r := Ok(data[position]);
      position := position + 1;
    }

    method GetInt() returns (r: Result<Int32>)
      requires Valid()
      modifies this
      ensures Valid() && old(position) <= position
      ensures Agrees(r, ReadInt(data, endian, old(position)), position)
    {
      if position + 4 > |data| {
        return Fail(Truncated);
      }
      r := Ok(ToInt32(UInt32At(data, endian, position)));
      position := position + 4;
    }

    method GetDouble() returns (r: Result<Word64>)
      requires Valid()
      modifies this
      ensures Valid() && old(position) <= position
      ensures Agrees(r, ReadWord(data, endian, old(position)), position)
    {
      if position + 8 > |data| {
        return Fail(Truncated);
      }
      r := Ok(Word64At(data, endian, position));
      position := position + 8;
    }
  }
}
