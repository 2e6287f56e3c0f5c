/** Bytes and the little-endian integer fields of the packed bitmap headers. */
module LittleEndian {

  type byte = x: int | 0 <= x < 0x100

  const TWO16: nat := 0x1_0000
  const TWO31: nat := 0x8000_0000
  const TWO32: nat := 0x1_0000_0000

  /** The uint16_t stored at offset `at`. */
  function U16(b: seq<byte>, at: nat): (v: nat)
    requires at + 2 <= |b|
    ensures v < TWO16
  {
    b[at] as int + 0x100 * b[at + 1] as int
  }

  /** The uint32_t stored at offset `at`. */
  function U32(b: seq<byte>, at: nat): (v: nat)
    requires at + 4 <= |b|
    ensures v < TWO32
  {
    b[at] as int + 0x100 * b[at + 1] as int + 0x1_0000 * b[at + 2] as int + 0x100_0000 * b[at + 3] as int
  }

  /** The two's-complement int32_t stored at offset `at`. */
  function I32(b: seq<byte>, at: nat): (v: int)
    requires at + 4 <= |b|
    ensures -(TWO31 as int) <= v < TWO31
    ensures v >= 0 ==> v == U32(b, at)
    ensures v < 0 ==> v + TWO32 == U32(b, at)
  {
    var u := U32(b, at);
    if u < TWO31 then u else u - TWO32
  }

  /** The two bytes that store a uint16_t. */
  function U16Bytes(v: nat): (b: seq<byte>)
    requires v < TWO16
    ensures |b| == 2 && U16(b, 0) == v
  {
    [v % 0x100, v / 0x100]
  }

  /** The four bytes that store a uint32_t. */
  function U32Bytes(v: nat): (b: seq<byte>)
    requires v < TWO32
    ensures |b| == 4 && U32(b, 0) == v
  {
    var q1 := v / 0x100;
    var q2 := q1 / 0x100;
    var q3 := q2 / 0x100;
    ByteDigit(v % 0x100, q1);
    ByteDigit(q1 % 0x100, q2);
    ByteDigit(q2 % 0x100, q3);
    [v % 0x100, q1 % 0x100, q2 % 0x100, q3]
  }

  /** The four bytes that store an int32_t (two's complement). */
  function I32Bytes(v: int): (b: seq<byte>)
    requires -(TWO31 as int) <= v < TWO31
    ensures |b| == 4 && I32(b, 0) == v
  {
    U32Bytes(if v < 0 then v + TWO32 else v)
  }

  /** Reading a field and writing it back reproduces the stored bytes. */
  lemma U16BytesOfU16(b: seq<byte>, at: nat)
    requires at + 2 <= |b|
    ensures U16Bytes(U16(b, at)) == b[at..at + 2]
  {
  }

  lemma U32BytesOfU32(b: seq<byte>, at: nat)
    requires at + 4 <= |b|
    ensures U32Bytes(U32(b, at)) == b[at..at + 4]
  {
    var b0, b1, b2, b3 := b[at] as int, b[at + 1] as int, b[at + 2] as int, b[at + 3] as int;
    var v := U32(b, at);
    assert v == b0 + 0x100 * (b1 + 0x100 * (b2 + 0x100 * b3));
    ByteDigit(b0, b1 + 0x100 * (b2 + 0x100 * b3));
    ByteDigit(b1, b2 + 0x100 * b3);
    ByteDigit(b2, b3);
  }

  /** The low byte and the rest of `a + 256 * q`. */
  lemma ByteDigit(a: int, q: int)
    requires 0 <= a < 0x100 && 0 <= q
    ensures (a + 0x100 * q) % 0x100 == a
    ensures (a + 0x100 * q) / 0x100 == q
  {
  }

  lemma I32BytesOfI32(b: seq<byte>, at: nat)
    requires at + 4 <= |b|
    ensures I32Bytes(I32(b, at)) == b[at..at + 4]
  {
    U32BytesOfU32(b, at);
  }

  /** A field read at offset `at` of `p + q` with `|p| <= at` is read from `q`. */
  lemma FieldsOfSuffix(p: seq<byte>, q: seq<byte>, at: nat)
    requires |p| <= at && at + 4 <= |p| + |q|
    ensures U16(p + q, at) == U16(q, at - |p|)
    ensures U32(p + q, at) == U32(q, at - |p|)
    ensures I32(p + q, at) == I32(q, at - |p|)
  {
  }

  /** `static_cast<uint32_t>` of a non-negative size. */
  function ToUint32(v: nat): (u: nat)
    ensures u < TWO32
    ensures v < TWO32 ==> u == v
  {
    v % TWO32
  }

  /** `static_cast<int32_t>` of a non-negative size: two's-complement wrap. */
  function ToInt32(v: nat): (i: int)
    ensures -(TWO31 as int) <= i < TWO31
    ensures v < TWO31 ==> i == v
    ensures (i - v) % TWO32 == 0
  {
    var u := v % TWO32;
    if u < TWO31 then u else u - TWO32
  }
}
