/** Bytes and the 32-bit two's-complement integers the file format stores.
    Every header field, every link field and every string length is written
    as a 4-byte little-endian `int`. */
module Bytes {

  newtype Byte = b: int | 0 <= b < 256

  const TWO_31: int := 0x8000_0000
  const TWO_32: int := 0x1_0000_0000

  /** True if x fits in a C++ `int`. */
  predicate IsInt32(x: int) {
    -TWO_31 <= x < TWO_31
  }

  /** The value of the C++ cast `(int)x` for an integral x: wrap modulo 2^32
      into the two's-complement range. */
  function ToInt32(x: int): (r: int)
    ensures IsInt32(r)
    ensures (x - r) % TWO_32 == 0
    ensures IsInt32(x) ==> r == x
  {
    var u := x % TWO_32;
    if u < TWO_31 then u else u - TWO_32
  }

  /** The four bytes of an `int`, least significant first. */
  function EncodeInt32(x: int): (bs: seq<Byte>)
    requires IsInt32(x)
    ensures |bs| == 4
  {
    var u := x % TWO_32;
    var q1 := u / 256;
    var q2 := q1 / 256;
    var q3 := q2 / 256;
    [(u % 256) as Byte, (q1 % 256) as Byte, (q2 % 256) as Byte, q3 as Byte]
  }

  /** The `int` held by the first four bytes of bs. */
  function DecodeInt32(bs: seq<Byte>): (x: int)
    requires |bs| >= 4
    ensures IsInt32(x)
  {
    var u := bs[0] as int + 256 * (bs[1] as int + 256 * (bs[2] as int + 256 * bs[3] as int));
    if u < TWO_31 then u else u - TWO_32
  }

  /** Reading back four written bytes gives the written value, whatever follows them. */
  lemma DecodeEncodeInt32(x: int, rest: seq<Byte>)
    requires IsInt32(x)
    ensures DecodeInt32(EncodeInt32(x) + rest) == x
  {
    var u := x % TWO_32;
    var q1 := u / 256;
    var q2 := q1 / 256;
    var q3 := q2 / 256;
    assert u == u % 256 + 256 * q1;
    assert q1 == q1 % 256 + 256 * q2;
    assert q2 == q2 % 256 + 256 * q3;
    var bs := EncodeInt32(x) + rest;
    assert bs[0] as int + 256 * (bs[1] as int + 256 * (bs[2] as int + 256 * bs[3] as int)) == u;
  }

  /** Every four bytes are the encoding of the value they decode to: the
      encoding is onto, so no byte pattern is unreadable. */
  lemma EncodeDecodeInt32(bs: seq<Byte>)
    requires |bs| >= 4
    ensures EncodeInt32(DecodeInt32(bs)) == bs[..4]
  {
    var b0, b1, b2, b3 := bs[0] as int, bs[1] as int, bs[2] as int, bs[3] as int;
    var u := b0 + 256 * (b1 + 256 * (b2 + 256 * b3));
    var x := DecodeInt32(bs);
    assert x % TWO_32 == u;
    var q1 := u / 256;
    var q2 := q1 / 256;
    var q3 := q2 / 256;
    assert u % 256 == b0 && q1 == b1 + 256 * (b2 + 256 * b3);
    assert q1 % 256 == b1 && q2 == b2 + 256 * b3;
    assert q2 % 256 == b2 && q3 == b3;
    var es := EncodeInt32(x);
    assert es[0] == bs[0] && es[1] == bs[1] && es[2] == bs[2] && es[3] == bs[3];
  }
}
