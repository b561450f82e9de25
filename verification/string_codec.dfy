/** How the string list stores a string inside a record: a 4-byte `int`
    length followed by that many bytes, read back through a length guard. */
module StringCodec {
  import opened Bytes

  /** The longest length readString accepts; anything longer reads as "". */
  const MAX_LEN: int := 1000000

  datatype Option<T> = None | Some(value: T)

  /** A string read back and the number of bytes consumed doing so. */
  datatype Decoded = Decoded(text: seq<Byte>, used: nat)

  /** The length field writeString stores: `(int)s.size()`. */
  function LengthField(s: seq<Byte>): (len: int)
    ensures IsInt32(len)
    ensures |s| < TWO_31 ==> len == |s|
    ensures 0 <= len ==> len <= |s|
  {
    ToInt32(|s|)
  }

  /** `writeString(s)`: the length field, then `len` bytes of s. A negative
      length (a string of 2^31 bytes or more, cast to `int`) writes no bytes. */
  function WriteString(s: seq<Byte>): (bs: seq<Byte>)
    ensures |s| < TWO_31 ==> bs == EncodeInt32(|s|) + s
    ensures |bs| >= 4
  {
    var len := LengthField(s);
    EncodeInt32(len) + (if len >= 0 then s[..len] else [])
  }

  /** n zero bytes: the part of `std::string temp(len, '\0')` a short read
      leaves untouched. */
  function Zeros(n: nat): (z: seq<Byte>)
    ensures |z| == n
    ensures forall i :: 0 <= i < n ==> z[i] == 0
  {
    seq(n, _ => 0 as Byte)
  }

  /** `readString()` on the bytes bs that follow the read position. Fewer
      than four bytes means the length itself cannot be read. A length below
      zero or above MAX_LEN yields "" after consuming only the length. A
      readable length yields that many bytes, zero-filled past the end of
      bs. */
  function ReadString(bs: seq<Byte>): (r: Option<Decoded>)
    ensures |bs| < 4 <==> r.None?
    ensures r.Some? ==> |r.value.text| <= MAX_LEN && 4 <= r.value.used <= |bs|
  {
    if |bs| < 4 then None
    else
      var len := DecodeInt32(bs);
      if len < 0 || len > MAX_LEN then Some(Decoded([], 4))
      else
        var avail := bs[4..];
        if len <= |avail| then Some(Decoded(avail[..len], 4 + len))
        else Some(Decoded(avail + Zeros(len - |avail|), |bs|))
  }

  /** The string a later readString sees where writeString stored s: the
      first `(int)s.size()` bytes when that length passes the guard, "" when
      it does not. */
  function Stored(s: seq<Byte>): (t: seq<Byte>)
    ensures |s| <= MAX_LEN ==> t == s
    ensures |s| > MAX_LEN && |s| < TWO_32 ==> t == []
    ensures |t| <= MAX_LEN
  {
    var len := LengthField(s);
    if 0 <= len <= MAX_LEN then s[..len] else []
  }

  /** The guard, for any declared length: a length below zero or above
      MAX_LEN reads as "" and consumes only the four length bytes, whatever
      follows them. */
  lemma GuardRejects(len: int, rest: seq<Byte>)
    requires IsInt32(len) && (len < 0 || len > MAX_LEN)
    ensures ReadString(EncodeInt32(len) + rest) == Some(Decoded([], 4))
  {
    DecodeEncodeInt32(len, rest);
  }

  /** A declared length the guard accepts reads that many bytes when they
      are there, and the bytes that are there followed by zeros when the
      input ends early. */
  lemma GuardAccepts(len: int, rest: seq<Byte>)
    requires 0 <= len <= MAX_LEN
    ensures len <= |rest| ==>
              ReadString(EncodeInt32(len) + rest) == Some(Decoded(rest[..len], 4 + len))
    ensures len > |rest| ==>
              ReadString(EncodeInt32(len) + rest) == Some(Decoded(rest + Zeros(len - |rest|), 4 + |rest|))
  {
    DecodeEncodeInt32(len, rest);
    assert (EncodeInt32(len) + rest)[4..] == rest;
  }

  /** Reading back what writeString stored gives Stored(s), whatever bytes
      follow in the file, and consumes exactly the bytes written unless the
      guard rejected the length. */
  lemma ReadWriteString(s: seq<Byte>, rest: seq<Byte>)
    ensures var r := ReadString(WriteString(s) + rest);
      && r.Some?
      && r.value.text == Stored(s)
      && (0 <= LengthField(s) <= MAX_LEN ==> r.value.used == |WriteString(s)|)
      && (!(0 <= LengthField(s) <= MAX_LEN) ==> r.value.used == 4)
  {
    var len := LengthField(s);
    var body := if len >= 0 then s[..len] else [];
    var bs := WriteString(s) + rest;
    assert bs == EncodeInt32(len) + (body + rest);
    DecodeEncodeInt32(len, body + rest);
    if 0 <= len <= MAX_LEN {
      assert bs[4..] == body + rest;
      assert (body + rest)[..len] == body;
    }
  }

  /** Every string up to MAX_LEN bytes survives a write and a read. */
  lemma RoundTrip(s: seq<Byte>, rest: seq<Byte>)
    requires |s| <= MAX_LEN
    ensures ReadString(WriteString(s) + rest) == Some(Decoded(s, 4 + |s|))
  {
    ReadWriteString(s, rest);
  }

  /** A string longer than MAX_LEN (but short enough that its length does
      not wrap) is written whole yet reads back as "". */
  lemma OversizeReadsEmpty(s: seq<Byte>, rest: seq<Byte>)
    requires MAX_LEN < |s| < TWO_32
    ensures ReadString(WriteString(s) + rest) == Some(Decoded([], 4))
  {
    ReadWriteString(s, rest);
  }

  /** Storing is idempotent: what reads back stores and reads back unchanged. */
  lemma StoredIdempotent(s: seq<Byte>)
    ensures Stored(Stored(s)) == Stored(s)
  {
  }
}
