/** The 12-byte header at offset 0 of the backing file: `head`, `tail`, `size`,
    each a 4-byte `int`; -1 stands for "no record". */
module HeaderStore {
  import opened Bytes

  /** The "no record" sentinel used by header and link fields. */
  const NIL: int := -1

  /** Byte width of the header; the first record starts at this offset. */
  const HEADER_BYTES: int := 12

  datatype Header = Header(head: int, tail: int, size: int)

  /** The header of an empty list. */
  const EMPTY: Header := Header(NIL, NIL, 0)

  /** True if every field fits in the `int` it is stored as. */
  predicate Fits(h: Header) {
    IsInt32(h.head) && IsInt32(h.tail) && IsInt32(h.size)
  }

  /** The bytes `writeHeader` puts at offset 0. */
  function Encode(h: Header): (bs: seq<Byte>)
    requires Fits(h)
    ensures |bs| == HEADER_BYTES
  {
    EncodeInt32(h.head) + EncodeInt32(h.tail) + EncodeInt32(h.size)
  }

  /** The header `readHeader` obtains from a file of at least 12 bytes. */
  function Decode(bs: seq<Byte>): (h: Header)
    requires |bs| >= HEADER_BYTES
    ensures Fits(h)
  {
    Header(DecodeInt32(bs), DecodeInt32(bs[4..]), DecodeInt32(bs[8..]))
  }

  /** A header written and read back is the same header, whatever the
      records after it hold. */
  lemma DecodeEncode(h: Header, rest: seq<Byte>)
    requires Fits(h)
    ensures Decode(Encode(h) + rest) == h
  {
    var bs := Encode(h) + rest;
    var a, b, c := EncodeInt32(h.head), EncodeInt32(h.tail), EncodeInt32(h.size);
    assert bs == a + (b + c + rest);
    DecodeEncodeInt32(h.head, b + c + rest);
    assert bs[4..] == b + (c + rest);
    DecodeEncodeInt32(h.tail, c + rest);
    assert bs[8..] == c + rest;
    DecodeEncodeInt32(h.size, rest);
  }

  /** Writing back a header that was read reproduces the first 12 bytes. */
  lemma EncodeDecode(bs: seq<Byte>)
    requires |bs| >= HEADER_BYTES
    ensures Encode(Decode(bs)) == bs[..HEADER_BYTES]
  {
    EncodeDecodeInt32(bs);
    EncodeDecodeInt32(bs[4..]);
    EncodeDecodeInt32(bs[8..]);
    assert bs[..HEADER_BYTES] == bs[..4] + bs[4..][..4] + bs[8..][..4];
  }
}
