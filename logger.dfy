/** The segment header written at the front of every log segment
    (pagecache/logger.h), 20 bytes:

      [0, 4)   `crc32_buf` of bytes [4, 20), in host order;
      [4, 12)  the segment's LSN XOR `0x7FFF_FFFF_FFFF_FFFF`, in host order;
      [12, 20) the highest stable LSN XOR the same mask, in host order.

    The mask keeps a header for LSN 0 from being all zero bytes.  Host order
    is little-endian (see module Bytes). */
module Logger {
  import opened Wrappers
  import opened Bytes
  import opened Crc
  import opened Constants

  /** The mask both LSN fields are XORed with. */
  const LSN_MASK: bv64 := 0x7FFF_FFFF_FFFF_FFFF

  /** `SegmentHeader`.  `ok` is carried but never written. */
  datatype SegmentHeader = SegmentHeader(lsn: bv64, maxStableLsn: bv64, ok: bool)

  /** The 8-byte image of an LSN field. */
  function LsnField(lsn: bv64): (r: seq<bv8>)
    ensures |r| == 8
  {
    LE64(lsn ^ LSN_MASK)
  }

  /** The 20 header bytes when bytes [12, 20) hold `field`, the CRC first. */
  function Layout(lsn: bv64, field: seq<bv8>): (r: seq<bv8>)
    requires |field| == 8
    ensures |r| == SEG_HEADER_LEN
    ensures r[4..12] == LsnField(lsn) && r[12..20] == field
    ensures r[..4] == LE32(Crc32Buf(r[4..20]))
  {
    var body := LsnField(lsn) + field;
    var r := LE32(Crc32Buf(body)) + body;
    assert r[4..20] == body && r[..4] == LE32(Crc32Buf(body));
    assert body[..8] == LsnField(lsn) && body[8..] == field;
    r
  }

  /** The bytes `to_char` is meant to write. */
  function Encode(h: SegmentHeader): (r: seq<bv8>)
    ensures |r| == SEG_HEADER_LEN
    ensures r[4..12] == LsnField(h.lsn) && r[12..20] == LsnField(h.maxStableLsn)
    ensures r[..4] == LE32(Crc32Buf(r[4..20]))
  {
    Layout(h.lsn, LsnField(h.maxStableLsn))
  }

  /** The recovery-side reading of a header: `None` for a short buffer or a
      CRC mismatch (a torn segment), otherwise the two LSNs unmasked. */
  function ReadHeader(b: seq<bv8>): (r: Option<(bv64, bv64)>)
    ensures r.Some? ==> |b| >= SEG_HEADER_LEN && b[..4] == LE32(Crc32Buf(b[4..20]))
  {
    if |b| < SEG_HEADER_LEN then None
    else if ReadLE32(b[..4]) != Crc32Buf(b[4..20]) then None
    else Some((ReadLE64(b[4..12]) ^ LSN_MASK, ReadLE64(b[12..20]) ^ LSN_MASK))
  }

  /** `to_char` with line 25 corrected (the address of the masked value is
      copied, not the value): bytes [0, 20) become `Encode(h)` and the rest
      of the buffer is untouched. */
  method ToChar(h: SegmentHeader, buf: array<bv8>)
    requires SEG_HEADER_LEN <= buf.Length
    modifies buf
    ensures buf[..] == Encode(h) + old(buf[SEG_HEADER_LEN..])
  {
    Memcpy(buf, 4, LsnField(h.lsn));
    Memcpy(buf, 12, LsnField(h.maxStableLsn));
    var body := LsnField(h.lsn) + LsnField(h.maxStableLsn);
    assert buf[4..20] == body;
    var crc := Crc32Buf(buf[4..20]);
    Memcpy(buf, 0, LE32(crc));
    assert buf[..] == LE32(Crc32Buf(body)) + body + old(buf[SEG_HEADER_LEN..]);
  }

  /** `to_char` as written.  Line 25 converts the masked value itself to a
      pointer, so the eight bytes copied to [12, 20) are whatever lies at
      that address; the model takes them as the parameter `stray`. */
  method ToCharAsWritten(h: SegmentHeader, buf: array<bv8>, stray: seq<bv8>)
    requires SEG_HEADER_LEN <= buf.Length && |stray| == 8
    modifies buf
    ensures buf[..] == Layout(h.lsn, stray) + old(buf[SEG_HEADER_LEN..])
  {
    Memcpy(buf, 4, LsnField(h.lsn));
    Memcpy(buf, 12, stray);
    var body := LsnField(h.lsn) + stray;
    assert buf[4..20] == body;
    var crc := Crc32Buf(buf[4..20]);
    Memcpy(buf, 0, LE32(crc));
    assert buf[..] == LE32(Crc32Buf(body)) + body + old(buf[SEG_HEADER_LEN..]);
  }

  /** Masking twice gives the value back. */
  lemma UnmaskMask(x: bv64)
    ensures (x ^ LSN_MASK) ^ LSN_MASK == x
  {
  }

  /** Reading an encoded header recovers both LSNs. */
  lemma ReadEncoded(h: SegmentHeader)
    ensures ReadHeader(Encode(h)) == Some((h.lsn, h.maxStableLsn))
  {
    var b := Encode(h);
    ReadLE32Inverse(Crc32Buf(b[4..20]));
    ReadLE64Inverse(h.lsn ^ LSN_MASK);
    ReadLE64Inverse(h.maxStableLsn ^ LSN_MASK);
    UnmaskMask(h.lsn);
    UnmaskMask(h.maxStableLsn);
  }

  /** As written, the highest stable LSN read back is whatever the stray
      bytes say. */
  lemma ReadAsWritten(h: SegmentHeader, stray: seq<bv8>)
    requires |stray| == 8
    ensures ReadHeader(Layout(h.lsn, stray)) == Some((h.lsn, ReadLE64(stray) ^ LSN_MASK))
  {
    var b := Layout(h.lsn, stray);
    ReadLE32Inverse(Crc32Buf(b[4..20]));
    ReadLE64Inverse(h.lsn ^ LSN_MASK);
    UnmaskMask(h.lsn);
  }

  /** ... and it is the header's own only when the stray bytes happen to be
      its image. */
  lemma AsWrittenKeepsMaxStableIff(h: SegmentHeader, stray: seq<bv8>)
    requires |stray| == 8
    ensures ReadHeader(Layout(h.lsn, stray)).Some?
    ensures ReadHeader(Layout(h.lsn, stray)).value.1 == h.maxStableLsn <==> stray == LsnField(h.maxStableLsn)
  {
    ReadAsWritten(h, stray);
    if ReadLE64(stray) ^ LSN_MASK == h.maxStableLsn {
      StrayImage(stray, h.maxStableLsn);
    } else if stray == LsnField(h.maxStableLsn) {
      ReadLE64Inverse(h.maxStableLsn ^ LSN_MASK);
      UnmaskMask(h.maxStableLsn);
    }
  }

  /** Eight bytes that read as the masked value are its image. */
  lemma StrayImage(stray: seq<bv8>, v: bv64)
    requires |stray| == 8 && ReadLE64(stray) ^ LSN_MASK == v
    ensures stray == LsnField(v)
  {
    UnmaskMask(ReadLE64(stray));
    assert ReadLE64(stray) == v ^ LSN_MASK;
    assert LE64(ReadLE64(stray)) == stray;
  }

  /** The header for LSN 100 and highest stable LSN 90 reads back as 100
      and 90. */
  lemma ReadEncodedExample()
    ensures ReadHeader(Encode(SegmentHeader(100, 90, true))) == Some((100, 90))
  {
    ReadEncoded(SegmentHeader(100, 90, true));
  }

  /** As written, a header whose stray bytes are zero reads back a highest
      stable LSN of 0x7FFF_FFFF_FFFF_FFFF whatever was stored. */
  lemma AsWrittenCounterexample()
    ensures ReadHeader(Layout(100, [0, 0, 0, 0, 0, 0, 0, 0])) == Some((100, LSN_MASK))
  {
    ReadAsWritten(SegmentHeader(100, 90, true), [0, 0, 0, 0, 0, 0, 0, 0]);
  }

  /** The `ok` flag has no influence on the bytes. */
  lemma EncodeIgnoresOk(h: SegmentHeader, ok: bool)
    ensures Encode(h.(ok := ok)) == Encode(h)
  {
  }

  /** An LSN field is all zero bytes only for LSN 0x7FFF_FFFF_FFFF_FFFF, so
      in particular never for LSN 0. */
  lemma LsnFieldZero(lsn: bv64)
    ensures LsnField(lsn) == [0, 0, 0, 0, 0, 0, 0, 0] <==> lsn == LSN_MASK
    ensures LsnField(0) != [0, 0, 0, 0, 0, 0, 0, 0]
  {
    LE64ZeroOnlyForZero(lsn ^ LSN_MASK);
    LE64ZeroOnlyForZero(0 ^ LSN_MASK);
    UnmaskMask(lsn);
  }
}
