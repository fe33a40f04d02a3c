/** The log buffer (pagecache/iobuf.h).  An `AlignedBuf` is a block of
    memory whose allocation is rounded up to a multiple of 8 KiB; an `IoBuf`
    is one writer-shared window of it, at byte `base` of the block, with its
    own reservation header word.  The model keeps the block as an array of
    bytes and the header word as a plain field (the atomics are left out). */
module IoBuffer {
  import opened Bytes
  import opened Constants
  import opened HeaderUtil
  import opened Logger
  import opened Slices

  /** The allocation alignment, 8 KiB. */
  const ALIGNMENT: nat := 8192

  /** 2^64: `size_t` arithmetic is modulo this. */
  const SIZE_MODULUS: nat := 0x1_0000_0000_0000_0000

  /** The allocation size for `len` bytes, `(len + 8191) & ~8191` in
      `size_t`: the sum wraps modulo 2^64, and clearing the low 13 bits
      rounds down to a multiple of 8192. */
  function AlignedSize(len: nat): (r: nat)
    requires len < SIZE_MODULUS
    ensures r % ALIGNMENT == 0 && r < SIZE_MODULUS
  {
    ((len + (ALIGNMENT - 1)) % SIZE_MODULUS) / ALIGNMENT * ALIGNMENT
  }

  /** Below the wrap-around point the allocation is the least multiple of
      8192 that holds `len` bytes. */
  lemma AlignedSizeIsLeastMultiple(len: nat)
    requires len <= SIZE_MODULUS - ALIGNMENT
    ensures len <= AlignedSize(len) < len + ALIGNMENT
  {
  }

  /** Above it the sum wraps and the size is zero. */
  lemma AlignedSizeWraps(len: nat)
    requires SIZE_MODULUS - ALIGNMENT < len < SIZE_MODULUS
    ensures AlignedSize(len) == 0
  {
  }

  /** A multiple of 8192 is its own allocation size. */
  lemma AlignedSizeOfMultiple(len: nat)
    requires len < SIZE_MODULUS && len % ALIGNMENT == 0
    ensures AlignedSize(len) == len
  {
  }

  /** `AlignedBuf`: the block (`ptr`, null once moved from) and the length
      asked for, which is not rounded. */
  class AlignedBuf {
    var ptr: array?<bv8>
    var len: nat

    /** The block covers the length asked for. */
    predicate Valid()
      reads this
    {
      ptr != null && len <= ptr.Length
    }

    /** `AlignedBuf(len)`: a fresh block of the rounded size. */
    constructor (len: nat)
      requires len < SIZE_MODULUS
      ensures this.len == len
      ensures ptr != null && fresh(ptr) && ptr.Length == AlignedSize(len)
      ensures len <= SIZE_MODULUS - ALIGNMENT ==> Valid()
    {
      this.len := len;
      ptr := new bv8[AlignedSize(len)];
      new;
      if len <= SIZE_MODULUS - ALIGNMENT {
        AlignedSizeIsLeastMultiple(len);
      }
    }

    /** The move constructor: the new buffer takes the block and the length,
        the old one is left null and empty. */
    constructor Move(other: AlignedBuf)
      modifies other
      ensures ptr == old(other.ptr) && len == old(other.len)
      ensures other.ptr == null && other.len == 0
    {
      ptr := other.ptr;
      len := other.len;
      new;
      other.ptr := null;
      other.len := 0;
    }
  }

  /** The range check `get_mut_range` performs: the range fits in the
      length asked for, measured from the start of the block. */
  predicate RangeCheckAsWritten(at: nat, len: nat, bufLen: nat)
  {
    at + len <= bufLen
  }

  /** The check that keeps the returned view inside the block: the range,
      which starts at `base + at`, fits in the length asked for. */
  predicate RangeCheck(base: nat, at: nat, len: nat, bufLen: nat)
  {
    base + at + len <= bufLen
  }

  /** A range that passes the intended check lies inside any valid block. */
  lemma RangeCheckIsSafe(b: AlignedBuf, base: nat, at: nat, len: nat)
    requires b.Valid() && RangeCheck(base, at, len, b.len)
    ensures base + at + len <= b.ptr.Length
    ensures RangeCheckAsWritten(at, len, b.len)
  {
  }

  /** The check as written lets through a range past the end of the block:
      a window at base 8192 of an 8192-byte buffer, asked for its first 8192
      bytes, gets bytes [8192, 16384) of an 8192-byte allocation. */
  lemma RangeCheckAsWrittenOverruns()
    ensures RangeCheckAsWritten(0, 8192, 8192)
    ensures 8192 + 0 + 8192 > AlignedSize(8192)
    ensures !RangeCheck(8192, 0, 8192, 8192)
  {
    AlignedSizeOfMultiple(8192);
  }

  /** The header word `store_segment_header` leaves after `last`, as
      written: the salt passed through `bump_salt` (HeaderUtil.BumpSalt),
      every other field cleared, then the offset moved past the 20-byte
      segment header. */
  function SegmentStartHeader(last: Header): (r: Header)
  {
    BumpOffset(BumpSalt(Salt(last)), 20)
  }

  /** The same word with the corrected `bump_salt`. */
  function SegmentStartHeaderIntended(last: Header): (r: Header)
  {
    BumpOffset(BumpSaltIntended(Salt(last)), 20)
  }

  /** Moving a word with bits 0-32 clear by 20 sets the offset to 20 and
      touches nothing else. */
  lemma StartFromClearedWord(s: Header)
    requires s & 0x1_FFFF_FFFF == 0
    ensures BumpOffset(s, 20) & 0xFF_FFFF == 20
    ensures BumpOffset(s, 20) >> 33 == s >> 33
    ensures NWriters(BumpOffset(s, 20)) == 0
    ensures !IsSealed(BumpOffset(s, 20)) && !IsMaxed(BumpOffset(s, 20))
  {
  }

  /** As written, the header word after a segment header has no writers, is
      neither sealed nor maxed, has offset 20, and keeps an even salt where
      it was. */
  lemma SegmentStartHeaderFields(last: Header)
    ensures NWriters(SegmentStartHeader(last)) == 0
    ensures !IsSealed(SegmentStartHeader(last)) && !IsMaxed(SegmentStartHeader(last))
    ensures SegmentStartHeader(last) & 0xFF_FFFF == 20
    ensures (last >> 33) & 1 == 0 ==> SegmentStartHeader(last) >> 33 == last >> 33
  {
    var s := BumpSalt(Salt(last));
    assert s & 0x1_FFFF_FFFF == 0;
    StartFromClearedWord(s);
    BumpSaltClearsBit33(last);
  }

  /** With the corrected `bump_salt` the word has the same fields, but the
      salt is always one above the old one. */
  lemma SegmentStartHeaderIntendedFields(last: Header)
    ensures NWriters(SegmentStartHeaderIntended(last)) == 0
    ensures !IsSealed(SegmentStartHeaderIntended(last)) && !IsMaxed(SegmentStartHeaderIntended(last))
    ensures SegmentStartHeaderIntended(last) & 0xFF_FFFF == 20
    ensures SegmentStartHeaderIntended(last) >> 33 == ((last >> 33) + 1) & 0x7FFF_FFFF
  {
    StartFromClearedWord(BumpSaltIntended(Salt(last)));
  }

  /** After a header word of 0 the code as written leaves 0x14 (salt 0
      again), where the corrected code leaves salt 1. */
  lemma SegmentStartHeaderCounterexample()
    ensures SegmentStartHeader(0) == 0x14
    ensures SegmentStartHeaderIntended(0) == 0x2_0000_0014
  {
  }

  /** `IoBuf`. */
  class IoBuf {
    /** The block this window lies in (`buf_`). */
    var buf: AlignedBuf?
    /** The reservation header word (`header_`). */
    var header: Header
    /** Where this window starts in the block (`base_`). */
    var base: nat
    var fromTip: bool
    var storedMaxStableLsn: bv64
    var offset: bv64
    var lsn: bv64
    var capacity: nat

    /** `store_segment_header`, which asserts `capacity_ >= SEG_HEADER_LEN`,
        as written: records the two LSNs, writes the 20-byte segment header
        at the start of the block (not at `base`) with `to_char` as written,
        whose bytes [12, 20) are the eight `stray` bytes (see
        Logger.ToCharAsWritten), and resets the header word with `bump_salt`
        as written. */
    method StoreSegmentHeader(last: Header, lsn: bv64, maxStableLsn: bv64, stray: seq<bv8>)
      requires capacity >= SEG_HEADER_LEN && |stray| == 8
      requires buf != null && buf.Valid() && SEG_HEADER_LEN <= buf.ptr.Length
      modifies this, buf.ptr
      ensures buf == old(buf) && base == old(base) && fromTip == old(fromTip)
      ensures storedMaxStableLsn == maxStableLsn && this.lsn == lsn
      ensures buf.ptr[..] == Layout(lsn, stray) + old(buf.ptr[SEG_HEADER_LEN..])
      ensures header == SegmentStartHeader(last)
      ensures offset == old(offset) && capacity == old(capacity)
    {
      var block := buf.ptr;
      storedMaxStableLsn := maxStableLsn;
      this.lsn := lsn;
      var h := SegmentHeader(lsn, maxStableLsn, true);
      var segHeaderBuf := new bv8[SEG_HEADER_LEN];
      ToCharAsWritten(h, segHeaderBuf, stray);
      assert segHeaderBuf[..] == Layout(lsn, stray);
      Memcpy(block, 0, segHeaderBuf[..]);
      SetHeader(SegmentStartHeader(last));
    }

    /** `store_segment_header` corrected: the header is encoded with the
        corrected `to_char` (Logger.ToChar), so bytes [12, 20) hold
        `max_stable_lsn`, and the salt is bumped with the corrected
        `bump_salt` (HeaderUtil.BumpSaltIntended). */
    method StoreSegmentHeaderIntended(last: Header, lsn: bv64, maxStableLsn: bv64)
      requires capacity >= SEG_HEADER_LEN
      requires buf != null && buf.Valid() && SEG_HEADER_LEN <= buf.ptr.Length
      modifies this, buf.ptr
      ensures buf == old(buf) && base == old(base) && fromTip == old(fromTip)
      ensures storedMaxStableLsn == maxStableLsn && this.lsn == lsn
      ensures buf.ptr[..] == Encode(SegmentHeader(lsn, maxStableLsn, true)) + old(buf.ptr[SEG_HEADER_LEN..])
      ensures header == SegmentStartHeaderIntended(last)
      ensures offset == old(offset) && capacity == old(capacity)
    {
      var block := buf.ptr;
      storedMaxStableLsn := maxStableLsn;
      this.lsn := lsn;
      var h := SegmentHeader(lsn, maxStableLsn, true);
      var segHeaderBuf := new bv8[SEG_HEADER_LEN];
      ToChar(h, segHeaderBuf);
      assert segHeaderBuf[..] == Encode(h);
      Memcpy(block, 0, segHeaderBuf[..]);
      SetHeader(SegmentStartHeaderIntended(last));
    }

    /** `get_mut_range(at, len)`, which asserts the check as written: a view
        of the `len` bytes at `base + at` of the block.  A range past the
        end of the allocation is undefined behaviour in the source and is
        excluded by the second precondition. */
    method GetMutRange(at: nat, len: nat) returns (s: SliceMut)
      requires buf != null && buf.Valid()
      requires RangeCheckAsWritten(at, len, buf.len) && base + at + len <= buf.ptr.Length
      ensures fresh(s)
      ensures s.data == buf.ptr[base + at .. base + at + len]
      ensures s.Size() == len
    {
      s := new SliceMut(buf.ptr[base + at .. base + at + len]);
    }

    /** `set_header`: the header word becomes `v`. */
    method SetHeader(v: Header)
      modifies this
      ensures header == v
      ensures buf == old(buf) && base == old(base) && fromTip == old(fromTip)
      ensures storedMaxStableLsn == old(storedMaxStableLsn) && offset == old(offset)
      ensures lsn == old(lsn) && capacity == old(capacity)
    {
      header := v;
    }
  }
}
