/** The reservation header: one 64-bit word that packs, from the least
    significant bit up, a 24-bit byte offset (bits 0-23), a 7-bit writer count
    (bits 24-30), the sealed flag (bit 31), the maxed flag (bit 32) and a 31-bit
    salt (bits 33-63).  Every operation of `HeaderUtil` is a pure function on
    the word; the two that the source asserts on carry that assertion as a
    precondition.  The bodies follow header.h as written, including its typos
    (see the lemmas MkMaxedIsOrOne, MkSealedIsOrOne and BumpSaltClearsBit33).

    Contracts name the fields by their masks and shifts rather than through
    helper functions: `v & 0xFF_FFFF` is the offset, `(v >> 24) & 0x7F` the
    writer count, `v >> 31` the sealed flag, maxed flag and salt together,
    `v >> 33` the salt. */
module HeaderUtil {

  type Header = bv64

  const MAX_WRITERS: bv64 := 127

  /** `is_maxed`: bit 32. */
  predicate IsMaxed(v: Header)
    ensures IsMaxed(v) <==> (v >> 32) & 1 == 1
  {
    (v & (1 << 32)) == (1 << 32)
  }

  /** As written the mask is `(1ull < 32)`, a comparison whose value is 1. */
  function MkMaxed(v: Header): (r: Header)
    ensures r == v | 1
  {
    v | (if 1 < 32 then 1 else 0)
  }

  /** `is_sealed`: bit 31. */
  predicate IsSealed(v: Header)
    ensures IsSealed(v) <==> (v >> 31) & 1 == 1
  {
    (1 << 31) & v != 0
  }

  /** As written the mask is `(1ull < 31)`, a comparison whose value is 1. */
  function MkSealed(v: Header): (r: Header)
    ensures r == v | 1
  {
    v | (if 1 < 31 then 1 else 0)
  }

  /** Bits 24-30 of the word. */
  function NWriters(v: Header): (r: bv64)
    ensures r <= MAX_WRITERS
    ensures r == (v >> 24) & 0x7F
  {
    (v << 33) >> 57
  }

  /** Adds one to the writer count; IncrWritersFields says what else holds. */
  function IncrWriters(v: Header): (r: Header)
    requires NWriters(v) != MAX_WRITERS
    ensures NWriters(r) == NWriters(v) + 1
  {
    v + (1 << 24)
  }

  /** Subtracts one from the writer count; DecrWritersFields says what else
      holds. */
  function DecrWriters(v: Header): (r: Header)
    requires NWriters(v) != 0
    ensures NWriters(r) == NWriters(v) - 1
  {
    v - (1 << 24)
  }

  /** `incr_writers` leaves the offset, both flags and the salt alone. */
  lemma IncrWritersFields(v: Header)
    requires NWriters(v) != MAX_WRITERS
    ensures IncrWriters(v) & 0xFF_FFFF == v & 0xFF_FFFF
    ensures IncrWriters(v) >> 31 == v >> 31
  {
    AddWriterKeepsOffset(v);
    AddWriterKeepsHigh(v);
  }

  /** `decr_writers` leaves the offset, both flags and the salt alone. */
  lemma DecrWritersFields(v: Header)
    requires NWriters(v) != 0
    ensures DecrWriters(v) & 0xFF_FFFF == v & 0xFF_FFFF
    ensures DecrWriters(v) >> 31 == v >> 31
  {
    SubWriterKeepsOffset(v);
    SubWriterKeepsHigh(v);
  }

  // One bit-level fact per lemma keeps each solver query small.
  lemma AddWriterKeepsOffset(v: Header)
    ensures (v + (1 << 24)) & 0xFF_FFFF == v & 0xFF_FFFF
  {
  }

  lemma AddWriterKeepsHigh(v: Header)
    requires (v >> 24) & 0x7F != 0x7F
    ensures (v + (1 << 24)) >> 31 == v >> 31
  {
  }

  lemma SubWriterKeepsOffset(v: Header)
    ensures (v - (1 << 24)) & 0xFF_FFFF == v & 0xFF_FFFF
  {
  }

  lemma SubWriterKeepsHigh(v: Header)
    requires (v >> 24) & 0x7F != 0
    ensures (v - (1 << 24)) >> 31 == v >> 31
  {
  }

  /** Adds `delta` (which must fit in 24 bits) to the whole word, modulo
      2^64.  When the offset field does not overflow, only it changes. */
  function BumpOffset(v: Header, delta: bv64): (r: Header)
    requires delta >> 24 == 0
    ensures (v & 0xFF_FFFF) + delta < 0x100_0000 ==> r & 0xFF_FFFF == (v & 0xFF_FFFF) + delta
    ensures (v & 0xFF_FFFF) + delta < 0x100_0000 ==> r >> 24 == v >> 24
  {
    v + delta
  }

  /** As written the mask is 0xFFFFFFFD00000000, which keeps bit 32 and
      clears bit 33, the lowest salt bit. */
  function BumpSalt(v: Header): (r: Header)
    ensures r & 0x2_FFFF_FFFF == 0
  {
    (v + (1 << 33)) & 0xFFFF_FFFD_0000_0000
  }

  /** The word with bits 0-32 cleared. */
  function Salt(v: Header): (r: Header)
    ensures r & 0x1_FFFF_FFFF == 0
    ensures r >> 33 == v >> 33
  {
    (v >> 33) << 33
  }

  // ---------------------------------------------------------------------
  // Properties

  lemma DecrAfterIncr(v: Header)
    requires NWriters(v) != MAX_WRITERS
    ensures DecrWriters(IncrWriters(v)) == v
  {
  }

  lemma IncrAfterDecr(v: Header)
    requires NWriters(v) != 0
    ensures IncrWriters(DecrWriters(v)) == v
  {
  }

  /** `mk_maxed` as written sets bit 0 (an offset bit), never bit 32, so it
      does not change whether the word is maxed. */
  lemma MkMaxedIsOrOne(v: Header)
    ensures IsMaxed(MkMaxed(v)) == IsMaxed(v)
    ensures !IsMaxed(MkMaxed(0))
  {
  }

  lemma MkSealedIsOrOne(v: Header)
    ensures IsSealed(MkSealed(v)) == IsSealed(v)
    ensures !IsSealed(MkSealed(0))
  {
  }

  lemma SaltIdempotent(v: Header)
    ensures Salt(Salt(v)) == Salt(v)
  {
  }

  /** `bump_salt` as written leaves the lowest salt bit clear, so a salt whose
      lowest bit is clear is not changed by it: zero, in particular. */
  lemma BumpSaltClearsBit33(v: Header)
    ensures BumpSalt(v) & (1 << 33) == 0
    ensures (v >> 33) & 1 == 0 ==> BumpSalt(Salt(v)) == Salt(v)
    ensures BumpSalt(0) == 0
  {
    if (v >> 33) & 1 == 0 {
      EvenSaltFixed(Salt(v));
    }
  }

  lemma EvenSaltFixed(s: Header)
    requires s & 0x1_FFFF_FFFF == 0 && (s >> 33) & 1 == 0
    ensures (s + (1 << 33)) & 0xFFFF_FFFD_0000_0000 == s
  {
  }

  // ---------------------------------------------------------------------
  // Corrected variants (not what header.h says; see the README findings).

  /** `mk_maxed` with the shift that was meant: only bit 32 changes. */
  function MkMaxedIntended(v: Header): (r: Header)
    ensures IsMaxed(r)
    ensures r & 0xFFFF_FFFE_FFFF_FFFF == v & 0xFFFF_FFFE_FFFF_FFFF
  {
    v | (1 << 32)
  }

  /** `mk_sealed` with the shift that was meant: only bit 31 changes. */
  function MkSealedIntended(v: Header): (r: Header)
    ensures IsSealed(r)
    ensures r & 0xFFFF_FFFF_7FFF_FFFF == v & 0xFFFF_FFFF_7FFF_FFFF
  {
    v | (1 << 31)
  }

  /** `bump_salt` with mask 0xFFFFFFFE00000000: the salt field goes up by one
      (modulo 2^31) and every other field is cleared. */
  function BumpSaltIntended(v: Header): (r: Header)
    ensures r & 0x1_FFFF_FFFF == 0
    ensures r >> 33 == ((v >> 33) + 1) & 0x7FFF_FFFF
  {
    (v + (1 << 33)) & 0xFFFF_FFFE_0000_0000
  }

  /** With the intended mask, bumping always changes the salt. */
  lemma BumpSaltIntendedChangesSalt(v: Header)
    ensures BumpSaltIntended(v) >> 33 != v >> 33
  {
  }
}
