/** Size classes of the blob heap and the packing of a slab id and slab index
    into one 64-bit location (pagecache/heap.h).  Everything is 64-bit
    unsigned arithmetic; shifts by 64 or more are undefined in C++, so the
    functions that shift by a computed amount require it to stay below 64.
    Bit positions are `bv64` values so that the solver reasons about them with
    the words they index. */
module Heap {

  /** `uint8_t`, `uint32_t` and the log sequence number. */
  type SlabId = bv8
  type SlabIdx = bv32
  type Lsn = bv64

  const MIN_TRAILING_ZEROS: bv64 := 15
  /** 32 KiB, the smallest slab. */
  const MIN_SZ: bv64 := 0x8000

  predicate IsPowerOfTwo(x: bv64)
  {
    x != 0 && x & (x - 1) == 0
  }

  // ---------------------------------------------------------------------
  // Bit positions

  /** Bit `t` of `x` is set. */
  predicate BitSet(x: bv64, t: bv64)
  {
    t < 64 && (x >> t) & 1 == 1
  }

  /** `__builtin_ctzll`: the position of the lowest set bit of a nonzero
      word, found by halving the window six times. */
  function TrailingZeros(x: bv64): (r: bv64)
    requires x != 0
    ensures BitSet(x, r)
  {
    var x1 := if x & 0xFFFF_FFFF == 0 then x >> 32 else x;
    var x2 := if x1 & 0xFFFF == 0 then x1 >> 16 else x1;
    var x3 := if x2 & 0xFF == 0 then x2 >> 8 else x2;
    var x4 := if x3 & 0xF == 0 then x3 >> 4 else x3;
    var x5 := if x4 & 0x3 == 0 then x4 >> 2 else x4;
    (if x & 0xFFFF_FFFF == 0 then 32 else 0) | (if x1 & 0xFFFF == 0 then 16 else 0)
    | (if x2 & 0xFF == 0 then 8 else 0) | (if x3 & 0xF == 0 then 4 else 0)
    | (if x4 & 0x3 == 0 then 2 else 0) | (if x5 & 1 == 0 then 1 else 0)
  }

  /** No bit below the trailing zero count is set. */
  lemma TrailingZerosLowest(x: bv64)
    requires x != 0
    ensures x << (64 - TrailingZeros(x)) == 0
  {
  }

  /** Every nonzero word has a highest set bit: the position of the power of
      two that `next_power_of_two` lands on. */
  lemma HighestBit(x: bv64) returns (t: bv64)
    requires x != 0
    ensures t < 64 && x >> t == 1
  {
    var (n1, x1) := if x >> 32 != 0 then (32, x >> 32) else (0, x);
    var (n2, x2) := if x1 >> 16 != 0 then (n1 + 16, x1 >> 16) else (n1, x1);
    var (n3, x3) := if x2 >> 8 != 0 then (n2 + 8, x2 >> 8) else (n2, x2);
    var (n4, x4) := if x3 >> 4 != 0 then (n3 + 4, x3 >> 4) else (n3, x3);
    var (n5, x5) := if x4 >> 2 != 0 then (n4 + 2, x4 >> 2) else (n4, x4);
    t := if x5 >> 1 != 0 then n5 + 1 else n5;
  }

  /** The trailing zeros of a single bit are its position. */
  lemma TrailingZerosOfBit(j: bv64)
    requires j < 64
    ensures TrailingZeros(1 << j) == j
  {
  }


  // ---------------------------------------------------------------------
  // next_power_of_two

  /** The bit smearing of heap.h:23-29: every bit below the highest set bit
      of `m` gets set. */
  function Smear(m: bv64): bv64
  {
    var m1 := m | (m >> 1);
    var m2 := m1 | (m1 >> 2);
    var m3 := m2 | (m2 >> 4);
    var m4 := m3 | (m3 >> 8);
    var m5 := m4 | (m4 >> 16);
    m5 | (m5 >> 32)
  }

  /** `next_power_of_two`: a power of two, or 0 where the sum wraps. */
  function NextPowerOfTwo(n: bv64): (r: bv64)
    ensures r == 0 || IsPowerOfTwo(r)
  {
    if n == 0 then 1
    else
      SmearIsMask(n - 1);
      Smear(n - 1) + 1
  }

  /** `p` is the least power of two that is at least `n` (for n >= 1): a
      power of two with n <= p and p / 2 < n. The comparisons are written on
      n - 1 and p - 1, the mask the code actually builds. */
  predicate LeastPowerAbove(n: bv64, p: bv64)
  {
    IsPowerOfTwo(p) && n - 1 <= p - 1 && (p == 1 || (p - 1) >> 1 < n - 1)
  }

  /** For 0 < n <= 2^63 the result is the least power of two not below n. */
  lemma NextPowerOfTwoIsLeast(n: bv64)
    requires 0 < n <= 0x8000_0000_0000_0000
    ensures LeastPowerAbove(n, NextPowerOfTwo(n))
  {
    if n != 1 {
      LeastPowerFromSmear(n);
      NextPowerOfTwoUnfolds(n);
    }
  }

  lemma NextPowerOfTwoUnfolds(n: bv64)
    requires 1 < n
    requires LeastPowerAbove(n, Smear(n - 1) + 1)
    ensures LeastPowerAbove(n, NextPowerOfTwo(n))
  {
    assert NextPowerOfTwo(n) == Smear(n - 1) + 1;
  }

  lemma LeastPowerFromSmear(n: bv64)
    requires 1 < n <= 0x8000_0000_0000_0000
    ensures LeastPowerAbove(n, Smear(n - 1) + 1)
  {
    PredecessorBounds(n);
    SmearIsCoveringMask(n - 1);
    MaskSuccessorIsLeast(n, Smear(n - 1));
  }

  lemma PredecessorBounds(n: bv64)
    requires 1 < n <= 0x8000_0000_0000_0000
    ensures n - 1 != 0 && n - 1 < 0x8000_0000_0000_0000
  {
  }

  /** `s` is a mask of low bits that covers `m`, whose half does not cover
      `m`, and that leaves the top bit clear. */
  predicate CoveringMask(m: bv64, s: bv64)
  {
    s & (s + 1) == 0 && m <= s && s >> 1 < m && s < 0x8000_0000_0000_0000
  }

  /** The smear of a nonzero m below 2^63 is the least low mask covering it. */
  lemma SmearIsCoveringMask(m: bv64)
    requires 0 < m < 0x8000_0000_0000_0000
    ensures CoveringMask(m, Smear(m))
  {
    SmearIsMask(m);
    SmearCovers(m);
    SmearHalfBelow(m);
    SmearBelowTop(m);
  }

  /** The smear of a word is a mask of low bits: one less than a power of
      two (or all ones). */
  lemma SmearIsMask(m: bv64)
    ensures Smear(m) & (Smear(m) + 1) == 0
  {
  }

  /** Smearing only adds bits. */
  lemma SmearCovers(m: bv64)
    ensures m <= Smear(m)
  {
  }

  /** The mask reaches no further than the highest set bit of m. */
  lemma SmearHalfBelow(m: bv64)
    requires m != 0
    ensures Smear(m) >> 1 < m
  {
  }

  lemma SmearBelowTop(m: bv64)
    requires m < 0x8000_0000_0000_0000
    ensures Smear(m) < 0x8000_0000_0000_0000
  {
  }

  lemma SmearOfTop(m: bv64)
    requires 0x8000_0000_0000_0000 <= m
    ensures Smear(m) == 0xFFFF_FFFF_FFFF_FFFF
  {
  }

  /** One more than the least low mask covering n - 1 is the least power of
      two above n. */
  lemma MaskSuccessorIsLeast(n: bv64, s: bv64)
    requires 1 < n && CoveringMask(n - 1, s)
    ensures LeastPowerAbove(n, s + 1)
  {
    MaskSuccessorIsPower(s);
  }

  lemma MaskSuccessorIsPower(s: bv64)
    requires s & (s + 1) == 0 && s < 0x8000_0000_0000_0000
    ensures IsPowerOfTwo(s + 1)
  {
  }

  /** Above 2^63 there is no 64-bit power of two, and the result wraps to 0. */
  lemma NextPowerOfTwoWraps(n: bv64)
    requires n > 0x8000_0000_0000_0000
    ensures NextPowerOfTwo(n) == 0
  {
    SmearOfTop(n - 1);
  }

  /** Zero is sent to one, the least power of two. */
  lemma NextPowerOfTwoZero()
    ensures NextPowerOfTwo(0) == 1 && IsPowerOfTwo(NextPowerOfTwo(0))
  {
  }

  /** A power of two is its own next power of two. */
  lemma NextPowerOfPower(p: bv64)
    requires IsPowerOfTwo(p)
    ensures NextPowerOfTwo(p) == p
  {
  }

  /** The least power of two above n is unique. */
  lemma LeastPowerAboveUnique(n: bv64, p: bv64, q: bv64)
    requires LeastPowerAbove(n, p) && LeastPowerAbove(n, q)
    ensures p == q
  {
  }

  // ---------------------------------------------------------------------
  // Slab ids and sizes

  /** A size a slab can have: a power of two of at least 32 KiB. */
  predicate IsSlabSize(x: bv64)
  {
    IsPowerOfTwo(x) && MIN_SZ <= x
  }

  /** Defined for the ids whose shift stays below 64. */
  function SlabIdToSize(slabId: SlabId): (r: bv64)
    requires slabId <= 48
    ensures IsSlabSize(r)
  {
    SlabBitIsSlabSize(MIN_TRAILING_ZEROS + slabId as bv64);
    1 << (MIN_TRAILING_ZEROS + slabId as bv64)
  }

  lemma SlabBitIsSlabSize(k: bv64)
    requires 15 <= k < 64
    ensures IsSlabSize(1 << k)
  {
  }

  function Max(a: bv64, b: bv64): bv64 { if a < b then b else a }

  /** The trailing zeros of a normalised size counted from 32 KiB (heap.h
      lines 40-43); zero when the shift leaves nothing. */
  function SlabIdOfNormalized(normalized: bv64): (r: SlabId)
    ensures r <= 48
  {
    var rebased := normalized >> MIN_TRAILING_ZEROS;
    if rebased == 0 then 0
    else
      var tz := TrailingZeros(rebased);
      RebasedBound(rebased, tz);
      tz as bv8
  }

  lemma RebasedBound(rebased: bv64, t: bv64)
    requires rebased >> 49 == 0 && BitSet(rebased, t)
    ensures t <= 48 && (t as bv8) <= 48
  {
  }

  function SizeToSlabId(size: bv64): (r: SlabId)
    ensures r <= 48
  {
    SlabIdOfNormalized(Max(MIN_SZ, NextPowerOfTwo(size)))
  }

  /** `slab_size`: the size of the slab a blob of `size` bytes goes to. */
  function SlabSize(size: bv64): (r: bv64)
    ensures IsSlabSize(r)
  {
    SlabIdToSize(SizeToSlabId(size))
  }

  /** The slab id of the slab size with bit k set is k - 15. */
  lemma SlabIdOfBit(k: bv64)
    requires 15 <= k < 64
    ensures SlabIdOfNormalized(1 << k) == (k - 15) as bv8
  {
    RebasedBit(k);
    TrailingZerosOfBit(k - 15);
  }

  lemma RebasedBit(k: bv64)
    requires 15 <= k < 64
    ensures (1 as bv64 << k) >> 15 == 1 << (k - 15) && 1 as bv64 << (k - 15) != 0
  {
  }

  lemma SizeOfSlabBit(k: bv64)
    requires 15 <= k < 64
    ensures (k - 15) as bv8 <= 48 && SlabIdToSize((k - 15) as bv8) == 1 << k
  {
    SlabBitWidens(k);
  }

  lemma SlabBitWidens(k: bv64)
    requires 15 <= k < 64
    ensures (k - 15) as bv8 <= 48 && MIN_TRAILING_ZEROS + ((k - 15) as bv8) as bv64 == k
  {
  }

  /** Every slab size is a single bit from 15 up. */
  lemma SlabSizeBit(x: bv64) returns (k: bv64)
    requires IsSlabSize(x)
    ensures 15 <= k < 64 && x == 1 << k
  {
    k := HighestBit(x);
    PowerIsItsTopBit(x, k);
  }

  lemma PowerIsItsTopBit(x: bv64, k: bv64)
    requires IsSlabSize(x) && k < 64 && x >> k == 1
    ensures 15 <= k && x == 1 << k
  {
  }

  lemma MaxOfPower(p: bv64)
    requires IsPowerOfTwo(p)
    ensures IsSlabSize(Max(MIN_SZ, p))
  {
  }

  /** For sizes up to 2^63 the slab holding `size` is the least power of two
      that is at least `size`, raised to 32 KiB. */
  lemma SlabSizeIsLeastPower(size: bv64)
    requires size <= 0x8000_0000_0000_0000
    ensures SlabSize(size) == Max(MIN_SZ, NextPowerOfTwo(size))
  {
    if size != 0 {
      NextPowerOfTwoIsLeast(size);
    }
    MaxOfPower(NextPowerOfTwo(size));
    var k := SlabSizeBit(Max(MIN_SZ, NextPowerOfTwo(size)));
    SlabIdOfBit(k);
    SizeOfSlabBit(k);
  }

  /** Above 2^63 the wrapped power of two is replaced by the 32 KiB floor:
      no size-limit error is raised. */
  lemma HugeSizeGetsSmallestSlab(size: bv64)
    requires size > 0x8000_0000_0000_0000
    ensures SizeToSlabId(size) == 0
  {
    NextPowerOfTwoWraps(size);
    SlabIdOfBit(15);
  }

  /** `size_to_slab_id` inverts `slab_id_to_size`. */
  lemma SlabIdRoundTrip(slabId: SlabId)
    requires slabId <= 48
    ensures SizeToSlabId(SlabIdToSize(slabId)) == slabId
  {
    var k := SlabSizeBit(SlabIdToSize(slabId));
    NextPowerOfPower(SlabIdToSize(slabId));
    MaxOfSlabSize(SlabIdToSize(slabId));
    SlabIdOfBit(k);
    SlabBitNarrows(slabId, k);
  }

  lemma MaxOfSlabSize(x: bv64)
    requires IsSlabSize(x)
    ensures Max(MIN_SZ, x) == x
  {
  }

  lemma SlabBitNarrows(slabId: SlabId, k: bv64)
    requires slabId <= 48 && 15 <= k < 64
    requires 1 as bv64 << (MIN_TRAILING_ZEROS + slabId as bv64) == 1 as bv64 << k
    ensures (k - 15) as bv8 == slabId
  {
  }

  /** Normalising a size twice gives the same slab. */
  lemma SlabSizeIdempotent(size: bv64)
    ensures SlabSize(SlabSize(size)) == SlabSize(size)
  {
    SlabIdRoundTrip(SizeToSlabId(size));
  }

  // ---------------------------------------------------------------------
  // HeapId

  datatype HeapId = HeapId(location: bv64, originalLsn: Lsn)

  /** The tuple returned by `HeapId::decompose`. */
  datatype Decomposed = Decomposed(slabId: SlabId, slabIdx: SlabIdx, originalLsn: Lsn)

  /** The position of the lowest set bit of the high word of `location`, 32
      when that word is zero. */
  function HighWordTrailingZeros(location: bv64): (r: SlabId)
    ensures r <= 32
  {
    var high := location >> 32;
    if high == 0 then 32
    else
      var tz := TrailingZeros(high);
      HighWordBound(location, tz);
      tz as bv8
  }

  lemma HighWordBound(location: bv64, t: bv64)
    requires BitSet(location >> 32, t)
    ensures t < 32 && (t as bv8) < 32
  {
  }

  function Decompose(h: HeapId): (r: Decomposed)
    ensures r.slabId <= 32
    ensures h.location >> 32 != 0 ==> r.slabId < 32
  {
    NonzeroHighWord(h.location);
    Decomposed(HighWordTrailingZeros(h.location), (h.location & 0xFFFF_FFFF) as bv32, h.originalLsn)
  }

  lemma NonzeroHighWord(location: bv64)
    ensures location >> 32 != 0 ==> HighWordTrailingZeros(location) < 32
  {
    if location >> 32 != 0 {
      HighWordBound(location, TrailingZeros(location >> 32));
    }
  }

  function Compose(slabId: SlabId, slabIdx: SlabIdx, originalLsn: Lsn): (r: HeapId)
    requires slabId < 32
    ensures r.originalLsn == originalLsn
    ensures r.location >> 32 == 1 << slabId as bv64
  {
    HighWordOfComposed(slabId as bv64, slabIdx);
    HeapId((1 << (32 + slabId as bv64)) | (slabIdx as bv64), originalLsn)
  }

  lemma HighWordOfComposed(slabId: bv64, slabIdx: bv32)
    requires slabId < 32
    ensures ((1 << (32 + slabId)) | (slabIdx as bv64)) >> 32 == 1 << slabId
  {
  }

  /** Decomposing a composed id gives back its parts. */
  lemma DecomposeCompose(slabId: SlabId, slabIdx: SlabIdx, originalLsn: Lsn)
    requires slabId < 32
    ensures Decompose(Compose(slabId, slabIdx, originalLsn)) == Decomposed(slabId, slabIdx, originalLsn)
  {
    LowWordOfComposed(slabId as bv64, slabIdx);
    SlabIdOfBitInHighWord(slabId, Compose(slabId, slabIdx, originalLsn).location);
  }

  lemma SlabIdOfBitInHighWord(slabId: SlabId, location: bv64)
    requires slabId < 32 && location >> 32 == 1 << slabId as bv64
    ensures HighWordTrailingZeros(location) == slabId
  {
    TrailingZerosOfBit(slabId as bv64);
    BitOfSmallId(slabId);
  }

  lemma BitOfSmallId(slabId: SlabId)
    requires slabId < 32
    ensures (1 as bv64 << slabId as bv64) >> 32 == 0 && 1 as bv64 << slabId as bv64 != 0
    ensures (slabId as bv64) as bv8 == slabId
  {
  }

  lemma LowWordOfComposed(slabId: bv64, slabIdx: bv32)
    requires slabId < 32
    ensures (((1 << (32 + slabId)) | (slabIdx as bv64)) & 0xFFFF_FFFF) as bv32 == slabIdx
  {
  }

  /** A location whose high word is zero decomposes to slab 32, which cannot
      be composed again. */
  lemma DecomposeZeroHigh(h: HeapId)
    requires h.location >> 32 == 0
    ensures Decompose(h).slabId == 32
  {
  }

  /** Composing a decomposed id gives it back when its high word has a single
      set bit ... */
  lemma ComposeDecompose(h: HeapId)
    requires IsPowerOfTwo(h.location >> 32)
    ensures Decompose(h).slabId < 32
    ensures Compose(Decompose(h).slabId, Decompose(h).slabIdx, Decompose(h).originalLsn) == h
  {
    var slabId, slabIdx := IsComposed(h);
    DecomposeCompose(slabId, slabIdx, h.originalLsn);
  }

  /** An id whose high word is a single bit is the composition of that bit's
      position and its low word. */
  lemma IsComposed(h: HeapId) returns (slabId: SlabId, slabIdx: SlabIdx)
    requires IsPowerOfTwo(h.location >> 32)
    ensures slabId < 32 && h == Compose(slabId, slabIdx, h.originalLsn)
  {
    var t := LowestHighBit(h);
    NarrowBelow32(t);
    slabId, slabIdx := t as bv8, (h.location & 0xFFFF_FFFF) as bv32;
    RecomposedLocation(h.location, t);
    RecomposeBit(h.location, t);
    SameFields(Compose(slabId, slabIdx, h.originalLsn), h);
  }

  lemma NarrowBelow32(t: bv64)
    requires t < 32
    ensures t as bv8 < 32
  {
  }

  lemma SameFields(a: HeapId, b: HeapId)
    requires a.location == b.location && a.originalLsn == b.originalLsn
    ensures a == b
  {
  }

  /** ... and only then: every composed id has a single bit in its high word. */
  lemma ComposedHighWordIsPower(h: HeapId)
    requires h.location >> 32 != 0
    requires Compose(Decompose(h).slabId, Decompose(h).slabIdx, Decompose(h).originalLsn) == h
    ensures IsPowerOfTwo(h.location >> 32)
  {
    BitIsPower(Decompose(h).slabId as bv64);
  }

  lemma BitIsPower(j: bv64)
    requires j < 64
    ensures IsPowerOfTwo(1 << j)
  {
  }

  /** Bit t, below 32, is the lowest set bit of the nonzero high word of
      `loc`. */
  predicate LowestBitOfHigh(loc: bv64, t: bv64)
  {
    loc >> 32 != 0 && t < 32 && ((loc >> 32) >> t) & 1 == 1 && (loc >> 32) << (64 - t) == 0
  }

  lemma LowestHighBit(h: HeapId) returns (t: bv64)
    requires h.location >> 32 != 0
    ensures LowestBitOfHigh(h.location, t) && t == TrailingZeros(h.location >> 32)
  {
    t := TrailingZeros(h.location >> 32);
    TrailingZerosLowest(h.location >> 32);
    HighWordBound(h.location, t);
  }

  lemma RecomposedLocation(loc: bv64, t: bv64)
    requires t < 32
    ensures (1 as bv64 << (32 + ((t as bv8) as bv64))) | (((loc & 0xFFFF_FFFF) as bv32) as bv64)
            == (1 as bv64 << (32 + t)) | (loc & 0xFFFF_FFFF)
  {
  }

  lemma RecomposeBit(loc: bv64, t: bv64)
    requires LowestBitOfHigh(loc, t) && IsPowerOfTwo(loc >> 32)
    ensures (1 << (32 + t)) | (loc & 0xFFFF_FFFF) == loc
  {
  }

  /** `HeapId::slab_size`. */
  function HeapSlabSize(h: HeapId): (r: bv64)
    ensures IsSlabSize(r)
  {
    SlabIdToSize(Decompose(h).slabId)
  }

  /** The byte offset of entry `slabIdx` of the slab of id `slabId`: slab
      size times index, modulo 2^64. */
  function SlabOffset(slabId: SlabId, slabIdx: SlabIdx): bv64
    requires slabId <= 48
  {
    WrappingMul(SlabIdToSize(slabId), slabIdx as bv64)
  }

  /** `size_t` multiplication, modulo 2^64. */
  function WrappingMul(a: bv64, b: bv64): bv64
  {
    a * b
  }

  /** `HeapId::offset`. */
  function HeapOffset(h: HeapId): (r: bv64)
    ensures r == WrappingMul(HeapSlabSize(h), Decompose(h).slabIdx as bv64)
  {
    SlabOffset(Decompose(h).slabId, Decompose(h).slabIdx)
  }

  /** For a composed id the slab size and offset are those of its parts. */
  lemma ComposedSizeAndOffset(slabId: SlabId, slabIdx: SlabIdx, originalLsn: Lsn)
    requires slabId < 32
    ensures HeapSlabSize(Compose(slabId, slabIdx, originalLsn)) == SlabIdToSize(slabId)
    ensures HeapOffset(Compose(slabId, slabIdx, originalLsn)) == SlabOffset(slabId, slabIdx)
  {
    DecomposeCompose(slabId, slabIdx, originalLsn);
  }
}
