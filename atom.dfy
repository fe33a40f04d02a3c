/** The tag arithmetic of the epoch-based reclamation pointers (ebr/atom.h):
    a pointer aligned to four bytes carries a 2-bit tag in its low bits.
    Addresses are 64-bit words (`uintptr_t` on the supported targets). */
module Atom {

  /** `std::memory_order`. */
  datatype MemoryOrder = Relaxed | Consume | Acquire | Release | AcqRel | SeqCst

  /** The orderings a load, and so a failed compare-and-swap, may use. */
  predicate IsLoadOrder(ord: MemoryOrder)
  {
    ord != Release && ord != AcqRel
  }

  /** The strongest ordering a failed compare-and-swap may use when the
      successful one uses `ord`: the store half of `ord` is dropped, and every
      ordering the switch does not name (consume, seq_cst) becomes seq_cst. */
  function StrongestFailureOrdering(ord: MemoryOrder): (r: MemoryOrder)
    ensures IsLoadOrder(r)
    ensures ord == Relaxed || ord == Release <==> r == Relaxed
    ensures ord == Acquire || ord == AcqRel <==> r == Acquire
  {
    match ord
    case Relaxed | Release => Relaxed
    case Acquire | AcqRel => Acquire
    case _ => SeqCst
  }

  /** Applying the map twice changes nothing more. */
  lemma StrongestFailureOrderingIdempotent(ord: MemoryOrder)
    ensures StrongestFailureOrdering(StrongestFailureOrdering(ord)) == StrongestFailureOrdering(ord)
  {
  }

  /** The orderings left alone are exactly relaxed, acquire and seq_cst. */
  lemma StrongestFailureOrderingFixedPoints(ord: MemoryOrder)
    ensures StrongestFailureOrdering(ord) == ord <==> ord in {Relaxed, Acquire, SeqCst}
  {
  }

  /** `TAG_MASK`: the two low bits. */
  const TAG_MASK: bv64 := 0x3

  /** `pack_ptr`: the tag, cut to two bits, ORed into the address. */
  function PackPtr(ptr: bv64, tag: bv64): (r: bv64)
    ensures r & !TAG_MASK == ptr & !TAG_MASK
    ensures ptr & TAG_MASK == 0 ==> r & TAG_MASK == tag & TAG_MASK
  {
    ptr | (tag & TAG_MASK)
  }

  /** `unpack_ptr`: the word with the tag bits cleared. */
  function UnpackPtr(packed: bv64): (r: bv64)
    ensures r & TAG_MASK == 0
    ensures r | (packed & TAG_MASK) == packed
  {
    packed & !TAG_MASK
  }

  /** `get_tag`: the two low bits. */
  function GetTag(packed: bv64): (r: bv64)
    ensures r <= 3
    ensures UnpackPtr(packed) | r == packed
  {
    packed & TAG_MASK
  }

  /** Packing an aligned pointer and unpacking gives the pointer and the tag
      (cut to two bits) back. */
  lemma UnpackPack(ptr: bv64, tag: bv64)
    requires ptr & TAG_MASK == 0
    ensures UnpackPtr(PackPtr(ptr, tag)) == ptr
    ensures GetTag(PackPtr(ptr, tag)) == tag & TAG_MASK
  {
  }

  /** Every word is the packing of its pointer part and its tag. */
  lemma PackUnpack(packed: bv64)
    ensures PackPtr(UnpackPtr(packed), GetTag(packed)) == packed
  {
  }

  /** Tag bits above the mask are dropped. */
  lemma PackIgnoresHighTagBits(ptr: bv64, tag: bv64)
    ensures PackPtr(ptr, tag) == PackPtr(ptr, tag & TAG_MASK)
  {
  }
}
