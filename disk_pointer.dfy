/** Where a page fragment lives on disk (pagecache/disk_pointer.h): either
    inline in the log at a log offset, or in the blob heap under a heap id.
    The source keeps a flag beside a union of the two; the model keeps the
    two cases apart as constructors, so a pointer is never read through the
    wrong member. */
module DiskPointer {
  import opened Heap

  /** `LogOffset`, an unsigned 64-bit offset into the log. */
  type LogOffset = bv64

  datatype DiskPtr = Inline(offset: LogOffset) | OnHeap(heapId: HeapId)

  /** `DiskPtr::new_inline`. */
  function NewInline(offset: LogOffset): (r: DiskPtr)
    ensures IsInline(r) && Lid(r) == offset
  {
    Inline(offset)
  }

  /** `DiskPtr::is_inline`: the flag, false unless set by `new_inline`. */
  predicate IsInline(p: DiskPtr)
    ensures IsInline(p) <==> !p.OnHeap?
  {
    p.Inline?
  }

  /** `DiskPtr::lid`: the log offset of an inline pointer, the heap location
      of any other. */
  function Lid(p: DiskPtr): (r: LogOffset)
    ensures IsInline(p) ==> r == p.offset
    ensures !IsInline(p) ==> r == p.heapId.location
  {
    match p
    case Inline(offset) => offset
    case OnHeap(heapId) => heapId.location
  }

  /** A heap pointer is not inline, and its id is recovered from its
      location and the original LSN. */
  lemma HeapPointerLid(h: HeapId)
    ensures !IsInline(OnHeap(h))
    ensures HeapId(Lid(OnHeap(h)), h.originalLsn) == h
  {
  }
}
