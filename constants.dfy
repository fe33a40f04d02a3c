/** Constants of the page cache (pagecache/constant.h). */
module Constants {

  /** Length in bytes of the header stamped at the start of every segment. */
  const SEG_HEADER_LEN: nat := 20

  const MAX_MSG_HEADER_LEN: nat := 32

  /** Reserved page identifiers. */
  const META_PID: bv64 := 0
  const COUNTER_PID: bv64 := 1
  const BATCH_MANIFEST_PID: bv64 := 0xFFFF_FFFF_FFFF_FFFF - 666

  const PAGE_CONSOLIDATION_THRESHOLD: nat := 10
  const SEGMENT_CLEANUP_THRESHOLD: nat := 50

  /** Values on a 64-bit target. */
  const MAX_PID_BITS: nat := 37
  const MAX_BLOB: nat := 0x20_0000_0000  // 1 << 37, 128 GiB
}
