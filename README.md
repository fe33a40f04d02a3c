# dels_db page cache core, in Dafny

dels_db is a log-structured page store written in C++. Pages are written to an
append-only log that is cut into fixed-size segments, and large blobs live in a
slab heap. This project models the sequential bookkeeping and bit-level
encodings under that store, and proves their properties:

- **Segment lifecycle** (`segment.dfy`, from `pagecache/segment.h`). A segment
  goes Free → Active → Inactive → Draining → Free.
  - The four states form one datatype.
  - Each operation returns a `Result`: it is `Err(LogicError(..))` in every
    state where the source's base class throws `std::logic_error`.
  - The C++ `assert`s become preconditions of the state that asserts them.
  - The in-place mutators are also methods of the class
    `SegmentObjects.SegmentBox`. Its `ActiveToInactive` runs the erase loop of
    `active_to_inactive` (`Segments.ErasePids`).
- **Reservation header word** (`header.dfy`, from `header.h`). One `u64` holds
  five fields: the offset (bits 0–23), the writer count (bits 24–30), sealed
  (bit 31), maxed (bit 32) and the salt (bits 33–63). The model works on
  `bv64`, exactly as the code is written. Where the code departs from what was
  evidently meant, a separate corrected function sits beside it (see Findings).
- **Slab size classes and heap ids** (`heap.dfy`, from `pagecache/heap.h`).
  This covers `next_power_of_two`, the size ↔ slab-id mapping with its 32 KiB
  floor, and how a slab id and slab index are packed into a 64-bit location.
- **Log buffer** (`iobuf.dfy`, from `pagecache/iobuf.h`). It covers:
  - the 8 KiB-rounded `AlignedBuf` and its move constructor;
  - `IoBuf::store_segment_header`, which writes 20 bytes at the front of the
    block and resets the header word;
  - `get_mut_range` and `set_header`.
- **Segment header serialiser** (`logger.dfy`, from `pagecache/logger.h`, with
  `crc.dfy` for the CRC-32 that `util/pcrc.h` takes from zlib). The header is
  `[crc32 of bytes 4..20][lsn ^ mask][max stable lsn ^ mask]`, in host
  (little-endian) order. A reference reader, `ReadHeader`, is the partner of
  the encoder.
- **Disk pointers** (`disk_pointer.dfy`, from `pagecache/disk_pointer.h`), as
  an inline-or-heap datatype.
- **Byte slices** (`slice.dfy`, from `slice.h`). The three-way `compare`,
  `starts_with` and `==` are defined on byte sequences. `SliceMut` and `Slice`
  are classes whose `clear` and `remove_prefix` update the viewed bytes in
  place.
- **Persistent ordered map** (`im_ordmap.dfy`, from `util/im_ordmap.cc`). A
  path-copying binary search tree:
  - `contains` and `find` are loops;
  - `insert`, `balance` and `rotateLeft` are recursive functions;
  - the map's content is proved to be the in-order sequence read as a map.
- **xorshift32 generator with rejection** (`prandom.dfy`, from
  `util/prandom.h`). The doc comment in the source says `next()` returns
  values in `[0, kMaxNext]`. The loop rejects `x >= kMaxNext`, so it never
  returns `kMaxNext` itself. The model follows the code.
- **Tagged pointers and failure orderings** (`atom.dfy`, from `ebr/atom.h`).
- Supporting modules:
  - `wrappers.dfy`: `Option`, `Result`, `Error`;
  - `bytes.dfy`: little-endian byte images and `memcpy`;
  - `constants.dfy`: the values of `pagecache/constant.h`.

`def_types.h` is not part of this model. Its types are chosen as follows:

- `Lsn` and `LogOffset` are 64-bit words (`bv64`; `logger.h` handles an `Lsn`
  as a `uint64_t`).
- In the segment module, LSNs are `nat`. That module only copies and compares
  them, so naturals behave exactly like unsigned 64-bit values there.
- `PageId` is a `bv64`.

## Model

| member | source | states |
|---|---|---|
| Segments.SegState | pagecache/segment.h:76-81 | the state tag is `SegFree`/`SegActive`/`SegInactive`/`SegDraining` exactly for the matching state |
| Segments.MakeFreeSegment | pagecache/segment.h:292-294 | a Free segment with no previous LSN |
| Segments.SegmentLsn | pagecache/segment.h:91 | `lsn()` succeeds exactly outside Free, with the segment's own LSN; Free throws |
| Segments.RecoveryEnsureInitialized | pagecache/segment.h:116-119 | throws in every state, with Free's own message in the Free state |
| Segments.InsertPid | pagecache/segment.h:146-149 | defined only when Active (with `lsn == lsn_`); adds the pid to `pids` and changes no other field |
| Segments.DeferFreeLsn | pagecache/segment.h:151-153 | defined only when Active; adds the LSN to `can_free_upon_deactivation`, nothing else changes |
| Segments.RemovePid | pagecache/segment.h:155-163 | defined in every state but Free (with `lsn_ <= replacement_lsn`); keeps the state and LSN; latest replacement LSN becomes the max of old and new |
| Segments.ActiveRemovePidDefers | pagecache/segment.h:155-163 | Active: the deferred set becomes `deferred ∪ {pid}` when the replacement is in another segment and is unchanged otherwise, so no other pid joins; `pids` and the deferred LSNs are unchanged |
| Segments.InactiveRemovePidCounts | pagecache/segment.h:214-226 | Inactive, for every segment: a pid replaced elsewhere is erased; `replaced_pids` grows by one exactly when the pid was live and replaced elsewhere; `max_pids` is kept; `\|pids\| + replaced_pids` is unchanged |
| Segments.InactiveRemovePidBalanced | pagecache/segment.h:214-226 | corollary: `\|pids\| + replaced_pids == max_pids` is preserved |
| Segments.DrainingRemovePidCounts | pagecache/segment.h:264-272 | Draining: every replacement elsewhere increments `replaced_pids` with no membership check and `max_pids` is kept, so one more after `can_free` makes it false |
| Segments.RemovePidMonotone | pagecache/segment.h:160-162 | the latest replacement LSN never decreases and is at least the replacement LSN |
| Segments.RemoveHeapItem | pagecache/segment.h:228-230 | Inactive and Draining free the heap id at once (it joins the freed set); Active and Free throw |
| Segments.FreeToActive | pagecache/segment.h:298-301 | only from Free, at an LSN above any previous one; a fresh Active segment with empty sets and latest replacement LSN 0 |
| Segments.ActiveToInactive | pagecache/segment.h:169-194 | only from Active; same LSN, `pids` minus the deferred pids, `max_pids = \|pids\|`, `replaced_pids = \|deferred\|`, same latest LSN; hands back the deferred LSNs |
| Segments.ErasePids | pagecache/segment.h:178-182 | the erase loop leaves exactly `pids \ deferred` |
| Segments.ActiveToInactiveBalanced | pagecache/segment.h:176-190 | when every deferred pid is live, the new Inactive segment is balanced: `\|pids\| + replaced_pids == max_pids` |
| Segments.InactiveToDraining | pagecache/segment.h:232-243 | only from Inactive; hands back the whole live set; the Draining segment keeps LSN, counters and latest LSN |
| Segments.DrainingToFree | pagecache/segment.h:278-284 | only from Draining; a Free segment remembering the LSN, and the latest replacement LSN |
| Segments.CanFree | pagecache/segment.h:286-288 | `can_free` holds only in Draining (exactly when `replaced_pids == max_pids`, by `CanFreeOnlyDraining`) |
| Segments.CanFreeOnlyDraining | pagecache/segment.h:286-288 | `can_free` holds exactly in Draining with `replaced_pids == max_pids`, and is false in every other state |
| Segments.NotImplementedOutsideState | pagecache/segment.h:84-95 | the base-class defaults throw: Free has no LSN, `remove_pid` or `remove_heap_item`; only Active inserts or defers; Active has no `remove_heap_item` or `free_to_active` |
| Segments.LifecycleRoundTrip | pagecache/segment.h:278-301 | Free → Active → Inactive → Draining → Free with no replacements hands every inserted pid over, is freeable only when empty, and returns Free remembering the LSN |
| Segments.ScenarioInsertThenDeactivate | pagecache/segment.h:146-194 | activated at 10, pid 42 inserted, deactivated at 15: 42 is live and `max_pids == 1` |
| Segments.ScenarioReplaceThenDeactivate | pagecache/segment.h:155-194 | pid 42 replaced at 20 before deactivation is not live afterwards and the latest replacement LSN is 20 |
| Segments.ScenarioDrainToFreeable | pagecache/segment.h:214-288 | max 3, replaced 2, the last live pid replaced elsewhere: replaced becomes 3 and the drained segment can be freed |
| SegmentObjects.SegmentBox.InsertPid | pagecache/segment.h:146-149 | in place: the object's new state and the outcome are those of `Segments.InsertPid`; unchanged when it throws |
| SegmentObjects.SegmentBox.DeferFreeLsn | pagecache/segment.h:151-153 | in place, as `Segments.DeferFreeLsn` |
| SegmentObjects.SegmentBox.RemovePid | pagecache/segment.h:155-163 | in place, field by field per state, as `Segments.RemovePid` |
| SegmentObjects.SegmentBox.RemoveHeapItem | pagecache/segment.h:228-230 | adds the id to the heap's freed set exactly when `Segments.RemoveHeapItem` succeeds; otherwise throws and frees nothing |
| SegmentObjects.SegmentBox.ActiveToInactive | pagecache/segment.h:169-194 | computing the live set with the erase loop gives exactly `Segments.ActiveToInactive` |
| HeaderUtil.IsMaxed | header.h:15-17 | holds exactly when bit 32 is set |
| HeaderUtil.MkMaxed | header.h:20-22 | as written, `v \| (1ull < 32)` is `v \| 1` |
| HeaderUtil.MkMaxedIsOrOne | header.h:16-22 | as written, `mk_maxed` never changes `is_maxed`; `mk_maxed(0)` is not maxed |
| HeaderUtil.IsSealed | header.h:23-25 | holds exactly when bit 31 is set |
| HeaderUtil.MkSealed | header.h:28-30 | as written, `v \| (1ull < 31)` is `v \| 1` |
| HeaderUtil.MkSealedIsOrOne | header.h:24-30 | as written, `mk_sealed` never changes `is_sealed`; `mk_sealed(0)` is not sealed |
| HeaderUtil.NWriters | header.h:32-34 | the writer count is bits 24–30, so at most `MAX_WRITERS` (127) |
| HeaderUtil.IncrWriters | header.h:36-39 | below 127 writers, the count goes up by one |
| HeaderUtil.IncrWritersFields | header.h:36-39 | incrementing keeps the offset bits and bits 31–63 (sealed, maxed, salt) |
| HeaderUtil.DecrWriters | header.h:41-44 | above 0 writers, the count goes down by one |
| HeaderUtil.DecrWritersFields | header.h:41-44 | decrementing keeps the offset bits and bits 31–63 |
| HeaderUtil.DecrAfterIncr | header.h:36-44 | `decr_writers(incr_writers(v)) == v` |
| HeaderUtil.IncrAfterDecr | header.h:36-44 | `incr_writers(decr_writers(v)) == v` |
| HeaderUtil.BumpOffset | header.h:46-49 | for `by < 2^24` without carry out of the offset field, the offset grows by `by` and bits 24–63 are unchanged |
| HeaderUtil.Salt | header.h:55-57 | clears bits 0–32 and keeps the salt bits |
| HeaderUtil.SaltIdempotent | header.h:55-57 | `salt(salt(v)) == salt(v)` |
| HeaderUtil.BumpSalt | header.h:51-53 | as written, the mask leaves bits 0–31 and bit 33 clear |
| HeaderUtil.BumpSaltClearsBit33 | header.h:51-53 | as written, bit 33 is always clear, a salt with bit 33 clear is left unchanged, and `bump_salt(0) == 0` |
| HeaderUtil.EvenSaltFixed | header.h:51-53 | adding one to an even salt is undone by the mask |
| HeaderUtil.MkMaxedIntended | header.h:20-22 | corrected `mk_maxed`: sets bit 32 and keeps every other bit |
| HeaderUtil.MkSealedIntended | header.h:28-30 | corrected `mk_sealed`: sets bit 31 and keeps every other bit |
| HeaderUtil.BumpSaltIntended | header.h:51-53 | corrected `bump_salt`: bits 0–32 clear, salt one higher modulo 2^31 |
| HeaderUtil.BumpSaltIntendedChangesSalt | header.h:51-53 | the corrected `bump_salt` always changes the salt |
| Heap.TrailingZeros | pagecache/heap.h:42 | `__builtin_ctzll` returns a position whose bit is set, and no lower bit is set (`TrailingZerosLowest`) |
| Heap.NextPowerOfTwoZero | pagecache/heap.h:22 | `next_power_of_two(0) == 1` |
| Heap.NextPowerOfTwo | pagecache/heap.h:21-31 | a power of two, or 0 where `n + 1` wraps (least power by `NextPowerOfTwoIsLeast`, 0 above 2^63 by `NextPowerOfTwoWraps`, 1 for 0 by `NextPowerOfTwoZero`) |
| Heap.NextPowerOfTwoIsLeast | pagecache/heap.h:21-31 | for `1 <= n <= 2^63`, the result is the least power of two that is at least `n` |
| Heap.NextPowerOfTwoWraps | pagecache/heap.h:21-31 | above 2^63 the result wraps to 0 |
| Heap.NextPowerOfPower | pagecache/heap.h:21-31 | a power of two is its own next power of two |
| Heap.SlabIdToSize | pagecache/heap.h:33-35 | for `id <= 48`, a power of two of at least 32 KiB (`2^(15+id)`) |
| Heap.SizeToSlabId | pagecache/heap.h:38-44 | the slab id is at most 48 |
| Heap.SlabSize | pagecache/heap.h:48-50 | always a slab size: a power of two of at least 32 KiB (its value by `SlabSizeIsLeastPower`) |
| Heap.SlabSizeIsLeastPower | pagecache/heap.h:38-50 | for `n <= 2^63`, `slab_size(n)` is `max(32 KiB, next_power_of_two(n))` |
| Heap.HugeSizeGetsSmallestSlab | pagecache/heap.h:38-44 | above 2^63 the wrapped power gives slab id 0 (`MAX_BLOB` is never checked) |
| Heap.SlabIdRoundTrip | pagecache/heap.h:33-44 | `size_to_slab_id(slab_id_to_size(s)) == s` for `s <= 48` |
| Heap.SlabSizeIdempotent | pagecache/heap.h:48-50 | `slab_size(slab_size(n)) == slab_size(n)` |
| Heap.Decompose | pagecache/heap.h:56-64 | slab id at most 32, and below 32 exactly when the high word is nonzero |
| Heap.DecomposeZeroHigh | pagecache/heap.h:60 | a zero high word decomposes to slab id 32 |
| Heap.Compose | pagecache/heap.h:65-69 | the high word is the single bit `1 << slab_id`; the LSN is kept |
| Heap.DecomposeCompose | pagecache/heap.h:56-69 | `decompose(compose(s, i, l)) == (s, i, l)` for `s < 32` |
| Heap.ComposeDecompose | pagecache/heap.h:56-69 | when the high word is a power of two, `compose(decompose(h)) == h` |
| Heap.ComposedHighWordIsPower | pagecache/heap.h:56-69 | conversely, a nonzero high word that survives the round trip is a power of two |
| Heap.HeapSlabSize | pagecache/heap.h:76-79 | `HeapId::slab_size` is a slab size |
| Heap.ComposedSizeAndOffset | pagecache/heap.h:71-79 | for a composed id, `slab_size()` is `slab_id_to_size(slab)` and `offset()` is slab size times index |
| Heap.HeapOffset | pagecache/heap.h:71-74 | `offset()` is the id's slab size times its slab index, modulo 2^64 (for composed ids, by `ComposedSizeAndOffset`) |
| IoBuffer.AlignedSize | pagecache/iobuf.h:27 | the allocation size is a multiple of 8192 in `size_t` range |
| IoBuffer.AlignedSizeIsLeastMultiple | pagecache/iobuf.h:25-29 | below the wrap point, it is the least multiple of 8192 at or above `len` |
| IoBuffer.AlignedSizeWraps | pagecache/iobuf.h:27 | within 8191 of 2^64 the sum wraps and the size is 0 |
| IoBuffer.AlignedSizeOfMultiple | pagecache/iobuf.h:27 | a multiple of 8192 is kept |
| IoBuffer.AlignedBuf.constructor | pagecache/iobuf.h:25-29 | a fresh block of the rounded size; `len` stays unrounded |
| IoBuffer.AlignedBuf.Move | pagecache/iobuf.h:34-37 | the new buffer takes `ptr` and `len`; the source is left null with length 0 |
| IoBuffer.RangeCheckIsSafe | pagecache/iobuf.h:85-90 | a range passing the corrected check lies inside the block |
| IoBuffer.RangeCheckAsWrittenOverruns | pagecache/iobuf.h:88 | the check as written passes a range past the end of the block |
| IoBuffer.IoBuf.GetMutRange | pagecache/iobuf.h:85-90 | under the check as written (`at + len <= buf_len`), a view of exactly the `len` bytes at `base + at` of the block |
| IoBuffer.IoBuf.StoreSegmentHeader | pagecache/iobuf.h:67-83 | as written: records both LSNs; bytes [0,20) of the block (not at `base`) become the header `to_char` as written lays out (CRC, masked LSN, eight stray bytes), the rest is untouched; the header word becomes `bump_offset(bump_salt(salt(last)), 20)` |
| IoBuffer.IoBuf.StoreSegmentHeaderIntended | pagecache/iobuf.h:67-83 | corrected (`to_char` and `bump_salt` fixed): bytes [0,20) become the full encoded header and the header word gets the corrected salt |
| IoBuffer.SegmentStartHeaderFields | pagecache/iobuf.h:79-82 | as written: the new header word has no writers, is neither sealed nor maxed, has offset 20, and an even salt does not move |
| IoBuffer.SegmentStartHeaderIntendedFields | pagecache/iobuf.h:79-82 | corrected: the same fields, and the salt is one above the old one |
| IoBuffer.SegmentStartHeaderCounterexample | pagecache/iobuf.h:79-82 | after a header word of 0 the code as written leaves `0x14` (salt unchanged); the corrected code leaves salt 1 |
| IoBuffer.IoBuf.SetHeader | pagecache/iobuf.h:92-94 | the header word becomes `v`, nothing else changes |
| Bytes.Memcpy | pagecache/iobuf.h:76 | `memcpy` overwrites exactly the destination range |
| Bytes.ReadLE64Inverse | pagecache/logger.h:22 | the 8-byte host-order image of a word reads back as that word |
| Logger.LsnField | pagecache/logger.h:21-22 | an LSN field is the 8-byte image of `lsn ^ 0x7FFF_FFFF_FFFF_FFFF` |
| Logger.Encode | pagecache/logger.h:19-35 | 20 bytes: the masked LSN at [4,12), the masked highest stable LSN at [12,20), and the CRC of [4,20) at [0,4) (read back by `ReadEncoded`) |
| Logger.Layout | pagecache/logger.h:19-35 | 20 bytes: LSN field at [4,12), the given field at [12,20), and the CRC of [4,20) at [0,4) |
| Logger.ReadHeader | pagecache/logger.h:19-35 | the reference reader: rejects a short buffer or a CRC mismatch, otherwise unmasks both fields |
| Logger.ToChar | pagecache/logger.h:19-35 | corrected `to_char`: bytes [0,20) become the encoded header, every later byte is untouched |
| Logger.ToCharAsWritten | pagecache/logger.h:19-35 | `to_char` as written: bytes [12,20) are whatever 8 bytes line 25 points at |
| Logger.ReadEncoded | pagecache/logger.h:19-35 | reading an encoded header gives back both LSNs |
| Logger.ReadEncodedExample | pagecache/logger.h:19-35 | the header for LSN 100, highest stable LSN 90 reads back as 100 and 90 |
| Logger.ReadAsWritten | pagecache/logger.h:24-29 | as written, the stored highest stable LSN is read back from the stray bytes |
| Logger.AsWrittenKeepsMaxStableIff | pagecache/logger.h:24-29 | as written, the highest stable LSN survives exactly when the stray bytes happen to be its image |
| Logger.AsWrittenCounterexample | pagecache/logger.h:25 | zero stray bytes read back as `0x7FFF_FFFF_FFFF_FFFF`, whatever was stored |
| Logger.EncodeIgnoresOk | pagecache/logger.h:13-16 | the `ok` flag does not influence the bytes |
| Logger.LsnFieldZero | pagecache/logger.h:21 | an LSN field is all zero only for LSN `0x7FFF_FFFF_FFFF_FFFF`, never for LSN 0 |
| Logger.UnmaskMask | pagecache/logger.h:21 | XOR with the mask twice is the identity |
| Crc.Crc32Buf | util/pcrc.h:6-9 | `crc32_buf` (its meaning, the register preset to all ones, is stated by `Crc32BufIsRegister`) |
| Crc.Crc32BufIsRegister | util/pcrc.h:6-9 | `crc32_buf` is the CRC register preset to all ones, fed the buffer, without the final inversion |
| Crc.RegisterAppend | util/pcrc.h:7 | feeding `a` then `b` is feeding `a + b` |
| Crc.Crc32BufStreams | util/pcrc.h:6-9 | `crc32_buf(a + b)` continues from `crc32_buf(a)` over `b` |
| Crc.Crc32Empty | util/pcrc.h:7 | an empty buffer leaves the CRC unchanged |
| Crc.CheckValue | util/pcrc.h:7 | the CRC-32 of "123456789" is the standard check value `0xCBF43926` |
| DiskPointer.NewInline | pagecache/disk_pointer.h:12-17 | `new_inline(o)` is inline and its `lid()` is `o` |
| DiskPointer.IsInline | pagecache/disk_pointer.h:19-21 | holds exactly for a pointer that is not a heap pointer |
| DiskPointer.Lid | pagecache/disk_pointer.h:23-29 | the offset of an inline pointer, the heap location of any other |
| DiskPointer.HeapPointerLid | pagecache/disk_pointer.h:19-29 | a heap pointer is not inline, and its id is recovered from `lid()` and the original LSN |
| Slices.Memcmp | slice.h:74 | `memcmp` over `n` bytes is zero exactly when the prefixes are equal |
| Slices.Compare | slice.h:72-82 | zero exactly when the two byte sequences are equal (the sign of the other cases by `CompareIsLexicographic`) |
| Slices.CompareIsLexicographic | slice.h:72-82 | `compare` is negative, zero or positive exactly as unsigned-byte lexicographic order, a proper prefix being smaller |
| Slices.CompareAntisymmetric | slice.h:179-189 | in sign: `b.compare(a)` is negative, zero or positive exactly when `a.compare(b)` is positive, zero or negative, and `a.compare(a) == 0` |
| Slices.StartsWith | slice.h:85-87 | `starts_with(x)` holds exactly when `x` is a prefix |
| Slices.Equal | slice.h:94-97 | `==` holds exactly when the byte sequences are equal |
| Slices.NotEqual | slice.h:99 | `!=` is the negation |
| Slices.EqualIffCompareZero | slice.h:94-97 | `==` agrees with a zero `compare` |
| Slices.SliceMut.Empty | slice.h:11 | the default view is empty |
| Slices.SliceMut.constructor | slice.h:14 | a view of the given bytes |
| Slices.SliceMut.Clear | slice.h:53-56 | the view becomes empty |
| Slices.SliceMut.RemovePrefix | slice.h:59-63 | for `n <= size()`, the view becomes the old bytes from `n` on, with size reduced by `n` |
| Slices.SliceMut.Size | slice.h:31 | the number of viewed bytes |
| Slices.SliceMut.IsEmpty | slice.h:34 | holds exactly when the view holds no bytes |
| Slices.SliceMut.At | slice.h:43-50 | for `n < size()`, the `n`-th viewed byte |
| Slices.SliceMut.CompareTo | slice.h:72-82 | negative, zero or positive exactly as the view is lexicographically below, equal to or above `b` (through `CompareIsLexicographic`) |
| Slices.SliceMut.StartsWithSlice | slice.h:85-87 | holds exactly when `x` is a prefix of the view |
| Slices.Slice.Empty | slice.h:106 | the default view is empty |
| Slices.Slice.constructor | slice.h:109 | a view of the given bytes |
| Slices.Slice.Clear | slice.h:141-144 | the view becomes empty |
| Slices.Slice.RemovePrefix | slice.h:147-151 | for `n <= size()`, the view becomes the old bytes from `n` on, with size reduced by `n` |
| Slices.Slice.Size | slice.h:125 | the number of viewed bytes |
| Slices.Slice.IsEmpty | slice.h:128 | holds exactly when the view holds no bytes |
| Slices.Slice.At | slice.h:135-138 | for `n < size()`, the `n`-th viewed byte |
| Slices.Slice.CompareTo | slice.h:179-189 | negative, zero or positive exactly as the view is lexicographically below, equal to or above `b` (through `CompareIsLexicographic`) |
| Slices.Slice.StartsWithSlice | slice.h:163-165 | holds exactly when `x` is a prefix of the view |
| ImOrdMap.Empty | util/im_ordmap.cc:44 | the default map is valid and has no key |
| ImOrdMap.Contains | util/im_ordmap.cc:46-54 | the search loop finds a key exactly when it is in the map's content |
| ImOrdMap.Find | util/im_ordmap.cc:56-64 | the search loop returns the value stored under the key, or none |
| ImOrdMap.ContainsIffFind | util/im_ordmap.cc:46-64 | `contains(k)` exactly when `find(k)` is present |
| ImOrdMap.RotateLeft | util/im_ordmap.cc:30-39 | needs a right child; keeps the in-order sequence |
| ImOrdMap.RotateRight | util/im_ordmap.cc:105 | the mirror of `rotateLeft` (the file calls it but does not define it); keeps the in-order sequence |
| ImOrdMap.BalanceFactor | util/im_ordmap.cc:26-28 | positive exactly when the left subtree is taller, zero exactly when the heights are equal |
| ImOrdMap.Balance | util/im_ordmap.cc:98-115 | keeps the in-order sequence |
| ImOrdMap.BalancePreserves | util/im_ordmap.cc:98-115 | keeps search-tree order, content and keys |
| ImOrdMap.InorderDeterminesContent | util/im_ordmap.cc:30-39 | two trees with the same in-order sequence, one ordered, are both ordered with the same content |
| ImOrdMap.InsertCorrect | util/im_ordmap.cc:72-95 | insertion keeps search-tree order; the content is the old one with `key` mapped to `value` |
| ImOrdMap.InsertNode | util/im_ordmap.cc:72-95 | a node with positive heights (order kept and content updated at `key` by `InsertCorrect`) |
| ImOrdMap.Insert | util/im_ordmap.cc:66-69 | returns a new valid map whose content is the old content updated at `key`; the receiver is a value and is unchanged |
| ImOrdMap.FindAfterInsert | util/im_ordmap.cc:66-95 | `find(k)` after `insert(k, v)` is `v`; every other key is found as before |
| PRandom.XorShift | util/prandom.h:21-23 | one xorshift32 step; zero stays zero (and nonzero stays nonzero by `XorShiftNonzero`) |
| PRandom.XorShiftNonzero | util/prandom.h:21-23 | one xorshift step maps a nonzero state to a nonzero state |
| PRandom.Draw | util/prandom.h:16-27 | a drawn value is below `kMaxNext` and equals the new state; the state stays nonzero |
| PRandom.Crandom.constructor | util/prandom.h:13 | the state is the seed, or `0xdeadbeef` for a zero seed; never zero |
| PRandom.Crandom.Next | util/prandom.h:16-27 | the do-while loop's value and new state are those of `Draw` |
| Atom.StrongestFailureOrdering | ebr/atom.h:7-23 | relaxed and release map to relaxed, acquire and acq_rel to acquire, the rest to seq_cst; never release or acq_rel |
| Atom.StrongestFailureOrderingIdempotent | ebr/atom.h:7-23 | applying it twice is applying it once |
| Atom.StrongestFailureOrderingFixedPoints | ebr/atom.h:7-23 | its fixed points are relaxed, acquire and seq_cst |
| Atom.PackPtr | ebr/atom.h:77-80 | keeps every address bit above the tag; an aligned pointer gets the tag's low two bits |
| Atom.UnpackPtr | ebr/atom.h:82-85 | clears the two tag bits and keeps the rest |
| Atom.GetTag | ebr/atom.h:87-90 | the tag is at most 3 and, with the unpacked pointer, rebuilds the word |
| Atom.UnpackPack | ebr/atom.h:77-90 | for an aligned pointer, unpacking a packed word gives the pointer and the tag masked to 2 bits |
| Atom.PackUnpack | ebr/atom.h:77-90 | packing the unpacked pointer with its tag gives back the word |
| Atom.PackIgnoresHighTagBits | ebr/atom.h:79 | tag bits above the mask are dropped |

## Left out

- Concurrency is not modelled:
  - the atomics in `IoBuf` (the header word is a plain field; the release store in `set_header` and the atomic load of `buf_` are plain accesses);
  - cache padding, and the `SegmentCleanerInner` mutex;
  - all of `ebr/atom.h` except the tag arithmetic and the ordering map, namely `Pointable`, `Owned`, `Shared` and `CompareAndSetError`.
- C++ `assert`s are modelled as preconditions. A build with `NDEBUG`, where they are no-ops, is not modelled.
- `std::aligned_alloc` and `free` are not modelled: a block is a fresh array. Its 8 KiB alignment, allocation failure (a null `ptr`) and the destructor are left out.
- `IoBuffer.IoBuf`: the source has no constructor for it, so the model has none. Its methods require a valid block.
- `IoBuffer.IoBuf.GetMutRange`: the sum `base + at + len` is computed over unbounded naturals. Its `size_t` wrap-around is not modelled.
- `IoBuffer.IoBuf.GetMutRange`: a range that passes the check as written but runs past the end of the allocation is undefined behaviour in the source; the second precondition, `base + at + len <= buf.ptr.Length`, excludes it.
- `IoBuffer.IoBuf.StoreSegmentHeader`: the eight bytes `to_char` as written copies from an arbitrary address are a parameter; the model cannot express that reading that address is undefined behaviour and may crash.
- Slices: `Slices.SliceMut` and `Slices.Slice` hold the viewed bytes as a value. Writes through a view into the memory it aliases (such as the IoBuf block) are therefore not modelled.
  - Not modelled: whether the data pointer of an empty view is `nullptr` or `""`.
  - `Slices.Slice.At`: returns the byte as an unsigned `bv8`, while `Slice::operator[]` returns a plain `char`, which may be signed; the value is the same bit pattern.
  - Left out: the `std::string` and C-string constructors, `strlen`, `data()`, `end()` and `ToString`.
- `Slices.Memcmp`: C fixes only the sign of `memcmp`. The model returns the difference of the first differing bytes; every statement about `memcmp` and `compare` (`Slices.CompareFirstDiffer`, `Slices.CompareIsLexicographic`, `Slices.CompareAntisymmetric`) is about the sign or about zero only.
- `Crc`: zlib's table-driven `crc32` is stated bit by bit as the same function. `crc32(crc, ·)` chaining from an arbitrary starting value is not proved, because the source always starts from 0.
- Host byte order is taken to be little-endian.
- The `tlog_info` logging line in `to_char` is left out.
- `Logger.ReadHeader`: no reader of the segment header is among the modelled files (recovery is not part of this model). It is the model's reference decoder.
- `ImOrdMap`:
  - keys are `int` instead of any `K` with `operator<`;
  - the sharing of nodes through `shared_ptr` is not modelled, since the map is a value;
  - AVL height invariants are not stated, because `insert` copies heights instead of recomputing them.
- `ImOrdMap.RotateRight`: the file calls `rotateRight` without defining it. The model takes it to be the mirror of `rotateLeft`, and `ImOrdMap.Balance` relies on that.
- `PRandom.Crandom.Next`: the source loops until the rejection test passes, with no bound on the rounds. The model takes the number of rounds it may spend and returns `None` when they run out, so it does not state that the loop terminates.
- `Segments`:
  - the `std::size_t` counters `max_pids` and `replaced_pids` are naturals, so a wrap-around at 2^64 is not modelled;
  - LSNs are naturals here (they are `bv64` in the heap, logger and log-buffer models), so negative values of a signed 64-bit LSN type and any wrap-around are not modelled; this part of the source only compares and copies LSNs;
  - the moved-from old object left behind by `active_to_inactive` (its `can_free_upon_deactivation`) and by `inactive_to_draining` (its `pids`) is not modelled; the transitions return new values;
  - the `RunningConfig` parameter is left out, since that struct is empty;
  - `config.heap.free` is modelled as adding the id to a set of freed ids (`SegmentObjects.HeapLedger`);
  - `is_free`, `is_active`, `is_inactive` and `is_draining` are the constructor tests of the datatype.
- Also left out of `pagecache/segment.h`: `SegmentOp` and `SegmentOpType`, which declare data with no behaviour, and `SegmentCleaner`.
- Heap: shifts by 64 or more are undefined in C++. `Heap.SlabIdToSize` therefore requires `id <= 48`, and `Heap.Compose` requires `slab_id < 32`.
- `DiskPointer`: the source's flag-plus-union becomes two constructors. Reading the union through the wrong member cannot be expressed.
- `pagecache/constant.h`: the floating-point `MAX_SPACE_AMPLIFICATION` is left out. The other values are in module `Constants`.
- Not part of this model: `concurrency_control.h`, `threadpool.h`, `debug_delay.h`, `lazy.h`, `config.h`, `pagecache/pagecache.h`, `pagecache/snapshot.h`, `pagecache/reservation.h`, `util/thread_ctx.h`, `util/cache_padded.h`, `util/common_def.h` and the scratch programs under `test/`. None of them has sequential behaviour of its own in this core.

## Findings

| source | as written | input that shows it | evidently intended | confidence | as-written member | corrected member |
|---|---|---|---|---|---|---|
| header.h:20-22 | `v \| (1ull < 32)` ORs in the comparison result 1 | `mk_maxed(0) == 1`, which is not maxed | `v \| (1ull << 32)`, setting the maxed bit | high, not executed | HeaderUtil.MkMaxedIsOrOne | HeaderUtil.MkMaxedIntended |
| header.h:28-30 | `v \| (1ull < 31)` ORs in 1 | `mk_sealed(0) == 1`, which is not sealed | `v \| (1ull << 31)`, setting the sealed bit | high, not executed | HeaderUtil.MkSealedIsOrOne | HeaderUtil.MkSealedIntended |
| header.h:51-53 | the mask `0xFFFFFFFD00000000` also clears bit 33, the salt's low bit | `bump_salt(salt(0)) == 0`: the salt does not move, so `store_segment_header` after a word of 0 leaves `0x14` | keep all salt bits (`0xFFFFFFFE00000000`), so the salt goes up by one | high, not executed | HeaderUtil.BumpSaltClearsBit33 | HeaderUtil.BumpSaltIntendedChangesSalt |
| pagecache/logger.h:25 | the masked value itself is cast to a pointer (missing `&`), so bytes [12,20) come from an arbitrary address | stray bytes all zero: a header for LSN 100 with stable LSN 90 reads back stable LSN `0x7FFF_FFFF_FFFF_FFFF` | copy the 8 bytes of the masked highest stable LSN, as line 22 does for the LSN | high, not executed | Logger.AsWrittenCounterexample | Logger.ReadEncoded |
| pagecache/iobuf.h:88 | the bound check `at + len <= buf_len` leaves out `base_` | base 8192 in an 8192-byte buffer, `at = 0`, `len = 8192`: the check passes, and the view covers bytes [8192, 16384) of an 8192-byte block | `base_ + at + len <= buf_len` | medium, not executed | IoBuffer.RangeCheckAsWrittenOverruns | IoBuffer.RangeCheckIsSafe |

Where the code as written and its correction differ inside a larger operation, both are modelled side by side:

- `IoBuffer.IoBuf.StoreSegmentHeader` is the store as written, with `Logger.ToCharAsWritten` and `HeaderUtil.BumpSalt`; `IoBuffer.IoBuf.StoreSegmentHeaderIntended` is the corrected store, with `Logger.ToChar` and `HeaderUtil.BumpSaltIntended`; `IoBuffer.SegmentStartHeaderCounterexample` shows an input where their header words differ.
- `IoBuffer.IoBuf.GetMutRange` asserts the check as written; `IoBuffer.RangeCheck` is the corrected check and `IoBuffer.RangeCheckIsSafe` proves it keeps the view inside the block.
