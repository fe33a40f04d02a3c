/** Host (little-endian) byte images of fixed-width integers, as produced by
    `memcpy` from the address of a `uint64_t` or `uint32_t` on the x86-64 and
    AArch64 targets the engine is built for. */
module Bytes {

  /** The eight bytes of `x`, least significant first. */
  function LE64(x: bv64): (r: seq<bv8>)
    ensures |r| == 8
  {
    [ (x & 0xFF) as bv8, ((x >> 8) & 0xFF) as bv8,
      ((x >> 16) & 0xFF) as bv8, ((x >> 24) & 0xFF) as bv8,
      ((x >> 32) & 0xFF) as bv8, ((x >> 40) & 0xFF) as bv8,
      ((x >> 48) & 0xFF) as bv8, ((x >> 56) & 0xFF) as bv8 ]
  }

  /** Reads back a little-endian 64-bit value. */
  function ReadLE64(b: seq<bv8>): bv64
    requires |b| == 8
  {
    (b[0] as bv64) | (b[1] as bv64 << 8) | (b[2] as bv64 << 16) | (b[3] as bv64 << 24)
    | (b[4] as bv64 << 32) | (b[5] as bv64 << 40) | (b[6] as bv64 << 48) | (b[7] as bv64 << 56)
  }

  /** The four bytes of `x`, least significant first. */
  function LE32(x: bv32): (r: seq<bv8>)
    ensures |r| == 4
  {
    [ (x & 0xFF) as bv8, ((x >> 8) & 0xFF) as bv8,
      ((x >> 16) & 0xFF) as bv8, ((x >> 24) & 0xFF) as bv8 ]
  }

  function ReadLE32(b: seq<bv8>): bv32
    requires |b| == 4
  {
    (b[0] as bv32) | (b[1] as bv32 << 8) | (b[2] as bv32 << 16) | (b[3] as bv32 << 24)
  }

  /** Reading the image of a value gives the value back. */
  lemma ReadLE64Inverse(x: bv64)
    ensures ReadLE64(LE64(x)) == x
  {
  }

  lemma ReadLE32Inverse(x: bv32)
    ensures ReadLE32(LE32(x)) == x
  {
  }

  /** The byte image is all zero only for the value zero. */
  lemma LE64ZeroOnlyForZero(x: bv64)
    ensures LE64(x) == [0, 0, 0, 0, 0, 0, 0, 0] <==> x == 0
  {
    if LE64(x) == [0, 0, 0, 0, 0, 0, 0, 0] {
      ReadLE64Inverse(x);
    }
  }

  /** `memcpy(dst + at, src, |src|)`: the bytes of `src` replace
      `dst[at .. at + |src|)` and nothing else changes. */
  method Memcpy(dst: array<bv8>, at: nat, src: seq<bv8>)
    requires at + |src| <= dst.Length
    modifies dst
    ensures dst[..] == old(dst[..at]) + src + old(dst[at + |src|..])
  {
    forall i | 0 <= i < |src| {
      dst[at + i] := src[i];
    }
    assert dst[..] == old(dst[..at]) + src + old(dst[at + |src|..]);
  }
}
