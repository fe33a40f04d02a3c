/** The CRC-32 behind `crc32_buf` (util/pcrc.h).  The source calls zlib's
    `crc32`, the reflected CRC-32 of ISO-HDLC / IEEE 802.3 (polynomial
    0x04C11DB7, processed least significant bit first as 0xEDB88320, register
    preset to all ones, result inverted).  zlib computes it with tables; the
    model states the same function one bit at a time. */
module Crc {

  /** The reflected generator polynomial. */
  const POLY: bv32 := 0xEDB8_8320

  /** One bit of polynomial division: shift out the low bit, and subtract
      the polynomial when that bit was set. */
  function CrcBit(c: bv32): bv32
  {
    if c & 1 == 1 then (c >> 1) ^ POLY else c >> 1
  }

  /** One byte, fed in at the low end of the register. */
  function CrcByte(c: bv32, b: bv8): bv32
  {
    var x := c ^ (b as bv32);
    CrcBit(CrcBit(CrcBit(CrcBit(CrcBit(CrcBit(CrcBit(CrcBit(x))))))))
  }

  /** The register after feeding `s`, first byte first. */
  function Register(c: bv32, s: seq<bv8>): bv32
    decreases |s|
  {
    if s == [] then c else Register(CrcByte(c, s[0]), s[1..])
  }

  /** zlib's `crc32(crc, buf, len)`: continue the CRC `crc` over `buf`. */
  function Crc32(crc: bv32, s: seq<bv8>): bv32
  {
    !Register(!crc, s)
  }

  /** `crc32_buf`: the CRC from zero, inverted once more, which leaves the
      raw register. */
  function Crc32Buf(s: seq<bv8>): bv32
  {
    Crc32(0, s) ^ 0xFFFF_FFFF
  }

  /** Feeding two pieces one after the other is feeding their
      concatenation. */
  lemma {:induction false} RegisterAppend(c: bv32, a: seq<bv8>, b: seq<bv8>)
    ensures Register(c, a + b) == Register(Register(c, a), b)
    decreases |a|
  {
    if a == [] {
      assert a + b == b;
    } else {
      assert (a + b)[1..] == a[1..] + b;
      RegisterAppend(CrcByte(c, a[0]), a[1..], b);
    }
  }

  /** An empty buffer leaves the CRC alone. */
  lemma Crc32Empty(crc: bv32)
    ensures Crc32(crc, []) == crc
  {
  }

  /** `crc32_buf` is the register preset to all ones and fed the buffer. */
  lemma Crc32BufIsRegister(s: seq<bv8>)
    ensures Crc32Buf(s) == Register(0xFFFF_FFFF, s)
    ensures Crc32Buf([]) == 0xFFFF_FFFF
  {
  }

  /** `crc32_buf` streams: the value for `a + b` is the value for `a` fed
      the bytes of `b`. */
  lemma Crc32BufStreams(a: seq<bv8>, b: seq<bv8>)
    ensures Crc32Buf(a + b) == Register(Crc32Buf(a), b)
  {
    Crc32BufIsRegister(a);
    Crc32BufIsRegister(a + b);
    RegisterAppend(0xFFFF_FFFF, a, b);
  }

  /** The standard check value: the CRC-32 of the ASCII digits "123456789"
      is 0xCBF43926. */
  lemma CheckValue()
    ensures Crc32(0, [0x31, 0x32, 0x33, 0x34, 0x35, 0x36, 0x37, 0x38, 0x39]) == 0xCBF4_3926
  {
    var s: seq<bv8> := [0x31, 0x32, 0x33, 0x34, 0x35, 0x36, 0x37, 0x38, 0x39];
    var c1 := CrcByte(0xFFFF_FFFF, 0x31);
    var c2 := CrcByte(c1, 0x32);
    var c3 := CrcByte(c2, 0x33);
    var c4 := CrcByte(c3, 0x34);
    var c5 := CrcByte(c4, 0x35);
    var c6 := CrcByte(c5, 0x36);
    var c7 := CrcByte(c6, 0x37);
    var c8 := CrcByte(c7, 0x38);
    var c9 := CrcByte(c8, 0x39);
    assert Register(0xFFFF_FFFF, s) == Register(c1, s[1..]);
    assert Register(c1, s[1..]) == Register(c2, s[2..]);
    assert Register(c2, s[2..]) == Register(c3, s[3..]);
    assert Register(c3, s[3..]) == Register(c4, s[4..]);
    assert Register(c4, s[4..]) == Register(c5, s[5..]);
    assert Register(c5, s[5..]) == Register(c6, s[6..]);
    assert Register(c6, s[6..]) == Register(c7, s[7..]);
    assert Register(c7, s[7..]) == Register(c8, s[8..]);
    assert Register(c8, s[8..]) == Register(c9, s[9..]);
    assert s[9..] == [];
    assert c9 == 0x340B_C6D9;
  }
}
