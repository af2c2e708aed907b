/** CRC-32 of ISO 3309 and ITU-T V.42, the checksum of zlib's `crc32` and of
    section 8 of RFC 1952: reflected polynomial 0xEDB88320, register preset to
    all ones, result complemented. Written bit by bit; the table-driven form of
    RFC 1952 computes the same register one byte at a time. */
module Crc32 {
  import opened Text

  const Polynomial: bv32 := 0xEDB8_8320

  /** One step of the reflected register with one input bit: the register's
      low bit together with the input bit decides whether the polynomial is
      added after the shift. */
  function Step(r: bv32, bit: bool): bv32
  {
    if (r & 1 == 1) != bit then (r >> 1) ^ Polynomial else r >> 1
  }

  /** The low k bits of b enter the register, least significant first. */
  function StepBits(r: bv32, b: nat, k: nat): bv32
    decreases k
  {
    if k == 0 then r else StepBits(Step(r, b % 2 == 1), b / 2, k - 1)
  }

  /** The register after one more byte. This is the usual "xor the byte into
      the low bits, then shift eight times": input bit k meets the register's
      low bit at the k-th shift either way. */
  function Feed(r: bv32, b: byte): bv32
  {
    StepBits(r, b as int, 8)
  }

  function Register(r: bv32, bs: seq<byte>): bv32
    decreases |bs|
  {
    if |bs| == 0 then r else Register(Feed(r, bs[0]), bs[1..])
  }

  /** zlib.crc32(bs) with the default start value: an unsigned 32-bit number. */
  function Checksum(bs: seq<byte>): (c: nat)
    ensures c < 0x1_0000_0000
  {
    (Register(0xFFFF_FFFF, bs) ^ 0xFFFF_FFFF) as nat
  }

  /** The standard check value of CRC-32: the nine ASCII digits "123456789"
      give 0xCBF43926, as zlib.crc32(b"123456789") does. Each step is the
      register after one more byte. */
  lemma CheckValue()
    ensures Checksum([0x31, 0x32, 0x33, 0x34, 0x35, 0x36, 0x37, 0x38, 0x39]) == 0xCBF4_3926
  {
    assert Feed(0xFFFF_FFFF, 0x31) == 0x7C23_1048;
    assert Feed(0x7C23_1048, 0x32) == 0xB0AC_BB32;
    assert Feed(0xB0AC_BB32, 0x33) == 0x77B7_9C2D;
    assert Feed(0x77B7_9C2D, 0x34) == 0x641C_1F5C;
    assert Feed(0x641C_1F5C, 0x35) == 0x340A_C5E3;
    assert Feed(0x340A_C5E3, 0x36) == 0xF68D_2C9E;
    assert Feed(0xF68D_2C9E, 0x37) == 0xAFFC_9660;
    assert Feed(0xAFFC_9660, 0x38) == 0x651F_2550;
    assert Feed(0x651F_2550, 0x39) == 0x340B_C6D9;
  }
}
