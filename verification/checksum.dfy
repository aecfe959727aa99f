/** CRC-32 as computed by zlib's `crc32` (ISO-HDLC CRC-32 of ISO/IEC 3309 and
    ITU-T V.42): reflected polynomial 0xEDB88320, initial value and final
    exclusive-or 0xFFFFFFFF, one bit at a time. */
module Checksum {
  import opened Bytes

  const Polynomial: bv32 := 0xEDB8_8320

  /** One bit step of the reflected shift register. */
  function Shift(c: bv32): bv32 {
    if c & 1 == 1 then (c >> 1) ^ Polynomial else c >> 1
  }

  /** `k` bit steps. */
  function Rounds(c: bv32, k: nat): bv32
    decreases k
  {
    if k == 0 then c else Rounds(Shift(c), k - 1)
  }

  /** The register after absorbing one byte: eight bit steps. */
  function AbsorbByte(c: bv32, b: byte): bv32 {
    Rounds(c ^ (b as bv32), 8)
  }

  /** The register after absorbing `data`, first byte first. */
  function Absorb(c: bv32, data: seq<byte>): bv32
    decreases |data|
  {
    if |data| == 0 then c else Absorb(AbsorbByte(c, data[0]), data[1..])
  }

  /** `crc32(data) & 0xFFFFFFFF`: the checksum as an unsigned 32-bit value. */
  function Crc32(data: seq<byte>): u32 {
    (Absorb(0xFFFF_FFFF, data) ^ 0xFFFF_FFFF) as int
  }

  /** The standard check value of this CRC: the checksum of the nine ASCII
      bytes "123456789" is 0xCBF43926, so `Crc32` is the zlib CRC-32 and not
      some other 32-bit CRC. The steps are the register after each byte. */
  lemma Crc32CheckValue()
    ensures Crc32([0x31, 0x32, 0x33, 0x34, 0x35, 0x36, 0x37, 0x38, 0x39]) == 0xCBF4_3926
  {
    assert AbsorbByte(0xFFFF_FFFF, 0x31) == 0x7c231048;
    assert AbsorbByte(0x7c231048, 0x32) == 0xb0acbb32;
    assert AbsorbByte(0xb0acbb32, 0x33) == 0x77b79c2d;
    assert AbsorbByte(0x77b79c2d, 0x34) == 0x641c1f5c;
    assert AbsorbByte(0x641c1f5c, 0x35) == 0x340ac5e3;
    assert AbsorbByte(0x340ac5e3, 0x36) == 0xf68d2c9e;
    assert AbsorbByte(0xf68d2c9e, 0x37) == 0xaffc9660;
    assert AbsorbByte(0xaffc9660, 0x38) == 0x651f2550;
    assert AbsorbByte(0x651f2550, 0x39) == 0x340bc6d9;
    assert Absorb(0x651f2550, [0x39]) == 0x340bc6d9;
    assert Absorb(0xaffc9660, [0x38, 0x39]) == 0x340bc6d9;
    assert Absorb(0xf68d2c9e, [0x37, 0x38, 0x39]) == 0x340bc6d9;
    assert Absorb(0x340ac5e3, [0x36, 0x37, 0x38, 0x39]) == 0x340bc6d9;
    assert Absorb(0x641c1f5c, [0x35, 0x36, 0x37, 0x38, 0x39]) == 0x340bc6d9;
    assert Absorb(0x77b79c2d, [0x34, 0x35, 0x36, 0x37, 0x38, 0x39]) == 0x340bc6d9;
    assert Absorb(0xb0acbb32, [0x33, 0x34, 0x35, 0x36, 0x37, 0x38, 0x39]) == 0x340bc6d9;
    assert Absorb(0x7c231048, [0x32, 0x33, 0x34, 0x35, 0x36, 0x37, 0x38, 0x39]) == 0x340bc6d9;
    assert Absorb(0xFFFF_FFFF, [0x31, 0x32, 0x33, 0x34, 0x35, 0x36, 0x37, 0x38, 0x39]) == 0x340bc6d9;
  }
}
