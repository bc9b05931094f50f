/**
 * The presets the known-answer checks of the library are stated for, and
 * the 4-bit CRC its sensor driver uses. Each is a valid parameter set to
 * which the continuation property applies.
 */
module Presets {
  import opened Bits
  import opened CrcParameters
  import opened Continuation

  /** `CRC::CRC_4_ITU()`: `Parameters<crcpp_uint8, 4>` */
  function Crc4Itu(): (p: Parameters)
    ensures p.Valid() && Resumable(p)
  {
    Parameters(U8, 4, 0x3, 0x0, 0x0, true, true)
  }

  /** `CRC::CRC_8()`: `Parameters<crcpp_uint8, 8>` */
  function Crc8(): (p: Parameters)
    ensures p.Valid() && Resumable(p)
  {
    Parameters(U8, 8, 0x07, 0x00, 0x00, false, false)
  }

  /** `CRC::CRC_16_ARC()`: `Parameters<crcpp_uint16, 16>` */
  function Crc16Arc(): (p: Parameters)
    ensures p.Valid() && Resumable(p)
  {
    Pow2Words();
    Parameters(U16, 16, 0x8005, 0x0000, 0x0000, true, true)
  }

  /** `CRC::CRC_32()`: `Parameters<crcpp_uint32, 32>` */
  function Crc32(): (p: Parameters)
    ensures p.Valid() && Resumable(p)
  {
    Pow2Words();
    Parameters(U32, 32, 0x04C11DB7, 0xFFFFFFFF, 0xFFFFFFFF, true, true)
  }

  /** The bounds of `crcpp_uint16` and `crcpp_uint32`. */
  lemma Pow2Words()
    ensures Pow2(16) == 0x1_0000 && Pow2(32) == 0x1_0000_0000
  {
    assert Pow2(8) == 0x100;
    Pow2Sum(8, 8);
    Pow2Sum(16, 16);
  }
}
