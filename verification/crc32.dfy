/**
 * CRC-32 with the IEEE polynomial in reflected form (0xEDB88320), as
 * computed by Go's `crc32.ChecksumIEEE`: the register starts as all ones,
 * the data is fed in least significant bit first, and the result is the
 * register inverted.
 */
module Crc32 {
  import opened Bytes

  const Polynomial: bv32 := 0xEDB8_8320

  /**
   * Feeds the low `n` bits of `b` into the register, one bit per round: the
   * register shifts right and takes the polynomial in whenever the bit that
   * falls out differs from the data bit (the mask `0 - feedback` is all ones
   * exactly then). Eight rounds are the same as xor-ing the byte into the
   * register and shifting eight times.
   */
  function Shift(c: bv32, b: nat, n: nat): bv32
    decreases n
  {
    if n == 0 then c
    else
      var feedback: bv32 := (c & 1) ^ (if b % 2 == 1 then 1 else 0);
      Shift((c >> 1) ^ ((0 - feedback) & Polynomial), b / 2, n - 1)
  }

  /** The register after feeding in `data`, starting from all ones. */
  function Register(data: seq<byte>): bv32
    decreases |data|
  {
    if data == [] then 0xFFFF_FFFF
    else Shift(Register(data[..|data| - 1]), data[|data| - 1], 8)
  }

  /** The checksum stored in a record header; the empty payload sums to zero. */
  function ChecksumIEEE(data: seq<byte>): (r: u32)
    ensures data == [] ==> r == 0
  {
    (!Register(data)) as int
  }

  /**
   * The standard check value of CRC-32/IEEE, the checksum of the ASCII
   * digits "123456789", worked out one byte at a time.
   */
  lemma CheckValue()
    ensures ChecksumIEEE([0x31, 0x32, 0x33, 0x34, 0x35, 0x36, 0x37, 0x38, 0x39]) == 0xCBF4_3926
  {
    assert [0x31][..0] == [];
    assert Register([0x31]) == 0x7C23_1048;
    assert [0x31, 0x32][..1] == [0x31];
    assert Register([0x31, 0x32]) == 0xB0AC_BB32;
    assert [0x31, 0x32, 0x33][..2] == [0x31, 0x32];
    assert Register([0x31, 0x32, 0x33]) == 0x77B7_9C2D;
    assert [0x31, 0x32, 0x33, 0x34][..3] == [0x31, 0x32, 0x33];
    assert Register([0x31, 0x32, 0x33, 0x34]) == 0x641C_1F5C;
    assert [0x31, 0x32, 0x33, 0x34, 0x35][..4] == [0x31, 0x32, 0x33, 0x34];
    assert Register([0x31, 0x32, 0x33, 0x34, 0x35]) == 0x340A_C5E3;
    assert [0x31, 0x32, 0x33, 0x34, 0x35, 0x36][..5] == [0x31, 0x32, 0x33, 0x34, 0x35];
    assert Register([0x31, 0x32, 0x33, 0x34, 0x35, 0x36]) == 0xF68D_2C9E;
    assert [0x31, 0x32, 0x33, 0x34, 0x35, 0x36, 0x37][..6] == [0x31, 0x32, 0x33, 0x34, 0x35, 0x36];
    assert Register([0x31, 0x32, 0x33, 0x34, 0x35, 0x36, 0x37]) == 0xAFFC_9660;
    assert [0x31, 0x32, 0x33, 0x34, 0x35, 0x36, 0x37, 0x38][..7] == [0x31, 0x32, 0x33, 0x34, 0x35, 0x36, 0x37];
    assert Register([0x31, 0x32, 0x33, 0x34, 0x35, 0x36, 0x37, 0x38]) == 0x651F_2550;
    assert [0x31, 0x32, 0x33, 0x34, 0x35, 0x36, 0x37, 0x38, 0x39][..8] == [0x31, 0x32, 0x33, 0x34, 0x35, 0x36, 0x37, 0x38];
    assert Register([0x31, 0x32, 0x33, 0x34, 0x35, 0x36, 0x37, 0x38, 0x39]) == 0x340B_C6D9;
  }
}
