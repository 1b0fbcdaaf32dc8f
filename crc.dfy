/**
 * The vendor CRC-32 of `src/ota/crc.rs`: `esp_crc32` complements each of its
 * four input bytes, runs a CRC engine configured by the `CRC_32_ESP`
 * parameter set over them, and complements the engine's output.
 *
 * The engine is written bit by bit from its parameters, in the textbook
 * parameterised form: the register starts at `init`; each input byte, bit
 * reversed when `refin` holds, is XORed into the top byte of the register,
 * which is then shifted left eight times, XORing in `poly` whenever a one is
 * shifted out; at the end the register is bit reversed when `refout` holds
 * and XORed with `xorout`.
 */
module Crc {
  import opened Bytes

  /** The `crc` crate's `Algorithm<u32>` parameter record. */
  datatype Algorithm = Algorithm(
    width: nat, poly: bv32, init: bv32, refin: bool, refout: bool,
    xorout: bv32, check: bv32, residue: bv32)

  /** The parameter set `esp_crc32` hands to the engine. */
  const CRC_32_ESP: Algorithm := Algorithm(
    width := 32, poly := 0x04c1_1db7, init := 0xFFFF_FFFF, refin := true, refout := true,
    xorout := 0, check := 0, residue := 0)

  /**
   * The standard CRC-32 of IEEE 802.3 (clause 3.2.9): the same engine with
   * final XOR 0xFFFFFFFF; its check value is that of the ASCII bytes "123456789".
   */
  const CRC_32_IEEE: Algorithm := Algorithm(
    width := 32, poly := 0x04c1_1db7, init := 0xFFFF_FFFF, refin := true, refout := true,
    xorout := 0xFFFF_FFFF, check := 0xcbf4_3926, residue := 0xdebb_20e3)

  /** A byte as the low eight bits of a 32-bit register. */
  function Bits(b: u8): (r: bv32)
    ensures r < 0x100
  {
    (b as bv8) as bv32
  }

  /** The low eight bits of `b` in reverse order. */
  function Reflect8(b: bv32): (r: bv32)
    ensures r < 0x100
  {
    ((b & 0x01) << 7) | ((b & 0x02) << 5) | ((b & 0x04) << 3) | ((b & 0x08) << 1) |
    ((b & 0x10) >> 1) | ((b & 0x20) >> 3) | ((b & 0x40) >> 5) | ((b & 0x80) >> 7)
  }

  /** The 32 bits of `x` in reverse order. */
  function Reflect32(x: bv32): bv32 {
    (Reflect8(x & 0xFF) << 24) | (Reflect8((x >> 8) & 0xFF) << 16) |
    (Reflect8((x >> 16) & 0xFF) << 8) | Reflect8(x >> 24)
  }

  /**
   * One shift of the register: a one shifted out of bit 31 brings in the
   * polynomial. `0 - (reg >> 31)` is all ones when bit 31 is set and zero
   * otherwise, so the polynomial is masked in exactly then.
   */
  function Step(poly: bv32, reg: bv32): bv32 {
    (reg << 1) ^ (poly & (0 - (reg >> 31)))
  }

  /** `n` shifts of the register. */
  function Shift(poly: bv32, reg: bv32, n: nat): bv32
    decreases n
  {
    if n == 0 then reg else Shift(poly, Step(poly, reg), n - 1)
  }

  /** The byte as it enters the register: bit reversed when the input is reflected. */
  function Input(refin: bool, b: u8): (r: bv32)
    ensures r < 0x100
  {
    if refin then Reflect8(Bits(b)) else Bits(b)
  }

  /** Feeding one byte: XOR it into the top byte, then shift eight times. */
  function FeedByte(poly: bv32, refin: bool, reg: bv32, b: u8): bv32 {
    Shift(poly, reg ^ (Input(refin, b) << 24), 8)
  }

  /**
   * Feeding a message, first byte first. Only the polynomial and the input
   * reflection take part; the output parameters act after the last byte.
   */
  function Feed(poly: bv32, refin: bool, reg: bv32, data: seq<u8>): bv32
    decreases |data|
  {
    if data == [] then reg else Feed(poly, refin, FeedByte(poly, refin, reg, data[0]), data[1..])
  }

  /** The engine's `checksum` over a whole message. */
  function Checksum(alg: Algorithm, data: seq<u8>): bv32
    requires alg.width == 32
  {
    var reg := Feed(alg.poly, alg.refin, alg.init, data);
    (if alg.refout then Reflect32(reg) else reg) ^ alg.xorout
  }

  /** Every byte bitwise complemented (`!byte`). */
  function Complement(bytes: seq<u8>): (r: seq<u8>)
    ensures |r| == |bytes|
    ensures forall i :: 0 <= i < |bytes| ==> r[i] as int + bytes[i] as int == 0xFF
  {
    seq(|bytes|, i requires 0 <= i < |bytes| => 0xFF - bytes[i])
  }

  /** The last step of `esp_crc32`: the engine's output over the buffer, complemented. */
  function ComplementedChecksum(buffer: seq<u8>): u32 {
    (!Checksum(CRC_32_ESP, buffer)) as int
  }

  /** `esp_crc32`: the complemented engine output over the complemented bytes. */
  function EspCrc(bytes: seq<u8>): u32
    requires |bytes| == 4
  {
    ComplementedChecksum(Complement(bytes))
  }

  /**
   * `esp_crc32` as the source runs it: the four input bytes are complemented
   * one by one into a fresh buffer, the engine runs over the buffer, and its
   * output is complemented. The input array is only read.
   */
  method EspCrc32(bytes: array<u8>) returns (r: u32)
    requires bytes.Length == 4
    ensures r == EspCrc(bytes[..])
  {
    var buffer := new u8[4](_ => 0);
    for i := 0 to 4
      invariant buffer[..i] == Complement(bytes[..i])
    {
      buffer[i] := 0xFF - bytes[i];
      assert buffer[..i + 1] == buffer[..i] + [buffer[i]];
      assert bytes[..i + 1] == bytes[..i] + [bytes[i]];
    }
    assert buffer[..] == Complement(bytes[..]) by {
      assert buffer[..] == buffer[..4];
      assert bytes[..] == bytes[..4];
    }
    r := ComplementedChecksum(buffer[..]);
  }

  // ---------------------------------------------------------------------------
  // The trailing complement is the usual final XOR.

  /** `esp_crc32(b)` is the standard CRC-32 of the complemented bytes. */
  lemma EspCrcIsStandardCrc32(bytes: seq<u8>)
    requires |bytes| == 4
    ensures EspCrc(bytes) == Checksum(CRC_32_IEEE, Complement(bytes)) as int
  {
    var reg := Reflect32(Feed(0x04c1_1db7, true, 0xFFFF_FFFF, Complement(bytes)));
    assert !(reg ^ 0) == reg ^ 0xFFFF_FFFF;
  }

  // ---------------------------------------------------------------------------
  // The engine against the published check value.

  /**
   * The engine with the standard parameters gives the check value the
   * parameter record carries, 0xCBF43926, on the ASCII bytes "123456789".
   * Each line is the register after one more byte.
   */
  lemma CheckValue()
    ensures Checksum(CRC_32_IEEE, [0x31, 0x32, 0x33, 0x34, 0x35, 0x36, 0x37, 0x38, 0x39]) == CRC_32_IEEE.check
  {
    var p := CRC_32_IEEE.poly;
    assert FeedByte(p, true, 0xFFFF_FFFF, 0x31) == 0x1208_c43e;
    assert FeedByte(p, true, 0x1208_c43e, 0x32) == 0x4cdd_350d;
    assert FeedByte(p, true, 0x4cdd_350d, 0x33) == 0xb439_edee;
    assert FeedByte(p, true, 0xb439_edee, 0x34) == 0x3af8_3826;
    assert FeedByte(p, true, 0x3af8_3826, 0x35) == 0xc7a3_502c;
    assert FeedByte(p, true, 0xc7a3_502c, 0x36) == 0x7934_b16f;
    assert FeedByte(p, true, 0x7934_b16f, 0x37) == 0x0669_3ff5;
    assert FeedByte(p, true, 0x0669_3ff5, 0x38) == 0x0aa4_f8a6;
    assert FeedByte(p, true, 0x0aa4_f8a6, 0x39) == 0x9b63_d02c;
  }
}
