/**
 * Fixed-width unsigned integers and their little- and big-endian byte layouts
 * (Rust's `u16::from_le_bytes`, `u32::to_le_bytes`, `u16::to_be_bytes`, ...).
 */
module Bytes {

  type u8 = x: int | 0 <= x < 0x100
  type u16 = x: int | 0 <= x < 0x1_0000
  type u32 = x: int | 0 <= x < 0x1_0000_0000

  const U32_MAX: u32 := 0xFFFF_FFFF

  /** `v.to_le_bytes()` for a `u16`. */
  function LeBytes16(v: u16): (r: seq<u8>)
    ensures |r| == 2
  {
    [v % 0x100, v / 0x100]
  }

  /** `v.to_be_bytes()` for a `u16`: the same two bytes, most significant first. */
  function BeBytes16(v: u16): (r: seq<u8>)
    ensures r == [LeBytes16(v)[1], LeBytes16(v)[0]]
  {
    [v / 0x100, v % 0x100]
  }

  /** `u16::from_le_bytes([b[0], b[1]])`. */
  function FromLe16(b: seq<u8>): u16
    requires |b| == 2
  {
    b[0] as int + 0x100 * (b[1] as int)
  }

  /** `v.to_le_bytes()` for a `u32`. */
  function LeBytes32(v: u32): (r: seq<u8>)
    ensures |r| == 4
  {
    [v % 0x100, (v / 0x100) % 0x100, (v / 0x1_0000) % 0x100, v / 0x100_0000]
  }

  /** `u32::from_le_bytes(b)`. */
  function FromLe32(b: seq<u8>): u32
    requires |b| == 4
  {
    b[0] as int + 0x100 * (b[1] as int + 0x100 * (b[2] as int + 0x100 * (b[3] as int)))
  }

  lemma Le16RoundTrip(v: u16)
    ensures FromLe16(LeBytes16(v)) == v
  {
  }

  lemma Le16Inverse(b: seq<u8>)
    requires |b| == 2
    ensures LeBytes16(FromLe16(b)) == b
  {
  }

  lemma Le32RoundTrip(v: u32)
    ensures FromLe32(LeBytes32(v)) == v
  {
  }

  lemma Le32Inverse(b: seq<u8>)
    requires |b| == 4
    ensures LeBytes32(FromLe32(b)) == b
  {
    var hi := b[2] as int + 0x100 * (b[3] as int);
    var mid := b[1] as int + 0x100 * hi;
    DivModByte(b[0], mid);
    DivModByte(b[1], hi);
    DivModByte(b[2], b[3]);
    assert FromLe32(b) / 0x1_0000 == hi by { DivTwice(FromLe32(b)); }
    assert FromLe32(b) / 0x100_0000 == b[3] by { DivThrice(FromLe32(b)); }
  }

  lemma DivModByte(lo: u8, rest: int)
    requires rest >= 0
    ensures (lo + 0x100 * rest) % 0x100 == lo && (lo + 0x100 * rest) / 0x100 == rest
  {
  }

  lemma DivTwice(v: nat)
    ensures v / 0x1_0000 == (v / 0x100) / 0x100
  {
  }

  lemma DivThrice(v: nat)
    ensures v / 0x100_0000 == ((v / 0x100) / 0x100) / 0x100
  {
  }
}
