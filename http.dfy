/**
 * `src/http.rs`: the legacy 10-byte colour message of the WebSocket handler.
 * Decoding reads five little-endian `u16` values (a save flag, then cold,
 * warm, x, y); encoding writes a zero byte, the flag as one byte, and the
 * four fields big-endian. The two directions therefore do not invert each
 * other: the flag survives, but every field comes back with its two bytes
 * swapped.
 */
module Http {
  import opened Bytes

  const MESSAGE_LEN: nat := 10

  datatype InputMessage = InputMessage(save: bool, cold: u16, warm: u16, x: u16, y: u16)

  /** `From<&[u8; 10]>`: total on every 10-byte message. */
  function FromBytes(b: seq<u8>): (m: InputMessage)
    requires |b| == MESSAGE_LEN
    ensures m.save <==> b[0] != 0 || b[1] != 0
  {
    InputMessage(FromLe16(b[0..2]) != 0, FromLe16(b[2..4]), FromLe16(b[4..6]), FromLe16(b[6..8]), FromLe16(b[8..10]))
  }

  /** `Into<[u8; 10]>`. */
  function IntoBytes(m: InputMessage): (b: seq<u8>)
    ensures |b| == MESSAGE_LEN
    ensures b[0] == 0 && b[1] == (if m.save then 1 else 0)
  {
    [0, if m.save then 1 else 0] + BeBytes16(m.cold) + BeBytes16(m.warm) + BeBytes16(m.x) + BeBytes16(m.y)
  }

  /** A `u16` with its two bytes exchanged (`u16::swap_bytes`). */
  function Swap16(v: u16): u16 {
    (v % 0x100) * 0x100 + v / 0x100
  }

  /** Swapping twice gives the value back. */
  lemma {:induction false} Swap16Involutive(v: u16)
    ensures Swap16(Swap16(v)) == v
  {
    var lo := v % 0x100;
    var hi := v / 0x100;
    assert Swap16(v) == lo * 0x100 + hi;
    assert (lo * 0x100 + hi) % 0x100 == hi && (lo * 0x100 + hi) / 0x100 == lo;
  }

  /** A field written big-endian and read little-endian comes back swapped. */
  lemma {:induction false} BigEndianReadLittle(v: u16)
    ensures FromLe16(BeBytes16(v)) == Swap16(v)
  {
  }

  /**
   * Decoding an encoded message keeps the save flag and swaps the two bytes
   * of every field.
   */
  lemma {:induction false} FromIntoSwaps(m: InputMessage)
    ensures FromBytes(IntoBytes(m))
            == InputMessage(m.save, Swap16(m.cold), Swap16(m.warm), Swap16(m.x), Swap16(m.y))
  {
    var b := IntoBytes(m);
    assert b[2..4] == [b[2], b[3]] && b[4..6] == [b[4], b[5]];
    assert b[6..8] == [b[6], b[7]] && b[8..10] == [b[8], b[9]];
    assert b[2..4] == BeBytes16(m.cold);
    assert b[4..6] == BeBytes16(m.warm);
    assert b[6..8] == BeBytes16(m.x);
    assert b[8..10] == BeBytes16(m.y);
    BigEndianReadLittle(m.cold);
    BigEndianReadLittle(m.warm);
    BigEndianReadLittle(m.x);
    BigEndianReadLittle(m.y);
  }

  /** The encoding round-trips exactly for messages whose fields read the same either way round. */
  lemma {:induction false} RoundTripIff(m: InputMessage)
    ensures FromBytes(IntoBytes(m)) == m
            <==> Swap16(m.cold) == m.cold && Swap16(m.warm) == m.warm && Swap16(m.x) == m.x && Swap16(m.y) == m.y
  {
    FromIntoSwaps(m);
  }

  /** So it is not a round trip: a message with `cold == 1` comes back with `cold == 0x100`. */
  lemma NotARoundTrip()
    ensures var m := InputMessage(false, 1, 0, 0, 0);
            FromBytes(IntoBytes(m)).cold == 0x100 != m.cold
  {
    FromIntoSwaps(InputMessage(false, 1, 0, 0, 0));
  }
}
