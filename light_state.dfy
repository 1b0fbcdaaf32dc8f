/**
 * `src/light_state.rs`: the light's colour setting and its 8-byte storage
 * layout, the four fields as little-endian `u16` values in the order cold,
 * warm, x, y.
 */
module LightStates {
  import opened Bytes

  const LIGHT_STATE_LEN: nat := 8

  datatype LightState = LightState(cold: u16, warm: u16, x: u16, y: u16)

  /** `LightState::default()`, used when the flash holds no setting yet. */
  const DEFAULT: LightState := LightState(16000, 16000, 197, 164)

  /**
   * `from_bytes`: total on every 8-byte buffer. Each field is the value whose
   * little-endian encoding is its two bytes.
   */
  function FromBytes(b: seq<u8>): (s: LightState)
    requires |b| == LIGHT_STATE_LEN
    ensures LeBytes16(s.cold) == b[0..2] && LeBytes16(s.warm) == b[2..4]
    ensures LeBytes16(s.x) == b[4..6] && LeBytes16(s.y) == b[6..8]
  {
    Le16Inverse(b[0..2]);
    Le16Inverse(b[2..4]);
    Le16Inverse(b[4..6]);
    Le16Inverse(b[6..8]);
    LightState(FromLe16(b[0..2]), FromLe16(b[2..4]), FromLe16(b[4..6]), FromLe16(b[6..8]))
  }

  /** `into_bytes`. */
  function IntoBytes(s: LightState): (b: seq<u8>)
    ensures |b| == LIGHT_STATE_LEN
  {
    LeBytes16(s.cold) + LeBytes16(s.warm) + LeBytes16(s.x) + LeBytes16(s.y)
  }

  /** Each field is stored at its own two bytes, least significant byte first. */
  lemma {:induction false} IntoBytesLayout(s: LightState)
    ensures var b := IntoBytes(s);
            FromLe16(b[0..2]) == s.cold && FromLe16(b[2..4]) == s.warm
            && FromLe16(b[4..6]) == s.x && FromLe16(b[6..8]) == s.y
  {
    var b := IntoBytes(s);
    assert b[0..2] == LeBytes16(s.cold);
    assert b[2..4] == LeBytes16(s.warm);
    assert b[4..6] == LeBytes16(s.x);
    assert b[6..8] == LeBytes16(s.y);
    Le16RoundTrip(s.cold);
    Le16RoundTrip(s.warm);
    Le16RoundTrip(s.x);
    Le16RoundTrip(s.y);
  }

  /** Decoding what was encoded gives the state back. */
  lemma {:induction false} FromIntoBytes(s: LightState)
    ensures FromBytes(IntoBytes(s)) == s
  {
    IntoBytesLayout(s);
  }

  /** Encoding what was decoded gives the bytes back: every 8-byte buffer is some state's encoding. */
  lemma {:induction false} IntoFromBytes(b: seq<u8>)
    requires |b| == LIGHT_STATE_LEN
    ensures IntoBytes(FromBytes(b)) == b
  {
    assert b == b[0..2] + b[2..4] + b[4..6] + b[6..8];
  }
}
