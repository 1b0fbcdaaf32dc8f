/**
 * The 32-byte OTA descriptor of `src/ota/ota_data_structs.rs`, as the
 * bootloader keeps it in each of the two sectors of the OTA data partition:
 * bytes 0..4 the sequence number, 4..24 a label, 24..28 the state code and
 * 28..32 a checksum, every number little-endian. The checksum covers the
 * sequence number only.
 */
module OtaDataStructs {
  import opened Bytes
  import opened Wrappers
  import Crc

  /** The image states the bootloader knows. */
  datatype EspOTAState = New | PendingVerify | Valid | Invalid | Aborted | Undefined

  /** The state codes that decode; every other 32-bit value is rejected. */
  predicate IsStateCode(code: u32) {
    code <= 4 || code == U32_MAX
  }

  /** The weak conversion from a state code: an error for an unknown code. */
  function StateFromCode(code: u32): (r: Result<EspOTAState, ()>)
    ensures r.Ok? <==> IsStateCode(code)
  {
    match code
    case 0 => Ok(New)
    case 1 => Ok(PendingVerify)
    case 2 => Ok(Valid)
    case 3 => Ok(Invalid)
    case 4 => Ok(Aborted)
    case _ => if code == U32_MAX then Ok(Undefined) else Err(())
  }

  /** The state code written for a state; decoding it gives the state back. */
  function StateCode(state: EspOTAState): (code: u32)
    ensures IsStateCode(code)
    ensures StateFromCode(code) == Ok(state)
  {
    match state
    case New => 0
    case PendingVerify => 1
    case Valid => 2
    case Invalid => 3
    case Aborted => 4
    case Undefined => U32_MAX
  }

  /** Every code that decodes is the code of the state it decodes to. */
  lemma StateCodeInverse(code: u32)
    requires IsStateCode(code)
    ensures StateCode(StateFromCode(code).value) == code
  {
  }

  type Label = s: seq<u8> | |s| == 20 witness seq(20, _ => 0)

  /** One OTA descriptor. `otaSeq` and `otaLabel` are the source's `seq` and `label`. */
  datatype EspOTAData = EspOTAData(otaSeq: u32, otaLabel: Label, state: EspOTAState, crc: u32)

  /** The checksum the bootloader expects for a sequence number. */
  function SeqCrc(otaSeq: u32): u32 {
    Crc.EspCrc(LeBytes32(otaSeq))
  }

  /** A descriptor whose stored checksum matches its sequence number. */
  predicate Consistent(d: EspOTAData) {
    d.crc == SeqCrc(d.otaSeq)
  }

  /** `EspOTAData::new`: a descriptor for a freshly written image, state `New`. */
  function NewDescriptor(otaSeq: u32, otaLabel: Label): (d: EspOTAData)
    ensures Consistent(d) && d.state == New
    ensures d.otaSeq == otaSeq && d.otaLabel == otaLabel
  {
    EspOTAData(otaSeq, otaLabel, New, SeqCrc(otaSeq))
  }

  /**
   * The descriptor's 32 bytes. The checksum is computed afresh from the
   * sequence number; the one stored in `d` is not written.
   */
  function Encode(d: EspOTAData): (b: seq<u8>)
    ensures |b| == 32
  {
    LeBytes32(d.otaSeq) + d.otaLabel + LeBytes32(StateCode(d.state)) + LeBytes32(SeqCrc(d.otaSeq))
  }

  /** The state field of a 32-byte image holds a known code (decoding panics otherwise). */
  predicate KnownState(b: seq<u8>)
    requires |b| == 32
  {
    IsStateCode(FromLe32(b[24..28]))
  }

  /**
   * Parsing a descriptor: the fields are read as they lie, and the result is
   * an error exactly when the stored checksum is not that of the stored
   * sequence bytes. An unknown state code panics, so the caller must rule
   * it out.
   */
  function Decode(b: seq<u8>): (r: Result<EspOTAData, ()>)
    requires |b| == 32 && KnownState(b)
    ensures r.Ok? <==> FromLe32(b[28..32]) == Crc.EspCrc(b[0..4])
    ensures r.Ok? ==> Consistent(r.value)
  {
    var otaSeq := FromLe32(b[0..4]);
    var otaLabel := b[4..24];
    var state := StateFromCode(FromLe32(b[24..28])).value;
    var crc := FromLe32(b[28..32]);
    Le32Inverse(b[0..4]);
    if crc == SeqCrc(otaSeq) then Ok(EspOTAData(otaSeq, otaLabel, state, crc)) else Err(())
  }

  /**
   * Encoding then decoding gives the descriptor back, with its checksum
   * replaced by the correct one; a consistent descriptor comes back unchanged.
   */
  lemma DecodeEncode(d: EspOTAData)
    ensures KnownState(Encode(d))
    ensures Decode(Encode(d)) == Ok(d.(crc := SeqCrc(d.otaSeq)))
    ensures Consistent(d) ==> Decode(Encode(d)) == Ok(d)
  {
    var b := Encode(d);
    assert b[0..4] == LeBytes32(d.otaSeq);
    assert b[4..24] == d.otaLabel;
    assert b[24..28] == LeBytes32(StateCode(d.state));
    assert b[28..32] == LeBytes32(SeqCrc(d.otaSeq));
    Le32RoundTrip(d.otaSeq);
    Le32RoundTrip(StateCode(d.state));
    Le32RoundTrip(SeqCrc(d.otaSeq));
  }

  /** Every image that decodes is the encoding of what it decodes to. */
  lemma EncodeDecode(b: seq<u8>)
    requires |b| == 32 && KnownState(b)
    requires Decode(b).Ok?
    ensures Encode(Decode(b).value) == b
  {
    var d := Decode(b).value;
    Le32Inverse(b[0..4]);
    Le32Inverse(b[24..28]);
    Le32Inverse(b[28..32]);
    StateCodeInverse(FromLe32(b[24..28]));
    assert b == b[0..4] + b[4..24] + b[24..28] + b[28..32];
  }

  /**
   * The checksum does not protect the label or the state: two images that
   * agree on their sequence and checksum bytes are both accepted or both
   * rejected, whatever bytes 4..28 hold.
   */
  lemma LabelAndStateUnchecked(b: seq<u8>, c: seq<u8>)
    requires |b| == 32 && KnownState(b) && |c| == 32 && KnownState(c)
    requires b[0..4] == c[0..4] && b[28..32] == c[28..32]
    ensures Decode(b).Ok? <==> Decode(c).Ok?
  {
  }

  /** The encoding of a descriptor does not depend on the checksum it carries. */
  lemma EncodeIgnoresStoredCrc(d: EspOTAData, crc: u32)
    ensures Encode(d.(crc := crc)) == Encode(d)
  {
  }
}
