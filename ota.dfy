/**
 * The update manager of `src/ota/mod.rs`, together with `booted_ota_seq` of
 * `src/ota/partition.rs` (which reads the descriptor store, so it sits above
 * it here).
 *
 * `ota_begin` refuses to start unless the running image has been accepted,
 * copies the new image chunk by chunk into application slot 1, refusing a
 * chunk that would overflow the slot, and then publishes a fresh descriptor
 * with sequence number 2 and state `New`. `ota_accept` and `ota_reject`
 * rewrite the descriptor in use with a new state; `ota_valid` tells whether
 * it has been accepted.
 *
 * Every function of the source that reads the store panics when neither copy
 * decodes; here that is the precondition `Ready`.
 */
module Ota {
  import opened Bytes
  import opened Wrappers
  import opened Partitions
  import opened OtaErrors
  import opened OtaDataStructs
  import opened OtaPartition
  import opened OtaData
  import Flash

  /** The descriptor store can be read and holds a descriptor in use. */
  predicate Ready(table: PartitionTable, flash: seq<u8>) {
    StoreOk(table, flash) && StoreRead(flash, StoreBase(table)).Ok?
  }

  /** The descriptor in use. */
  function Current(table: PartitionTable, flash: seq<u8>): EspOTAData
    requires Ready(table, flash)
  {
    StoreRead(flash, StoreBase(table)).value
  }

  /** The states `ota_valid` counts as accepted. */
  predicate IsAccepted(state: EspOTAState) {
    state == Valid || state == Undefined
  }

  /** `ota_valid`: whether the descriptor in use has been accepted. */
  method OtaValid(table: PartitionTable, flash: array<u8>) returns (valid: bool)
    requires Ready(table, flash[..])
    ensures valid <==> IsAccepted(Current(table, flash[..]).state)
  {
    var r := ReadOtaData(table, flash);
    var data := r.value;
    valid := match data.state
      case Valid => true
      case Undefined => true
      case _ => false;
  }

  /** `booted_ota_seq`: the sequence number in use; anything from 16 up panics. */
  method BootedOtaSeq(table: PartitionTable, flash: array<u8>) returns (s: u32)
    requires Ready(table, flash[..]) && Current(table, flash[..]).otaSeq < 16
    ensures s == Current(table, flash[..]).otaSeq && s < 16
  {
    var r := ReadOtaData(table, flash);
    s := r.value.otaSeq;
  }

  // ---------------------------------------------------------------------------
  // Accepting and rejecting

  /** The flash after the descriptor in use is written back with `state`. */
  function Marked(flash: seq<u8>, base: nat, state: EspOTAState): seq<u8>
    requires StoreReadable(flash, base) && StoreRead(flash, base).Ok?
  {
    StoreWrite(flash, base, StoreRead(flash, base).value.(state := state))
  }

  /**
   * Rewriting the descriptor in use with a new state keeps its sequence
   * number and label. When the descriptor in use lay in sector 0, reading
   * afterwards returns the rewrite. When it lay in sector 1 the rewrite goes
   * to sector 0 with the same sequence number, and reading, which gives ties
   * to sector 1, returns the old descriptor unchanged; the two agree only
   * when the state did not change.
   */
  lemma MarkEffect(flash: seq<u8>, base: nat, state: EspOTAState)
    requires StoreReadable(flash, base) && StoreRead(flash, base).Ok?
    ensures var current := StoreRead(flash, base).value;
            var s := SelectedSector(Copy(flash, base, 0), Copy(flash, base, 1));
            StoreRead(Marked(flash, base, state), base) == Ok(if s == 0 then current.(state := state) else current)
  {
    var current := StoreRead(flash, base).value;
    ReadAfterWrite(flash, base, current.(state := state));
    assert Consistent(current) by {
      var s := SelectedSector(Copy(flash, base, 0), Copy(flash, base, 1));
      assert Copy(flash, base, s) == Some(current);
    }
  }

  /** `ota_accept`: the descriptor in use, marked `Valid`, written back. */
  method OtaAccept(table: PartitionTable, flash: array<u8>)
    requires Ready(table, flash[..])
    modifies flash
    ensures flash[..] == Marked(old(flash[..]), StoreBase(table), Valid)
  {
    var r := ReadOtaData(table, flash);
    var data := r.value;
    data := data.(state := Valid);
    WriteOtaData(table, flash, data);
  }

  /** `ota_reject`: the descriptor in use, marked `Invalid`, written back. */
  method OtaReject(table: PartitionTable, flash: array<u8>)
    requires Ready(table, flash[..])
    modifies flash
    ensures flash[..] == Marked(old(flash[..]), StoreBase(table), Invalid)
  {
    var r := ReadOtaData(table, flash);
    var data := r.value;
    data := data.(state := Invalid);
    WriteOtaData(table, flash, data);
  }

  /**
   * After `ota_accept`, `ota_valid` holds exactly when the descriptor in use
   * lay in sector 0 or had already been accepted.
   */
  lemma AcceptVisibleIff(flash: seq<u8>, base: nat)
    requires StoreReadable(flash, base) && StoreRead(flash, base).Ok?
    ensures var after := Marked(flash, base, Valid);
            StoreRead(after, base).Ok?
            && (IsAccepted(StoreRead(after, base).value.state)
                <==> SelectedSector(Copy(flash, base, 0), Copy(flash, base, 1)) == 0
                     || IsAccepted(StoreRead(flash, base).value.state))
  {
    MarkEffect(flash, base, Valid);
  }

  /**
   * After `ota_reject`, the descriptor in use is accepted exactly when the
   * rejection was written to the sector that loses the tie and the descriptor
   * had been accepted before.
   */
  lemma RejectVisibleIff(flash: seq<u8>, base: nat)
    requires StoreReadable(flash, base) && StoreRead(flash, base).Ok?
    ensures var after := Marked(flash, base, Invalid);
            StoreRead(after, base).Ok?
            && (IsAccepted(StoreRead(after, base).value.state)
                <==> SelectedSector(Copy(flash, base, 0), Copy(flash, base, 1)) == 1
                     && IsAccepted(StoreRead(flash, base).value.state))
  {
    MarkEffect(flash, base, Invalid);
  }

  /**
   * The acceptance is lost: when the descriptor in use lies in sector 1 and
   * has not been accepted, `ota_accept` leaves `ota_valid` false, however
   * often it is called.
   */
  lemma AcceptLostInSectorOne(flash: seq<u8>, base: nat)
    requires StoreReadable(flash, base) && StoreRead(flash, base).Ok?
    requires SelectedSector(Copy(flash, base, 0), Copy(flash, base, 1)) == 1
    requires !IsAccepted(StoreRead(flash, base).value.state)
    ensures var after := Marked(flash, base, Valid);
            StoreRead(after, base) == StoreRead(flash, base)
            && SelectedSector(Copy(after, base, 0), Copy(after, base, 1)) == 1
            && !IsAccepted(StoreRead(after, base).value.state)
  {
    MarkEffect(flash, base, Valid);
    var current := StoreRead(flash, base).value;
    var after := Marked(flash, base, Valid);
    DecodeCopyEncode(current.(state := Valid));
    assert Copy(after, base, 1) == Some(current);
    assert Copy(after, base, 0) == Some(current.(state := Valid));
  }

  // ---------------------------------------------------------------------------
  // Accepting with the write aimed at the copy in use

  /**
   * The sector a corrected write chooses: a descriptor with the sequence
   * number of the one in use replaces that copy; any other goes to the sector
   * reading does not take.
   */
  function FixedTargetSector(c0: Option<EspOTAData>, c1: Option<EspOTAData>, d: EspOTAData): (k: nat)
    ensures k <= 1
  {
    if (c0.Some? || c1.Some?) && d.otaSeq == Select(c0, c1).value.otaSeq then SelectedSector(c0, c1)
    else TargetSector(c0, c1)
  }

  function FixedStoreWrite(flash: seq<u8>, base: nat, d: EspOTAData): (r: seq<u8>)
    requires StoreReadable(flash, base)
    ensures StoreReadable(r, base)
  {
    var k := FixedTargetSector(Copy(flash, base, 0), Copy(flash, base, 1), d);
    DecodeEncode(d);
    SpliceCopy(flash, base, k, Encode(d));
    Flash.Splice(flash, CopyStart(base, k), Encode(d))
  }

  /**
   * With the corrected write, reading afterwards returns the written
   * descriptor whenever its sequence number is at least that of the one in
   * use, or the store was corrupt.
   */
  lemma FixedReadAfterWrite(flash: seq<u8>, base: nat, d: EspOTAData)
    requires StoreReadable(flash, base)
    requires StoreRead(flash, base).Ok? ==> d.otaSeq >= StoreRead(flash, base).value.otaSeq
    ensures StoreRead(FixedStoreWrite(flash, base, d), base) == Ok(d.(crc := SeqCrc(d.otaSeq)))
  {
    var c0, c1 := Copy(flash, base, 0), Copy(flash, base, 1);
    var k := FixedTargetSector(c0, c1, d);
    var after := FixedStoreWrite(flash, base, d);
    var written := d.(crc := SeqCrc(d.otaSeq));
    DecodeCopyEncode(d);
    SpliceCopy(flash, base, k, Encode(d));
    FixedChoice(c0, c1, d, written);
    if k == 0 {
      assert Copy(after, base, 0) == Some(written) && Copy(after, base, 1) == c1;
    } else {
      assert Copy(after, base, 1) == Some(written) && Copy(after, base, 0) == c0;
    }
  }

  /** The corrected choice of sector, on the decoded copies alone. */
  lemma FixedChoice(c0: Option<EspOTAData>, c1: Option<EspOTAData>, d: EspOTAData, written: EspOTAData)
    requires written.otaSeq == d.otaSeq
    requires Select(c0, c1).Ok? ==> d.otaSeq >= Select(c0, c1).value.otaSeq
    ensures var k := FixedTargetSector(c0, c1, d);
            Select(if k == 0 then Some(written) else c0, if k == 1 then Some(written) else c1) == Ok(written)
  {
  }

  /** With the corrected write, `ota_accept` always makes `ota_valid` true. */
  lemma FixedAcceptIsVisible(flash: seq<u8>, base: nat)
    requires StoreReadable(flash, base) && StoreRead(flash, base).Ok?
    ensures var after := FixedStoreWrite(flash, base, StoreRead(flash, base).value.(state := Valid));
            StoreRead(after, base).Ok? && IsAccepted(StoreRead(after, base).value.state)
            && StoreRead(after, base).value.otaSeq == StoreRead(flash, base).value.otaSeq
  {
    FixedReadAfterWrite(flash, base, StoreRead(flash, base).value.(state := Valid));
  }

  // ---------------------------------------------------------------------------
  // Starting an update

  /** The running slot is taken to be 1, so the new image goes to slot index 1 with sequence number 2. */
  const BOOTED_SEQ: u32 := 1
  const NEW_SEQ: u32 := BOOTED_SEQ + 1
  /** The size of the copy buffer, and so the most one read of the image stream delivers. */
  const CHUNK_CAPACITY: nat := 0x1000

  /** The label of every published descriptor: twenty bytes 0xED. */
  function NewLabel(): (l: Label)
    ensures forall i :: 0 <= i < 20 ==> l[i] == 0xED
  {
    seq(20, _ => 0xED)
  }

  /** The descriptor `ota_begin` publishes. */
  function UpdateDescriptor(): (d: EspOTAData)
    ensures d.otaSeq == NEW_SEQ && d.state == New && Consistent(d)
  {
    NewDescriptor(NEW_SEQ, NewLabel())
  }

  /**
   * The image source: the successive results of reading it. Reads past the
   * end of the sequence deliver zero bytes.
   */
  type Stream<E> = seq<Result<seq<u8>, E>>

  /** No read delivers more than the copy buffer holds. */
  predicate ChunksFit<E>(s: Stream<E>) {
    forall i :: 0 <= i < |s| && s[i].Ok? ==> |s[i].value| <= CHUNK_CAPACITY
  }

  /** The read at the head of `s` ends the copy loop: end of stream, an error, or zero bytes. */
  predicate EndsHere<E>(s: Stream<E>) {
    s == [] || s[0].Err? || s[0].value == []
  }

  /** The bytes the copy loop takes from the stream before it ends, with unlimited room. */
  function Image<E>(s: Stream<E>): seq<u8>
    decreases |s|
  {
    if EndsHere(s) then [] else s[0].value + Image(s[1..])
  }

  /** The error that ended the copy loop, if an error did. */
  function StopError<E>(s: Stream<E>): Option<E>
    decreases |s|
  {
    if s == [] then None
    else if s[0].Err? then Some(s[0].error)
    else if s[0].value == [] then None
    else StopError(s[1..])
  }

  /**
   * The bytes written into a slot with `room` bytes: whole chunks, up to the
   * first that would not fit. They are a prefix of the image, never more than
   * the room, and the whole image exactly when the image fits.
   */
  function Fitting<E>(s: Stream<E>, room: nat): (r: seq<u8>)
    ensures |r| <= room && r <= Image(s)
    ensures r == Image(s) <==> |Image(s)| <= room
    decreases |s|
  {
    if EndsHere(s) || |s[0].value| > room then []
    else s[0].value + Fitting(s[1..], room - |s[0].value|)
  }

  /** The result of `ota_begin`: refused when not accepted, `OutOfSpace` when the image does not fit, otherwise success. */
  function BeginResult<E>(accepted: bool, s: Stream<E>, size: nat): Result<(), OtaError<E>> {
    if !accepted then Err(OtaError.PendingVerify)
    else if |Image(s)| > size then Err(OutOfSpace)
    else Ok(())
  }

  /** The application slot that receives the image. */
  function SlotType(): PartitionType {
    AppSlotType((NEW_SEQ - 1) as u8)
  }

  /**
   * The destination slot exists once, lies inside the flash, and does not
   * overlap the two descriptor copies.
   */
  predicate SlotUsable(table: PartitionTable, flash: seq<u8>) {
    HasUnique(table, SlotType()) && HasUnique(table, OTA_DATA_TYPE)
    && var slot := Unique(table, SlotType());
       slot.offset + slot.size <= |flash| && OutsideStore(StoreBase(table), slot.offset, slot.size)
  }

  function SlotStart(table: PartitionTable): nat {
    if HasUnique(table, SlotType()) then Unique(table, SlotType()).offset else 0
  }

  function SlotSize(table: PartitionTable): nat {
    if HasUnique(table, SlotType()) then Unique(table, SlotType()).size else 0
  }

  /**
   * The flash after a finished update: the image written from `start`, then
   * the new descriptor published. The image survives the descriptor write.
   */
  function FlashAfterUpdate(flash: seq<u8>, base: nat, start: nat, image: seq<u8>): (r: seq<u8>)
    requires StoreReadable(flash, base) && start + |image| <= |flash| && OutsideStore(base, start, |image|)
    ensures |r| == |flash| && r[start..start + |image|] == image
  {
    DataSurvivesStoreWrite(flash, base, start, image, UpdateDescriptor());
    StoreWrite(Flash.Splice(flash, start, image), base, UpdateDescriptor())
  }

  /** One read of the stream into the copy buffer. */
  method ReadChunk<E>(stream: Stream<E>, i: nat, buffer: array<u8>) returns (r: Result<nat, E>)
    requires ChunksFit(stream) && buffer.Length == CHUNK_CAPACITY
    modifies buffer
    ensures i >= |stream| ==> r == Ok(0)
    ensures i < |stream| && stream[i].Err? ==> r == Err(stream[i].error)
    ensures i < |stream| && stream[i].Ok? ==> r == Ok(|stream[i].value|) && buffer[..|stream[i].value|] == stream[i].value
  {
    if i >= |stream| {
      return Ok(0);
    }
    match stream[i]
    case Err(e) =>
      r := Err(e);
    case Ok(chunk) =>
      for j := 0 to |chunk|
        invariant buffer[..j] == chunk[..j]
      {
        buffer[j] := chunk[j];
        assert buffer[..j + 1] == buffer[..j] + [buffer[j]];
        assert chunk[..j + 1] == chunk[..j] + [chunk[j]];
      }
      assert chunk[..|chunk|] == chunk;
      r := Ok(|chunk|);
  }

  /**
   * The copy loop's progress: `done` holds the chunks taken before read `i`,
   * all of which fitted, so the image and the written bytes both start with
   * `done` and continue with what the rest of the stream gives.
   */
  predicate CopyState<E>(s: Stream<E>, size: nat, i: nat, done: seq<u8>) {
    i <= |s| && |done| <= size
    && Image(s) == done + Image(s[i..])
    && Fitting(s, size) == done + Fitting(s[i..], size - |done|)
  }

  lemma CopyBegins<E>(s: Stream<E>, size: nat)
    ensures CopyState(s, size, 0, [])
  {
    assert s[0..] == s;
  }

  /** A chunk that fits is written, and the loop goes on with the next read. */
  lemma CopyStep<E>(s: Stream<E>, size: nat, i: nat, done: seq<u8>)
    requires CopyState(s, size, i, done)
    requires i < |s| && s[i].Ok? && s[i].value != [] && |done| + |s[i].value| <= size
    ensures CopyState(s, size, i + 1, done + s[i].value)
  {
    var chunk := s[i].value;
    assert s[i..][1..] == s[i + 1..];
    assert Image(s[i..]) == chunk + Image(s[i + 1..]);
    assert Fitting(s[i..], size - |done|) == chunk + Fitting(s[i + 1..], size - |done| - |chunk|);
    ConcatAssoc(done, chunk, Image(s[i + 1..]));
    ConcatAssoc(done, chunk, Fitting(s[i + 1..], size - |done| - |chunk|));
  }

  /** A read that ends the loop: everything taken was written, and it is the whole image. */
  lemma CopyStop<E>(s: Stream<E>, size: nat, i: nat, done: seq<u8>)
    requires CopyState(s, size, i, done)
    requires i == |s| || s[i].Err? || s[i].value == []
    ensures Image(s) == done && Fitting(s, size) == done && |Image(s)| <= size
  {
    assert EndsHere(s[i..]);
  }

  /** A chunk that does not fit: the image is too large, and what was written is all that is. */
  lemma CopyOverflow<E>(s: Stream<E>, size: nat, i: nat, done: seq<u8>)
    requires CopyState(s, size, i, done)
    requires i < |s| && s[i].Ok? && s[i].value != [] && |done| + |s[i].value| > size
    ensures Fitting(s, size) == done && |Image(s)| > size
  {
    assert s[i..][1..] == s[i + 1..];
    assert Image(s[i..]) == s[i].value + Image(s[i + 1..]);
  }

  lemma ConcatAssoc(a: seq<u8>, b: seq<u8>, c: seq<u8>)
    ensures a + (b + c) == (a + b) + c
  {
  }

  /**
   * The copy loop of `ota_begin`: chunks are read into the buffer and written
   * back to back from `offset`, until a zero-length read or a read error ends
   * the loop (`true` is returned then) or a chunk would take the total past
   * `size` (it is not written, and `false` is returned).
   */
  method CopyImage<E>(flash: array<u8>, offset: nat, size: nat, stream: Stream<E>) returns (fits: bool)
    requires offset + size <= flash.Length && ChunksFit(stream)
    modifies flash
    ensures fits <==> |Image(stream)| <= size
    ensures flash[..] == Flash.Splice(old(flash[..]), offset, Fitting(stream, size))
  {
    var dataBuffer := new u8[CHUNK_CAPACITY](_ => 0);
    var dataWritten: nat := 0;
    var i: nat := 0;
    ghost var before := flash[..];
    ghost var done: seq<u8> := [];
    CopyBegins(stream, size);
    while true
      invariant CopyState(stream, size, i, done) && dataWritten == |done|
      invariant flash[..] == Flash.Splice(before, offset, done)
      decreases |stream| - i
    {
      var read := ReadChunk(stream, i, dataBuffer);
      if read.Err? || read.value == 0 {
        CopyStop(stream, size, i, done);
        break;
      }
      var readLen := read.value;
      if dataWritten + readLen > size {
        CopyOverflow(stream, size, i, done);
        return false;
      }
      ghost var chunk := stream[i].value;
      assert dataBuffer[0..readLen] == chunk;
      Flash.Write(flash, offset + dataWritten, dataBuffer[0..readLen]);
      Flash.SpliceAdjacent(before, offset, done, chunk);
      CopyStep(stream, size, i, done);
      done := done + chunk;
      dataWritten := dataWritten + readLen;
      i := i + 1;
    }
    fits := true;
  }

  /**
   * `ota_begin`. Not accepted: `PendingVerify`, nothing written. Otherwise
   * the image is copied to the start of application slot 1; if it does not
   * fit, `OutOfSpace` and no descriptor is published; otherwise the new
   * descriptor is published. A read error is never reported.
   */
  method OtaBegin<E>(table: PartitionTable, flash: array<u8>, stream: Stream<E>) returns (r: Result<(), OtaError<E>>)
    requires Ready(table, flash[..]) && ChunksFit(stream)
    requires IsAccepted(Current(table, flash[..]).state) ==> SlotUsable(table, flash[..])
    modifies flash
    ensures r == BeginResult(IsAccepted(Current(table, old(flash[..])).state), stream, SlotSize(table))
    ensures r == Err(OtaError.PendingVerify) ==> flash[..] == old(flash[..])
    ensures r == Err(OutOfSpace) ==> flash[..] == Flash.Splice(old(flash[..]), SlotStart(table), Fitting(stream, SlotSize(table)))
    ensures r.Ok? ==> flash[..] == FlashAfterUpdate(old(flash[..]), StoreBase(table), SlotStart(table), Image(stream))
  {
    var valid := OtaValid(table, flash);
    if !valid {
      return Err(OtaError.PendingVerify);
    }
    var bootedSeq := BOOTED_SEQ;
    var newSeq := bootedSeq + 1;
    var otaApp := OtaPart(table, (newSeq - 1) as u8);
    ghost var before := flash[..];
    var fits := CopyImage(flash, otaApp.offset, otaApp.size, stream);
    if !fits {
      return Err(OutOfSpace);
    }
    StoreUnchangedElsewhere(before, StoreBase(table), otaApp.offset, Image(stream));
    WriteOtaData(table, flash, NewDescriptor(newSeq, NewLabel()));
    r := Ok(());
  }

  // ---------------------------------------------------------------------------
  // What a finished or refused update leaves behind

  /**
   * After a finished update the published descriptor (sequence 2, state
   * `New`) is the one in use when the previous one had a lower sequence
   * number, or had sequence 2 and lay in sector 0; otherwise the previous
   * descriptor stays in use.
   */
  lemma UpdatePublishes(table: PartitionTable, flash: seq<u8>, image: seq<u8>)
    requires Ready(table, flash) && SlotUsable(table, flash) && |image| <= SlotSize(table)
    ensures var after := FlashAfterUpdate(flash, StoreBase(table), SlotStart(table), image);
            var base := StoreBase(table);
            var current := Current(table, flash);
            var s := SelectedSector(Copy(flash, base, 0), Copy(flash, base, 1));
            Ready(table, after)
            && Current(table, after)
               == if current.otaSeq < NEW_SEQ || (current.otaSeq == NEW_SEQ && s == 0) then UpdateDescriptor() else current
  {
    var base := StoreBase(table);
    var start := SlotStart(table);
    assert OutsideStore(base, start, |image|);
    var mid := Flash.Splice(flash, start, image);
    StoreUnchangedElsewhere(flash, base, start, image);
    SameCopiesSameStore(flash, mid, base);
    WriteOverCurrent(mid, base, UpdateDescriptor());
    assert FlashAfterUpdate(flash, base, start, image) == StoreWrite(mid, base, UpdateDescriptor());
    assert UpdateDescriptor().(crc := SeqCrc(NEW_SEQ)) == UpdateDescriptor();
  }

  /** Two flash images with the same descriptor bytes read the same and write to the same sector. */
  lemma SameCopiesSameStore(a: seq<u8>, b: seq<u8>, base: nat)
    requires StoreReadable(a, base) && StoreReadable(b, base)
    requires CopyAt(a, base, 0) == CopyAt(b, base, 0) && CopyAt(a, base, 1) == CopyAt(b, base, 1)
    ensures Copy(a, base, 0) == Copy(b, base, 0) && Copy(a, base, 1) == Copy(b, base, 1)
    ensures StoreRead(a, base) == StoreRead(b, base) && Target(a, base) == Target(b, base)
  {
  }

  /** An update refused for lack of space leaves the descriptor in use as it was. */
  lemma OutOfSpaceKeepsDescriptor<E>(table: PartitionTable, flash: seq<u8>, stream: Stream<E>)
    requires Ready(table, flash) && SlotUsable(table, flash)
    ensures var after := Flash.Splice(flash, SlotStart(table), Fitting(stream, SlotSize(table)));
            Ready(table, after) && Current(table, after) == Current(table, flash)
  {
    var base := StoreBase(table);
    StoreUnchangedElsewhere(flash, base, SlotStart(table), Fitting(stream, SlotSize(table)));
  }

  // ---------------------------------------------------------------------------
  // Read errors

  /**
   * A read error is swallowed: a stream that delivers one byte and then fails
   * ends the copy with a one-byte image, and `ota_begin` reports success and
   * publishes it.
   */
  lemma ReadErrorSwallowed<E>(e: E, size: nat)
    requires size >= 1
    ensures var s: Stream<E> := [Ok([0xE9]), Err(e)];
            StopError(s) == Some(e) && Image(s) == [0xE9] && BeginResult(true, s, size) == Ok(())
  {
    var s: Stream<E> := [Ok([0xE9]), Err(e)];
    assert s[1..] == [Err(e)];
    assert StopError(s[1..]) == Some(e);
    assert Image(s[1..]) == [];
  }

  /**
   * The result with read errors propagated: a read error that ends the copy
   * before the slot overflows is reported, and nothing is published.
   */
  function FixedBeginResult<E>(accepted: bool, s: Stream<E>, size: nat): (r: Result<(), OtaError<E>>)
    ensures r.Ok? ==> StopError(s).None?
    ensures r.Ok? || r.error.ReadError? <==> accepted && |Image(s)| <= size
  {
    if !accepted then Err(OtaError.PendingVerify)
    else if |Image(s)| > size then Err(OutOfSpace)
    else if StopError(s).Some? then Err(ReadError(StopError(s).value))
    else Ok(())
  }

  /**
   * The flash after the corrected `ota_begin`: the same writes as the
   * original, except that a copy ended by a read error publishes no
   * descriptor. The chunks read before the error stay in the slot.
   */
  function FixedFlashAfterBegin<E>(table: PartitionTable, flash: seq<u8>, accepted: bool, s: Stream<E>): (r: seq<u8>)
    requires Ready(table, flash) && SlotUsable(table, flash)
    ensures |r| == |flash|
  {
    var start, size := SlotStart(table), SlotSize(table);
    if !accepted then flash
    else if |Image(s)| > size then Flash.Splice(flash, start, Fitting(s, size))
    else if StopError(s).Some? then Flash.Splice(flash, start, Image(s))
    else FlashAfterUpdate(flash, StoreBase(table), start, Image(s))
  }

  /**
   * With the correction, a descriptor is published only on success: every
   * error, a read error included, leaves the descriptor in use as it was.
   */
  lemma FixedBeginPublishesOnlyOnSuccess<E>(table: PartitionTable, flash: seq<u8>, accepted: bool, s: Stream<E>)
    requires Ready(table, flash) && SlotUsable(table, flash)
    ensures var after := FixedFlashAfterBegin(table, flash, accepted, s);
            FixedBeginResult(accepted, s, SlotSize(table)).Err?
            ==> Ready(table, after) && Current(table, after) == Current(table, flash)
  {
    var base, start, size := StoreBase(table), SlotStart(table), SlotSize(table);
    if accepted {
      if |Image(s)| > size {
        OutOfSpaceKeepsDescriptor(table, flash, s);
      } else if StopError(s).Some? {
        assert OutsideStore(base, start, |Image(s)|);
        StoreUnchangedElsewhere(flash, base, start, Image(s));
      }
    }
  }

  /**
   * The corrected result differs from the original only where the copy ended
   * with a read error, and there it is exactly that error.
   */
  lemma FixedBeginReportsReadError<E>(accepted: bool, s: Stream<E>, size: nat)
    ensures StopError(s).None? ==> FixedBeginResult(accepted, s, size) == BeginResult(accepted, s, size)
    ensures StopError(s).Some? && BeginResult(accepted, s, size).Ok?
            ==> FixedBeginResult(accepted, s, size) == Err(ReadError(StopError(s).value))
    ensures FixedBeginResult(accepted, s, size).Ok? ==> BeginResult(accepted, s, size).Ok?
  {
  }
}
