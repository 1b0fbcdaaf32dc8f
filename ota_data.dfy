/**
 * The descriptor store of `src/ota/ota_data.rs`. The OTA data partition
 * holds two copies of the 32-byte descriptor, one at the start of each of
 * its first two flash sectors. Reading takes the copy with the higher
 * sequence number among those whose checksum holds (the second on a tie);
 * writing overwrites the copy reading would not take, so a power cut during
 * the write leaves the copy in use intact.
 *
 * `read_ota`/`write_ota`, which the module's front re-exports, are these
 * `read_ota_data`/`write_ota_data`.
 */
module OtaData {
  import opened Bytes
  import opened Wrappers
  import opened Partitions
  import opened OtaErrors
  import opened OtaDataStructs
  import opened OtaPartition
  import Flash

  /** The flash sector size; the second copy starts one sector after the first. */
  const SECTOR_SIZE: nat := 0x1000
  const DESCRIPTOR_LEN: nat := 32

  // ---------------------------------------------------------------------------
  // The store as bytes

  /** Both copies lie inside the flash. */
  predicate StoreFits(flash: seq<u8>, base: nat) {
    base + SECTOR_SIZE + DESCRIPTOR_LEN <= |flash|
  }

  function CopyStart(base: nat, sector: nat): nat {
    base + sector * SECTOR_SIZE
  }

  /** The 32 bytes of the copy in `sector` (0 or 1). */
  function CopyAt(flash: seq<u8>, base: nat, sector: nat): (b: seq<u8>)
    requires StoreFits(flash, base) && sector <= 1
    ensures |b| == DESCRIPTOR_LEN
  {
    flash[CopyStart(base, sector)..CopyStart(base, sector) + DESCRIPTOR_LEN]
  }

  /** Neither copy holds an unknown state code (decoding such a copy panics). */
  predicate StoreReadable(flash: seq<u8>, base: nat) {
    StoreFits(flash, base) && KnownState(CopyAt(flash, base, 0)) && KnownState(CopyAt(flash, base, 1))
  }

  /** A copy as the store sees it: its descriptor, or `None` when its checksum fails. */
  function DecodeCopy(b: seq<u8>): (c: Option<EspOTAData>)
    requires |b| == DESCRIPTOR_LEN && KnownState(b)
    ensures c.Some? <==> Decode(b).Ok?
    ensures c.Some? ==> Consistent(c.value) && Encode(c.value) == b
  {
    if Decode(b).Ok? then EncodeDecode(b); Some(Decode(b).value) else None
  }

  function Copy(flash: seq<u8>, base: nat, sector: nat): Option<EspOTAData>
    requires StoreReadable(flash, base) && sector <= 1
  {
    DecodeCopy(CopyAt(flash, base, sector))
  }

  // ---------------------------------------------------------------------------
  // The two choices

  /** The choice of `read_ota_data` between the two decoded copies. */
  function Select(c0: Option<EspOTAData>, c1: Option<EspOTAData>): (r: Result<EspOTAData, OtaInternalError>)
    ensures r.Ok? <==> c0.Some? || c1.Some?
    ensures r.Err? ==> r.error == OtaDataCorrupt
    ensures r.Ok? ==> Some(r.value) == c0 || Some(r.value) == c1
    ensures r.Ok? && c0.Some? ==> r.value.otaSeq >= c0.value.otaSeq
    ensures r.Ok? && c1.Some? ==> r.value.otaSeq >= c1.value.otaSeq
    ensures c0.Some? && c1.Some? && c0.value.otaSeq == c1.value.otaSeq ==> r == Ok(c1.value)
  {
    match (c0, c1)
    case (Some(d0), Some(d1)) => if d0.otaSeq > d1.otaSeq then Ok(d0) else Ok(d1)
    case (None, Some(d)) => Ok(d)
    case (Some(d), None) => Ok(d)
    case (None, None) => Err(OtaDataCorrupt)
  }

  /** The sector whose copy `Select` returns. */
  function SelectedSector(c0: Option<EspOTAData>, c1: Option<EspOTAData>): (s: nat)
    requires c0.Some? || c1.Some?
    ensures s == 0 ==> c0.Some? && Select(c0, c1) == Ok(c0.value)
    ensures s == 1 ==> c1.Some? && Select(c0, c1) == Ok(c1.value)
    ensures s <= 1
  {
    if c1.Some? && (c0.None? || c0.value.otaSeq <= c1.value.otaSeq) then 1 else 0
  }

  /**
   * The choice of `write_ota_data`: sector 1 when the first copy is newer or
   * the only good one, sector 0 otherwise, which is always the sector read
   * does not take.
   */
  function TargetSector(c0: Option<EspOTAData>, c1: Option<EspOTAData>): (k: nat)
    ensures k <= 1
    ensures c0.Some? || c1.Some? ==> k == 1 - SelectedSector(c0, c1)
    ensures c0.None? && c1.None? ==> k == 0
  {
    match (c0, c1)
    case (Some(d0), Some(d1)) => if d0.otaSeq > d1.otaSeq then 1 else 0
    case (None, Some(_)) => 0
    case (Some(_), None) => 1
    case (None, None) => 0
  }

  // ---------------------------------------------------------------------------
  // Reading and writing the store

  function StoreRead(flash: seq<u8>, base: nat): Result<EspOTAData, OtaInternalError>
    requires StoreReadable(flash, base)
  {
    Select(Copy(flash, base, 0), Copy(flash, base, 1))
  }

  function Target(flash: seq<u8>, base: nat): (k: nat)
    requires StoreReadable(flash, base)
    ensures k <= 1
  {
    TargetSector(Copy(flash, base, 0), Copy(flash, base, 1))
  }

  /**
   * The flash after writing `d`: its encoding replaces the 32 bytes of the
   * target copy, and nothing else changes; in particular the other copy is
   * untouched and the store stays readable.
   */
  function StoreWrite(flash: seq<u8>, base: nat, d: EspOTAData): (r: seq<u8>)
    requires StoreReadable(flash, base)
    ensures |r| == |flash| && StoreReadable(r, base)
    ensures CopyAt(r, base, Target(flash, base)) == Encode(d)
    ensures CopyAt(r, base, 1 - Target(flash, base)) == CopyAt(flash, base, 1 - Target(flash, base))
  {
    var k := Target(flash, base);
    DecodeEncode(d);
    SpliceCopy(flash, base, k, Encode(d));
    Flash.Splice(flash, CopyStart(base, k), Encode(d))
  }

  /** Writing 32 bytes over one copy sets that copy and keeps the other. */
  lemma SpliceCopy(flash: seq<u8>, base: nat, k: nat, data: seq<u8>)
    requires StoreReadable(flash, base) && k <= 1 && |data| == DESCRIPTOR_LEN && KnownState(data)
    ensures var r := Flash.Splice(flash, CopyStart(base, k), data);
            CopyAt(r, base, k) == data && CopyAt(r, base, 1 - k) == CopyAt(flash, base, 1 - k)
            && StoreReadable(r, base)
  {
    var r := Flash.Splice(flash, CopyStart(base, k), data);
    var other := CopyStart(base, 1 - k);
    Flash.SpliceElsewhere(flash, CopyStart(base, k), data, other, other + DESCRIPTOR_LEN);
    assert CopyAt(r, base, 1 - k) == CopyAt(flash, base, 1 - k);
    if k == 0 {
      assert KnownState(CopyAt(r, base, 0)) && KnownState(CopyAt(r, base, 1));
    } else {
      assert KnownState(CopyAt(r, base, 1)) && KnownState(CopyAt(r, base, 0));
    }
  }

  /** Writing never touches the copy that reading returned: it is still there, and still decodes to the same descriptor. */
  lemma WriteKeepsSelectedCopy(flash: seq<u8>, base: nat, d: EspOTAData)
    requires StoreReadable(flash, base) && StoreRead(flash, base).Ok?
    ensures var s := SelectedSector(Copy(flash, base, 0), Copy(flash, base, 1));
            Copy(StoreWrite(flash, base, d), base, s) == Some(StoreRead(flash, base).value)
  {
  }

  /**
   * What reading returns after `d` is written: the written descriptor (with
   * its checksum recomputed) when the untouched copy is corrupt, has a lower
   * sequence number, or ties and lies in sector 0; otherwise the untouched copy.
   */
  lemma ReadAfterWrite(flash: seq<u8>, base: nat, d: EspOTAData)
    requires StoreReadable(flash, base)
    ensures var k := Target(flash, base);
            var other := Copy(flash, base, 1 - k);
            StoreRead(StoreWrite(flash, base, d), base)
            == if other.None? || d.otaSeq > other.value.otaSeq || (k == 1 && d.otaSeq == other.value.otaSeq)
               then Ok(d.(crc := SeqCrc(d.otaSeq)))
               else Ok(other.value)
  {
    var after := StoreWrite(flash, base, d);
    var k := Target(flash, base);
    var written := d.(crc := SeqCrc(d.otaSeq));
    DecodeCopyEncode(d);
    assert CopyAt(after, base, k) == Encode(d);
    var n0 := Copy(after, base, 0);
    var n1 := Copy(after, base, 1);
    if k == 0 {
      assert n0 == Some(written) && n1 == Copy(flash, base, 1);
    } else {
      assert n1 == Some(written) && n0 == Copy(flash, base, 0);
    }
  }

  /**
   * The same, in terms of the descriptor in use before the write: the
   * written one takes over when its sequence number is higher, or equal and
   * the one in use lay in sector 0.
   */
  lemma WriteOverCurrent(flash: seq<u8>, base: nat, d: EspOTAData)
    requires StoreReadable(flash, base) && StoreRead(flash, base).Ok?
    ensures var current := StoreRead(flash, base).value;
            var s := SelectedSector(Copy(flash, base, 0), Copy(flash, base, 1));
            StoreRead(StoreWrite(flash, base, d), base)
            == if d.otaSeq > current.otaSeq || (d.otaSeq == current.otaSeq && s == 0)
               then Ok(d.(crc := SeqCrc(d.otaSeq)))
               else Ok(current)
  {
    ReadAfterWrite(flash, base, d);
    var s := SelectedSector(Copy(flash, base, 0), Copy(flash, base, 1));
    var k := Target(flash, base);
    assert k == 1 - s;
    assert Copy(flash, base, 1 - k) == Some(StoreRead(flash, base).value);
  }

  /** A freshly encoded copy decodes to the descriptor with its checksum recomputed. */
  lemma DecodeCopyEncode(d: EspOTAData)
    ensures KnownState(Encode(d))
    ensures DecodeCopy(Encode(d)) == Some(d.(crc := SeqCrc(d.otaSeq)))
  {
    DecodeEncode(d);
  }

  /** Writing the store changes no byte outside the 32 bytes of the target copy. */
  lemma StoreWriteFrame(flash: seq<u8>, base: nat, d: EspOTAData)
    requires StoreReadable(flash, base)
    ensures var r := StoreWrite(flash, base, d);
            var start := CopyStart(base, Target(flash, base));
            forall i :: 0 <= i < |flash| && !(start <= i < start + DESCRIPTOR_LEN) ==> r[i] == flash[i]
  {
    Flash.SpliceOutside(flash, CopyStart(base, Target(flash, base)), Encode(d));
  }

  /** `len` bytes from `offset` miss both descriptor copies at `base`. */
  predicate OutsideStore(base: nat, offset: nat, len: nat) {
    offset + len <= base || base + SECTOR_SIZE + DESCRIPTOR_LEN <= offset
  }

  /** Writing the store leaves every range outside the descriptor area as it was. */
  lemma StoreWriteElsewhere(flash: seq<u8>, base: nat, d: EspOTAData, lo: nat, hi: nat)
    requires StoreReadable(flash, base) && lo <= hi <= |flash|
    requires hi <= base || base + SECTOR_SIZE + DESCRIPTOR_LEN <= lo
    ensures StoreWrite(flash, base, d)[lo..hi] == flash[lo..hi]
  {
    var k := Target(flash, base);
    Flash.SpliceElsewhere(flash, CopyStart(base, k), Encode(d), lo, hi);
  }

  /** A write outside the descriptor area leaves the store as it was. */
  lemma StoreUnchangedElsewhere(flash: seq<u8>, base: nat, offset: nat, data: seq<u8>)
    requires StoreReadable(flash, base) && offset + |data| <= |flash|
    requires offset + |data| <= base || base + SECTOR_SIZE + DESCRIPTOR_LEN <= offset
    ensures var after := Flash.Splice(flash, offset, data);
            StoreReadable(after, base)
            && CopyAt(after, base, 0) == CopyAt(flash, base, 0)
            && CopyAt(after, base, 1) == CopyAt(flash, base, 1)
  {
    var after := Flash.Splice(flash, offset, data);
    Flash.SpliceElsewhere(flash, offset, data, base, base + DESCRIPTOR_LEN);
    Flash.SpliceElsewhere(flash, offset, data, base + SECTOR_SIZE, base + SECTOR_SIZE + DESCRIPTOR_LEN);
  }

  /** Data written outside the descriptor area survives a later write of the store. */
  lemma DataSurvivesStoreWrite(flash: seq<u8>, base: nat, offset: nat, data: seq<u8>, d: EspOTAData)
    requires StoreReadable(flash, base) && offset + |data| <= |flash| && OutsideStore(base, offset, |data|)
    ensures var mid := Flash.Splice(flash, offset, data);
            StoreReadable(mid, base) && StoreWrite(mid, base, d)[offset..offset + |data|] == data
  {
    var mid := Flash.Splice(flash, offset, data);
    StoreUnchangedElsewhere(flash, base, offset, data);
    var k := Target(mid, base);
    assert StoreWrite(mid, base, d) == Flash.Splice(mid, CopyStart(base, k), Encode(d));
    Flash.SpliceKeepsEarlier(flash, offset, data, CopyStart(base, k), Encode(d));
  }

  // ---------------------------------------------------------------------------
  // The store on the device

  /** The OTA data partition is found and its two copies lie in the flash with known state codes. */
  predicate StoreOk(table: PartitionTable, flash: seq<u8>) {
    HasUnique(table, OTA_DATA_TYPE) && StoreReadable(flash, Unique(table, OTA_DATA_TYPE).offset)
  }

  function StoreBase(table: PartitionTable): nat
    requires HasUnique(table, OTA_DATA_TYPE)
  {
    Unique(table, OTA_DATA_TYPE).offset
  }

  /** `read_ota_data_both`: both copies read through one reused 32-byte buffer, each decoded or `None`. */
  method ReadOtaDataBoth(table: PartitionTable, flash: array<u8>) returns (c0: Option<EspOTAData>, c1: Option<EspOTAData>)
    requires StoreOk(table, flash[..])
    ensures c0 == Copy(flash[..], StoreBase(table), 0)
    ensures c1 == Copy(flash[..], StoreBase(table), 1)
  {
    var part := OtaDataPart(table);
    var buffer := new u8[DESCRIPTOR_LEN](_ => 0);
    Flash.Read(flash, part.offset, buffer);
    assert buffer[..] == CopyAt(flash[..], part.offset, 0);
    c0 := DecodeCopy(buffer[..]);
    Flash.Read(flash, part.offset + SECTOR_SIZE, buffer);
    assert buffer[..] == CopyAt(flash[..], part.offset, 1);
    c1 := DecodeCopy(buffer[..]);
  }

  /** `read_ota_data`: the descriptor in use, or `OtaDataCorrupt` when neither copy decodes. */
  method ReadOtaData(table: PartitionTable, flash: array<u8>) returns (r: Result<EspOTAData, OtaInternalError>)
    requires StoreOk(table, flash[..])
    ensures r == StoreRead(flash[..], StoreBase(table))
  {
    var c0, c1 := ReadOtaDataBoth(table, flash);
    r := Select(c0, c1);
  }

  /** `write_ota_data`: encode `data` and write it over the copy reading would not take. */
  method WriteOtaData(table: PartitionTable, flash: array<u8>, data: EspOTAData)
    requires StoreOk(table, flash[..])
    modifies flash
    ensures flash[..] == StoreWrite(old(flash[..]), StoreBase(table), data)
  {
    var part := OtaDataPart(table);
    var buffer := Encode(data);
    var c0, c1 := ReadOtaDataBoth(table, flash);
    var sector := TargetSector(c0, c1);
    assert sector == Target(flash[..], part.offset);
    assert part.offset + sector * SECTOR_SIZE == CopyStart(part.offset, sector);
    Flash.Write(flash, part.offset + sector * SECTOR_SIZE, buffer);
  }
}
