/**
 * The partition lookups of `src/ota/partition.rs`. Each call scans the
 * partition table afresh; a failed lookup panics (`unwrap`), so callers must
 * guarantee that the wanted partition exists exactly once and every entry
 * of the table can be read.
 */
module OtaPartition {
  import opened Bytes
  import opened Partitions
  import opened Wrappers

  /** The type of the OTA data partition, which holds the two descriptor copies. */
  const OTA_DATA_TYPE: PartitionType := Data(DataPartitionType.Ota)

  /** The type of the application slot with the given index. */
  function AppSlotType(index: u8): PartitionType {
    App(AppPartitionType.Ota(index))
  }

  /** The lookup of partitions of type `typ` succeeds. */
  predicate HasUnique(table: PartitionTable, typ: PartitionType) {
    Scan(table, TypeIs(typ)).Ok?
  }

  /** The partition a successful lookup returns. */
  function Unique(table: PartitionTable, typ: PartitionType): PartitionEntry
    requires HasUnique(table, typ)
  {
    Scan(table, TypeIs(typ)).value
  }

  /** The lookup succeeds exactly for a fully readable table with one entry of the type, and returns it. */
  lemma UniqueIsOnlyMatch(table: PartitionTable, typ: PartitionType)
    ensures HasUnique(table, typ) <==> Readable(table) && |Matching(table, TypeIs(typ))| == 1
    ensures HasUnique(table, typ) ==> Matching(table, TypeIs(typ)) == [Unique(table, typ)]
  {
    ScanFromOk(table, TypeIs(typ), None);
  }

  /** `ota_data_part`: the one `Data(Ota)` partition. */
  method OtaDataPart(table: PartitionTable) returns (e: PartitionEntry)
    requires HasUnique(table, OTA_DATA_TYPE)
    ensures e == Unique(table, OTA_DATA_TYPE)
    ensures e.partitionType == OTA_DATA_TYPE && Matching(table, TypeIs(OTA_DATA_TYPE)) == [e]
  {
    var r := FindPartitionType(table, OTA_DATA_TYPE);
    e := r.value;
    UniqueIsOnlyMatch(table, OTA_DATA_TYPE);
  }

  /** `ota_part(index)`: the one application slot `App(Ota(index))`. */
  method OtaPart(table: PartitionTable, index: u8) returns (e: PartitionEntry)
    requires HasUnique(table, AppSlotType(index))
    ensures e == Unique(table, AppSlotType(index))
    ensures e.partitionType == AppSlotType(index) && Matching(table, TypeIs(AppSlotType(index))) == [e]
  {
    var r := FindPartitionType(table, AppSlotType(index));
    e := r.value;
    UniqueIsOnlyMatch(table, AppSlotType(index));
  }
}
