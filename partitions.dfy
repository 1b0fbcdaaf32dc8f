/**
 * The partition directory of `src/partitions.rs`: a lookup walks the whole
 * partition table, fails on the first entry the flash cannot deliver, and
 * insists on a unique match. Ambiguity is never resolved by taking the first
 * match, and nothing is cached: every call scans the table again.
 *
 * The table itself (`PartitionTable::default()` read through `iter_storage`)
 * is an input: a sequence of entries, each either parsed or a storage error.
 */
module Partitions {
  import opened Bytes
  import opened Wrappers

  datatype AppPartitionType = Factory | Ota(index: u8) | Test
  datatype DataPartitionType = Ota | Phy | Nvs | OtherData(subtype: u8)
  datatype PartitionType = App(app: AppPartitionType) | Data(data: DataPartitionType)

  datatype PartitionEntry = PartitionEntry(partitionType: PartitionType, offset: u32, size: u32, name: string)

  /** The storage failure the table iterator reports for an entry it could not read. */
  datatype StorageError = StorageError(code: int)

  datatype ReadWritePartitionError =
    | StorageOpError(cause: StorageError)
    | PartitionNotFound
    | PartitionFoundTwice

  type PartitionTable = seq<Result<PartitionEntry, StorageError>>

  /** The predicate of `find_partition_name`. */
  function NameIs(name: string): PartitionEntry -> bool {
    (e: PartitionEntry) => e.name == name
  }

  /** The predicate of `find_partition_type`. */
  function TypeIs(typ: PartitionType): PartitionEntry -> bool {
    (e: PartitionEntry) => e.partitionType == typ
  }

  // ---------------------------------------------------------------------------
  // Specification of the scan

  /**
   * The rest of the scan over `t` when `found` holds the match seen so far:
   * a storage error ends it, a second match ends it, and at the end of the
   * table the single match (if any) is the answer.
   */
  function ScanFrom(t: PartitionTable, matches: PartitionEntry -> bool, found: Option<PartitionEntry>)
    : Result<PartitionEntry, ReadWritePartitionError>
    decreases |t|
  {
    if t == [] then
      (if found.Some? then Ok(found.value) else Err(PartitionNotFound))
    else if t[0].Err? then
      Err(StorageOpError(t[0].error))
    else if !matches(t[0].value) then
      ScanFrom(t[1..], matches, found)
    else if found.None? then
      ScanFrom(t[1..], matches, Some(t[0].value))
    else
      Err(PartitionFoundTwice)
  }

  function Scan(t: PartitionTable, matches: PartitionEntry -> bool): Result<PartitionEntry, ReadWritePartitionError> {
    ScanFrom(t, matches, None)
  }

  /** Every entry of the table could be read. */
  predicate Readable(t: PartitionTable) {
    forall i :: 0 <= i < |t| ==> t[i].Ok?
  }

  /** The readable entries that match, in table order. */
  function Matching(t: PartitionTable, matches: PartitionEntry -> bool): (r: seq<PartitionEntry>)
    ensures |r| <= |t|
    decreases |t|
  {
    if t == [] then []
    else (if t[0].Ok? && matches(t[0].value) then [t[0].value] else []) + Matching(t[1..], matches)
  }

  function Count(found: Option<PartitionEntry>): nat {
    if found.Some? then 1 else 0
  }

  function Seen(found: Option<PartitionEntry>): seq<PartitionEntry> {
    if found.Some? then [found.value] else []
  }

  /** Every matching entry satisfies the predicate and comes from the table. */
  lemma {:induction false} MatchingSound(t: PartitionTable, matches: PartitionEntry -> bool, e: PartitionEntry)
    requires e in Matching(t, matches)
    ensures matches(e) && Ok(e) in t
    decreases |t|
  {
    if t != [] {
      if !(t[0].Ok? && matches(t[0].value) && e == t[0].value) {
        MatchingSound(t[1..], matches, e);
        var j :| 0 <= j < |t[1..]| && t[1..][j] == Ok(e);
        assert t[j + 1] == Ok(e);
      }
    }
  }

  // ---------------------------------------------------------------------------
  // What the scan returns

  /**
   * The scan succeeds exactly when every entry is readable and, counting the
   * match already seen, exactly one entry matches; the answer is that entry.
   */
  lemma {:induction false} ScanFromOk(t: PartitionTable, matches: PartitionEntry -> bool, found: Option<PartitionEntry>)
    ensures ScanFrom(t, matches, found).Ok? <==> Readable(t) && Count(found) + |Matching(t, matches)| == 1
    ensures ScanFrom(t, matches, found).Ok? ==> ScanFrom(t, matches, found).value == (Seen(found) + Matching(t, matches))[0]
    decreases |t|
  {
    if t != [] {
      var rest := t[1..];
      assert Readable(t) <==> t[0].Ok? && Readable(rest) by {
        if t[0].Ok? && Readable(rest) {
          forall i | 0 <= i < |t| ensures t[i].Ok? {
            if i > 0 { assert t[i] == rest[i - 1]; }
          }
        }
        if Readable(t) {
          forall i | 0 <= i < |rest| ensures rest[i].Ok? {
            assert rest[i] == t[i + 1];
          }
        }
      }
      if t[0].Ok? {
        if !matches(t[0].value) {
          ScanFromOk(rest, matches, found);
        } else if found.None? {
          ScanFromOk(rest, matches, Some(t[0].value));
        }
      }
    }
  }

  /** `PartitionNotFound` exactly when every entry is readable and none matches. */
  lemma {:induction false} ScanFromNotFound(t: PartitionTable, matches: PartitionEntry -> bool, found: Option<PartitionEntry>)
    ensures ScanFrom(t, matches, found) == Err(PartitionNotFound)
            <==> Readable(t) && found.None? && |Matching(t, matches)| == 0
    decreases |t|
  {
    if t != [] {
      var rest := t[1..];
      assert Readable(t) <==> t[0].Ok? && Readable(rest) by {
        if t[0].Ok? && Readable(rest) {
          forall i | 0 <= i < |t| ensures t[i].Ok? {
            if i > 0 { assert t[i] == rest[i - 1]; }
          }
        }
        if Readable(t) {
          forall i | 0 <= i < |rest| ensures rest[i].Ok? {
            assert rest[i] == t[i + 1];
          }
        }
      }
      if t[0].Ok? {
        if !matches(t[0].value) {
          ScanFromNotFound(rest, matches, found);
        } else if found.None? {
          ScanFromNotFound(rest, matches, Some(t[0].value));
        }
      }
    }
  }

  /**
   * A storage error ends the scan with that error when it comes before a
   * second match, even if one match has already been seen.
   */
  lemma {:induction false} ScanFromStopsAtStorageError(
    t: PartitionTable, matches: PartitionEntry -> bool, found: Option<PartitionEntry>, k: nat)
    requires k < |t| && t[k].Err?
    requires Readable(t[..k]) && Count(found) + |Matching(t[..k], matches)| <= 1
    ensures ScanFrom(t, matches, found) == Err(StorageOpError(t[k].error))
    decreases k
  {
    if k > 0 {
      var rest := t[1..];
      assert t[0] == t[..k][0];
      var prefix := rest[..k - 1];
      assert prefix == t[..k][1..];
      assert Readable(prefix) by {
        forall i | 0 <= i < |prefix| ensures prefix[i].Ok? {
          assert prefix[i] == t[..k][i + 1];
        }
      }
      var found' := if matches(t[0].value) then Some(t[0].value) else found;
      ScanFromStopsAtStorageError(rest, matches, found', k - 1);
    }
  }

  /**
   * A second match ends the scan with `PartitionFoundTwice` when it comes
   * before any storage error; the rest of the table is not looked at.
   */
  lemma {:induction false} ScanFromStopsAtSecondMatch(
    t: PartitionTable, matches: PartitionEntry -> bool, found: Option<PartitionEntry>, k: nat)
    requires k < |t| && t[k].Ok? && matches(t[k].value)
    requires Readable(t[..k]) && Count(found) + |Matching(t[..k], matches)| == 1
    ensures ScanFrom(t, matches, found) == Err(PartitionFoundTwice)
    decreases k
  {
    if k > 0 {
      var rest := t[1..];
      assert t[0] == t[..k][0];
      var prefix := rest[..k - 1];
      assert prefix == t[..k][1..];
      assert Readable(prefix) by {
        forall i | 0 <= i < |prefix| ensures prefix[i].Ok? {
          assert prefix[i] == t[..k][i + 1];
        }
      }
      var found' := if matches(t[0].value) then Some(t[0].value) else found;
      ScanFromStopsAtSecondMatch(rest, matches, found', k - 1);
    }
  }

  // ---------------------------------------------------------------------------
  // The lookups

  /**
   * The loop shared by both lookups: walk the table, propagate a storage
   * error (`entry?`), remember the first match, and return on a second one.
   */
  method FindPartition(table: PartitionTable, matches: PartitionEntry -> bool)
    returns (r: Result<PartitionEntry, ReadWritePartitionError>)
    ensures r == Scan(table, matches)
  {
    var found: Option<PartitionEntry> := None;
    for i := 0 to |table|
      invariant ScanFrom(table[i..], matches, found) == Scan(table, matches)
    {
      assert table[i..][1..] == table[i + 1..];
      if table[i].Err? {
        return Err(StorageOpError(table[i].error));
      }
      var entry := table[i].value;
      if matches(entry) {
        if found.None? {
          found := Some(entry);
        } else {
          return Err(PartitionFoundTwice);
        }
      }
    }
    r := if found.Some? then Ok(found.value) else Err(PartitionNotFound);
  }

  /** `find_partition_name`: the unique partition called `name`. */
  method FindPartitionName(table: PartitionTable, name: string)
    returns (r: Result<PartitionEntry, ReadWritePartitionError>)
    ensures r == Scan(table, NameIs(name))
    ensures r.Ok? <==> Readable(table) && |Matching(table, NameIs(name))| == 1
    ensures r.Ok? ==> r.value.name == name && Ok(r.value) in table
    ensures r == Err(PartitionNotFound) <==> Readable(table) && Matching(table, NameIs(name)) == []
  {
    r := FindPartition(table, NameIs(name));
    ScanFromOk(table, NameIs(name), None);
    ScanFromNotFound(table, NameIs(name), None);
    if r.Ok? {
      MatchingSound(table, NameIs(name), r.value);
    }
  }

  /** `find_partition_type`: the unique partition of type `typ`. */
  method FindPartitionType(table: PartitionTable, typ: PartitionType)
    returns (r: Result<PartitionEntry, ReadWritePartitionError>)
    ensures r == Scan(table, TypeIs(typ))
    ensures r.Ok? <==> Readable(table) && |Matching(table, TypeIs(typ))| == 1
    ensures r.Ok? ==> r.value.partitionType == typ && Ok(r.value) in table
    ensures r == Err(PartitionNotFound) <==> Readable(table) && Matching(table, TypeIs(typ)) == []
  {
    r := FindPartition(table, TypeIs(typ));
    ScanFromOk(table, TypeIs(typ), None);
    ScanFromNotFound(table, TypeIs(typ), None);
    if r.Ok? {
      MatchingSound(table, TypeIs(typ), r.value);
    }
  }
}
