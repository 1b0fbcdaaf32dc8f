/**
 * `src/color_storage.rs`: the light state kept in the first eight bytes of
 * the "userdata" partition. Reading treats erased flash (all bytes 0xFF) as
 * "nothing stored yet" and falls back to the default state; the storage task
 * writes the current state back whenever it changes.
 *
 * The partition is found through `find_partition_name`; a failed lookup and
 * a failed flash access panic (`unwrap`), so they are preconditions here.
 * The five-second delay before each write is not modelled.
 */
module ColorStorage {
  import opened Bytes
  import opened Wrappers
  import opened Partitions
  import opened LightStates
  import opened Synchronizer
  import Flash

  const USERDATA: string := "userdata"

  /** The bytes read as erased flash: every one is 0xFF. */
  predicate Erased(b: seq<u8>) {
    forall i :: 0 <= i < |b| ==> b[i] == 0xFF
  }

  /**
   * The decision of `read_light_state` on the eight bytes read: erased flash
   * gives the default state, anything else is the state whose encoding those
   * bytes are.
   */
  function Decide(b: seq<u8>): (s: LightState)
    requires |b| == LIGHT_STATE_LEN
    ensures Erased(b) ==> s == DEFAULT
    ensures !Erased(b) ==> IntoBytes(s) == b
  {
    if Erased(b) then DEFAULT
    else
      IntoFromBytes(b);
      FromBytes(b)
  }

  /** Every field at its maximum, 0xFFFF. */
  predicate AllOnes(s: LightState) {
    s.cold == 0xFFFF && s.warm == 0xFFFF && s.x == 0xFFFF && s.y == 0xFFFF
  }

  /** A stored state looks like erased flash exactly when all its fields are 0xFFFF. */
  lemma {:induction false} ErasedIffAllOnes(s: LightState)
    ensures Erased(IntoBytes(s)) <==> AllOnes(s)
  {
    var b := IntoBytes(s);
    IntoBytesLayout(s);
    if Erased(b) {
      assert b[0] == 0xFF && b[1] == 0xFF && b[2] == 0xFF && b[3] == 0xFF;
      assert b[4] == 0xFF && b[5] == 0xFF && b[6] == 0xFF && b[7] == 0xFF;
    }
    if AllOnes(s) {
      assert b == [0xFF, 0xFF, 0xFF, 0xFF, 0xFF, 0xFF, 0xFF, 0xFF];
    }
  }

  /**
   * A stored state reads back as itself, except a state with all four fields
   * 0xFFFF, which reads back as the default (and differs from it).
   */
  lemma StoredStateReadsBack(s: LightState)
    ensures AllOnes(s) ==> Decide(IntoBytes(s)) == DEFAULT != s
    ensures !AllOnes(s) ==> Decide(IntoBytes(s)) == s
  {
    ErasedIffAllOnes(s);
    FromIntoBytes(s);
  }

  /** The offset of the "userdata" partition, when the lookup succeeds. */
  function UserdataOffset(table: PartitionTable): nat
    requires Scan(table, NameIs(USERDATA)).Ok?
  {
    Scan(table, NameIs(USERDATA)).value.offset
  }

  /** The eight bytes at `offset` read and decided as `read_light_state` does. */
  method ReadLightStateAt(flash: array<u8>, offset: nat) returns (s: LightState)
    requires offset + LIGHT_STATE_LEN <= flash.Length
    ensures s == Decide(flash[offset..offset + LIGHT_STATE_LEN])
  {
    var buffer := new u8[LIGHT_STATE_LEN](_ => 0);
    Flash.Read(flash, offset, buffer);
    if Erased(buffer[..]) {
      return DEFAULT;
    }
    s := FromBytes(buffer[..]);
  }

  /** `read_light_state`: look up "userdata" and decide on its first eight bytes. */
  method ReadLightState(table: PartitionTable, flash: array<u8>) returns (s: LightState)
    requires Scan(table, NameIs(USERDATA)).Ok?
    requires UserdataOffset(table) + LIGHT_STATE_LEN <= flash.Length
    ensures s == Decide(flash[UserdataOffset(table)..UserdataOffset(table) + LIGHT_STATE_LEN])
  {
    var partition := FindPartitionName(table, USERDATA);
    s := ReadLightStateAt(flash, partition.value.offset);
  }

  /**
   * One turn of the storage task's loop, with the partition at `offset`
   * found before the loop. The read waits for a change: when nothing has
   * changed it stays pending and nothing is written. Otherwise the watcher
   * catches up (`skip`) and the current state is written over the first
   * eight bytes of the partition.
   */
  method StorageStep(value: ValueSynchronizer<LightState>, watcher: Watcher<LightState>,
                     flash: array<u8>, offset: nat, waker: WakerId)
    returns (wrote: bool)
    requires watcher.synchronizer == value && watcher.Valid()
    requires offset + LIGHT_STATE_LEN <= flash.Length
    modifies watcher, value`wakers, flash
    ensures watcher.Valid()
    ensures value.value == old(value.value) && value.counter == old(value.counter)
    ensures wrote <==> old(watcher.lastCounter) < value.counter
    ensures wrote ==> flash[..] == Flash.Splice(old(flash[..]), offset, IntoBytes(value.value))
                      && watcher.lastCounter == value.counter
    ensures !wrote ==> flash[..] == old(flash[..]) && value.wakers == old(value.wakers) + {waker}
  {
    var changed := watcher.Poll(waker);
    if changed.None? {
      return false;
    }
    watcher.Skip();
    var message := value.ReadClone();
    Flash.Write(flash, offset, IntoBytes(message));
    wrote := true;
  }

  /**
   * What the storage task writes, `read_light_state` reads back at the next
   * start, unless all four fields were 0xFFFF.
   */
  lemma {:induction false} WrittenStateReadsBack(flash: seq<u8>, offset: nat, s: LightState)
    requires offset + LIGHT_STATE_LEN <= |flash|
    ensures var after := Flash.Splice(flash, offset, IntoBytes(s));
            Decide(after[offset..offset + LIGHT_STATE_LEN]) == if AllOnes(s) then DEFAULT else s
  {
    StoredStateReadsBack(s);
  }
}
