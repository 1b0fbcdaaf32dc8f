# lightbringer firmware core in Dafny

This project models the core of the lightbringer lamp firmware and proves properties of the model. The firmware is written in Rust for the ESP32. The model has four parts.

- **Firmware update (OTA).**
  - The vendor CRC-32 (`esp_crc32`).
  - The 32-byte OTA descriptor and its state codes.
  - The two-copy descriptor store in the OTA data partition.
  - The unique-match partition lookup.
  - The update manager: `ota_begin`, `ota_accept`, `ota_reject`, `ota_valid` and `booted_ota_seq`.
- **The value synchronizer.** A shared light state with a version counter. Each watcher holds the counter value it last caught up with.
- **The consumers of the light state.**
  - Colour storage: reading the state from the "userdata" partition, and the storage task that writes it back.
  - The LED task: 16-bit fields become 12-bit PWM duties, and the light fades in at start.
- **Codecs.** The 8-byte light-state layout, and the legacy 10-byte WebSocket message.

How the source becomes Dafny:

- **Flash.** The flash is an `array<u8>`. Methods read it into buffers and write it in place, just as `FlashStorage` does. Pure specifications work on its contents, a `seq<u8>`. `Flash.Splice` describes one write.
- **Partition table.** The table is a sequence of entries. Each entry is either parsed or a storage error.
- **Image stream.** The `Read` stream that `ota_begin` copies from is the sequence of results its reads return. Reads past the end return zero bytes.
- **Panics.** `unwrap`, `assert!` and indexing panics become preconditions.
  - A failed partition lookup.
  - A flash range outside the flash.
  - An unknown state code in a descriptor.
  - A store where neither copy decodes, which `read_ota` cannot recover from.
  - `booted_ota_seq` seeing a sequence number of 16 or more.
- **Stateful types.** Types the source mutates through methods are classes: `ValueSynchronizer`, `Watcher` and the PWM `Channel`. Poll results are `Option`s.
- **Imperative code.** The loops of the source stay loops, proved against pure specification functions:
  - the copy loop of `ota_begin`;
  - the partition scan;
  - the CRC input buffer;
  - the fade-in.

Notes on the code as it stands:

- The update module re-exports `read_ota`/`write_ota`. These are `read_ota_data`/`write_ota_data` of `src/ota/ota_data.rs`. Their callers use the descriptor directly, so a corrupt store is an abort here.
- The sector size is 0x1000.
- `ota_begin` uses a fixed running slot: `booted_seq` is 1. The image therefore always goes to application slot 1, and the published descriptor has sequence number 2.
- There is no "already updating" error.
- The result of publishing the descriptor is discarded.
- `ota_data_part()` returns a bare entry. A failed lookup is an abort.
- The two `color_storage.rs` files share their decision and their loop body. They differ only in how they find the partition. The lightlib copy uses a foreign library, so there the partition offset is an input.

## Model

| member | source | states |
|---|---|---|
| Crc.EspCrc32 | src/ota/crc.rs:5-13 | Each input byte is complemented into a fresh 4-byte buffer, the engine runs over it, and its output is complemented. The result is `EspCrc` of the input. The input is only read. |
| Crc.Complement | src/ota/crc.rs:8-10 | Same length, and every byte plus its complement is 0xFF. |
| Crc.Checksum | src/ota/crc.rs:12-24 | The engine the parameter record configures: the register starts at `init`, takes each byte (bit-reversed under `refin`) and shifts in `poly` bit by bit, and is reflected under `refout` and XORed with `xorout` at the end. `CheckValue` and `EspCrcIsStandardCrc32` state what is proved about it. |
| Crc.CheckValue | src/ota/crc.rs:15-24 | With the standard CRC-32 parameters the engine gives the published check value 0xCBF43926 on "123456789". |
| Crc.EspCrcIsStandardCrc32 | src/ota/crc.rs:12-24 | `esp_crc32(b)` is the standard IEEE 802.3 CRC-32 of the complemented bytes. The trailing complement is that algorithm's final XOR with 0xFFFFFFFF. |
| OtaDataStructs.StateFromCode | src/ota/ota_data_structs.rs:22-35 | Succeeds exactly for the codes 0-4 and 0xFFFFFFFF. |
| OtaDataStructs.StateCode | src/ota/ota_data_structs.rs:37-48 | Every state's code is a known code and converts back to that state. |
| OtaDataStructs.StateCodeInverse | src/ota/ota_data_structs.rs:22-48 | Every known code is the code of the state it converts to. |
| OtaDataStructs.NewDescriptor | src/ota/ota_data_structs.rs:59-68 | State `New`, the given sequence number and label, and a checksum that matches the sequence number. |
| OtaDataStructs.Encode | src/ota/ota_data_structs.rs:102-111 | The encoding is 32 bytes. Its checksum is recomputed, and the lemmas below pin down its layout. |
| OtaDataStructs.Decode | src/ota/ota_data_structs.rs:81-100 | Succeeds exactly when bytes 28..32 hold `esp_crc32` of bytes 0..4. A successful result is consistent. An unknown state code is a precondition, because it panics. |
| OtaDataStructs.DecodeEncode | src/ota/ota_data_structs.rs:81-111 | Decoding an encoding gives the descriptor back, with its checksum replaced by the correct one. |
| OtaDataStructs.EncodeDecode | src/ota/ota_data_structs.rs:81-111 | Every image that decodes is the encoding of what it decodes to. |
| OtaDataStructs.LabelAndStateUnchecked | src/ota/ota_data_structs.rs:84-89 | Whether an image decodes depends only on bytes 0..4 and 28..32. Label and state are unprotected. |
| OtaDataStructs.EncodeIgnoresStoredCrc | src/ota/ota_data_structs.rs:102-111 | The checksum carried in the struct is never written. |
| Flash.Splice | src/ota/ota_data.rs:45 | A write keeps the flash length and puts the data at the offset. |
| Flash.SpliceOutside | src/ota/ota_data.rs:45 | A write changes no byte outside the range it covers. |
| Flash.SpliceAdjacent | src/ota/mod.rs:47-53 | Two writes back to back are one write of the joined data. |
| Flash.Read | src/ota/ota_data.rs:56 | The buffer ends up holding the flash bytes at the offset. |
| Flash.Write | src/ota/ota_data.rs:45 | The flash becomes `Splice` of its old contents. |
| Partitions.FindPartition | src/partitions.rs:27-40 | The loop returns the scan specification `Scan`. |
| Partitions.FindPartitionName | src/partitions.rs:24-41 | `Ok` exactly when every entry is readable and exactly one entry has the name, and then that entry. `PartitionNotFound` exactly when all are readable and none matches. |
| Partitions.FindPartitionType | src/partitions.rs:44-61 | The same, with equality of type as the predicate. |
| Partitions.MatchingSound | src/partitions.rs:31-33 | Every match satisfies the predicate and is an entry of the table. |
| Partitions.ScanFromOk | src/partitions.rs:27-40 | The scan succeeds exactly for a readable table with one match, and returns it. |
| Partitions.ScanFromNotFound | src/partitions.rs:40 | `PartitionNotFound` exactly when the table is readable and nothing matches. |
| Partitions.ScanFromStopsAtStorageError | src/partitions.rs:29-30 | A storage error before any second match is the result, even after a first match. |
| Partitions.ScanFromStopsAtSecondMatch | src/partitions.rs:32-36 | A second match before any storage error gives `PartitionFoundTwice`, whatever follows. |
| OtaPartition.UniqueIsOnlyMatch | src/ota/partition.rs:6-15 | A lookup by type succeeds exactly for a readable table with one entry of that type, and returns it. |
| OtaPartition.OtaDataPart | src/ota/partition.rs:6-8 | Returns the one `Data(Ota)` partition, the only match in the table. |
| OtaPartition.OtaPart | src/ota/partition.rs:11-15 | Returns the one `App(Ota(index))` partition, the only match in the table. |
| OtaData.CopyAt | src/ota/ota_data.rs:55-61 | A copy is the 32 bytes at `offset + sector * SECTOR_SIZE`. |
| OtaData.DecodeCopy | src/ota/ota_data.rs:57 | `Some` exactly when the copy decodes. Then the descriptor is consistent and re-encodes to the same bytes. |
| OtaData.Select | src/ota/ota_data.rs:9-23 | `Ok` exactly when some copy decodes, and then the one with the greater sequence number; a tie goes to copy 1. Otherwise `OtaDataCorrupt`. |
| OtaData.SelectedSector | src/ota/ota_data.rs:10-20 | Names the sector whose copy reading returns. |
| OtaData.TargetSector | src/ota/ota_data.rs:31-43 | Always the sector reading does not take when some copy decodes, and sector 0 when neither does. |
| OtaData.StoreWrite | src/ota/ota_data.rs:26-47 | The target copy becomes the encoding, the other copy is untouched, and the store stays readable. |
| OtaData.WriteKeepsSelectedCopy | src/ota/ota_data.rs:10-45 | A write never overwrites the copy reading returned. |
| OtaData.ReadAfterWrite | src/ota/ota_data.rs:9-47 | After a write, reading returns the written descriptor exactly when the untouched copy is corrupt, older, or ties and lies in sector 0. Otherwise it returns the untouched copy. |
| OtaData.WriteOverCurrent | src/ota/ota_data.rs:9-47 | The same, relative to the descriptor in use before the write. |
| OtaData.StoreWriteFrame | src/ota/ota_data.rs:45 | A write changes no byte outside the 32 bytes of the target copy. |
| OtaData.StoreWriteElsewhere | src/ota/ota_data.rs:45 | Every range clear of the descriptor area is unchanged. |
| OtaData.StoreUnchangedElsewhere | src/ota/mod.rs:47-52 | A flash write clear of the descriptor area leaves both copies as they were. |
| OtaData.DataSurvivesStoreWrite | src/ota/mod.rs:47-58 | Data written clear of the store survives a later store write. |
| OtaData.ReadOtaDataBoth | src/ota/ota_data.rs:50-64 | Reads both copies through one reused buffer. Each is decoded, or `None`. |
| OtaData.ReadOtaData | src/ota/ota_data.rs:9-23 | Returns `StoreRead` of the flash. |
| OtaData.WriteOtaData | src/ota/ota_data.rs:26-47 | The flash becomes `StoreWrite` of its old contents. |
| Ota.OtaValid | src/ota/mod.rs:85-92 | True exactly when the descriptor in use is `Valid` or `Undefined`. |
| Ota.BootedOtaSeq | src/ota/partition.rs:18-23 | The sequence number in use, below 16. |
| Ota.OtaAccept | src/ota/mod.rs:68-72 | The descriptor in use, with state `Valid`, is written back through the store. |
| Ota.OtaReject | src/ota/mod.rs:78-82 | The descriptor in use, with state `Invalid`, is written back through the store. |
| Ota.MarkEffect | src/ota/mod.rs:68-82 | The rewrite keeps sequence number and label. Afterwards reading returns the rewrite when the descriptor in use lay in sector 0. When it lay in sector 1, reading returns the old descriptor unchanged, which equals the rewrite only when the state did not change. |
| Ota.AcceptVisibleIff | src/ota/mod.rs:68-92 | After `ota_accept`, `ota_valid` holds exactly when the descriptor in use lay in sector 0 or was already accepted. |
| Ota.RejectVisibleIff | src/ota/mod.rs:78-92 | After `ota_reject`, `ota_valid` holds exactly when the descriptor lay in sector 1 and was accepted before. |
| Ota.AcceptLostInSectorOne | src/ota/mod.rs:68-72 | An unaccepted descriptor in sector 1 stays unaccepted after `ota_accept`. |
| Ota.FixedStoreWrite | src/ota/ota_data.rs:26-47 | The corrected store write keeps the store readable. |
| Ota.FixedChoice | src/ota/ota_data.rs:9-43 | The corrected choice of sector: a descriptor with the sequence number in use replaces the copy in use, any other goes to the other sector. Reading then returns the written descriptor whenever its sequence number is not lower. |
| Ota.FixedReadAfterWrite | src/ota/ota_data.rs:9-47 | With the corrected write, reading returns the written descriptor whenever its sequence number is not lower, or the store was corrupt. |
| Ota.FixedAcceptIsVisible | src/ota/mod.rs:68-72 | With the corrected write, `ota_accept` always makes `ota_valid` true and keeps the sequence number. |
| Ota.NewLabel | src/ota/mod.rs:57 | The label of a published descriptor is twenty bytes 0xED. |
| Ota.UpdateDescriptor | src/ota/mod.rs:57 | The published descriptor has sequence number 2, state `New` and a correct checksum. |
| Ota.Fitting | src/ota/mod.rs:38-54 | The bytes copied into the slot: a prefix of the image, never more than the slot, and the whole image exactly when it fits. |
| Ota.ReadChunk | src/ota/mod.rs:38 | One read: past the end 0 bytes, an error as that error, otherwise the chunk in the buffer. |
| Ota.CopyImage | src/ota/mod.rs:34-54 | The chunks are written back to back from the slot start up to the first that would overflow. The result is true exactly when the whole image fits. |
| Ota.FlashAfterUpdate | src/ota/mod.rs:47-58 | After a finished update the slot starts with the image, and the flash keeps its length. |
| Ota.OtaBegin | src/ota/mod.rs:23-61 | Three outcomes. Not accepted: `PendingVerify`, and the flash is unchanged. Image too large: `OutOfSpace`, only the fitting chunks are written, and no descriptor is published. Otherwise: the image is copied, then the new descriptor is published. |
| Ota.UpdatePublishes | src/ota/mod.rs:56-59 | After an update the new descriptor is the one in use exactly when the old one had a lower sequence number, or sequence 2 in sector 0. |
| Ota.SameCopiesSameStore | src/ota/ota_data.rs:50-64 | Equal copy bytes give equal reads and equal write targets. |
| Ota.OutOfSpaceKeepsDescriptor | src/ota/mod.rs:43-45 | An update refused for lack of space leaves the descriptor in use unchanged. |
| Ota.ReadErrorSwallowed | src/ota/mod.rs:38-41 | A stream of one byte and then an error ends with success, and the one-byte image is published. |
| Ota.FixedBeginResult | src/ota/mod.rs:38-41 | Corrected result: success only when no read error ended the copy. It is success or `ReadError` exactly when accepted and the image fits. |
| Ota.FixedFlashAfterBegin | src/ota/mod.rs:38-58 | Corrected flash effect: the same writes as the original, except that a copy ended by a read error publishes no descriptor. The flash keeps its length. |
| Ota.FixedBeginPublishesOnlyOnSuccess | src/ota/mod.rs:38-60 | With the correction, every error result, `ReadError` included, leaves the store readable and the descriptor in use unchanged. |
| Ota.FixedBeginReportsReadError | src/ota/mod.rs:38-60 | The corrected result differs from the as-written one only when a read error ended the copy, and there it is that error. |
| Synchronizer.ValueSynchronizer.constructor | src/value_synchronizer.rs:21-27 | The given value, counter 0, no wakers. |
| Synchronizer.ValueSynchronizer.Read | src/value_synchronizer.rs:30-32 | `f` of the current value. Nothing changes. |
| Synchronizer.ValueSynchronizer.ReadClone | src/value_synchronizer.rs:34-39 | The current value. Nothing changes. |
| Synchronizer.ValueSynchronizer.Update | src/value_synchronizer.rs:41-48 | The value becomes `f` of the old one, the counter goes up by exactly one, and all registered wakers are woken. |
| Synchronizer.ValueSynchronizer.Write | src/value_synchronizer.rs:50-52 | The value becomes `v`, and the counter goes up by exactly one. |
| Synchronizer.ValueSynchronizer.Watch | src/value_synchronizer.rs:54-59 | A new watcher on this synchronizer, caught up with the current counter. |
| Synchronizer.Watcher.Skip | src/value_synchronizer.rs:79-81 | The watcher catches up with the counter. |
| Synchronizer.Watcher.Poll | src/value_synchronizer.rs:115-126 | The current value exactly when the counter moved since the watcher last caught up, and the watcher then catches up. Otherwise pending, with the waker registered. Value and counter never change. |
| Synchronizer.WatchThenPoll | src/value_synchronizer.rs:54-59 | A read right after `watch` is pending. |
| Synchronizer.UpdateThenPoll | src/value_synchronizer.rs:41-48 | No update is missed: the next read after an update returns the updated value. |
| Synchronizer.WritesCoalesce | src/value_synchronizer.rs:118-120 | Two writes without a read between them give one read with the later value, then pending. |
| Synchronizer.SkipThenPoll | src/value_synchronizer.rs:79-81 | After `skip` a read is pending until the next update. |
| LightStates.FromBytes | src/light_state.rs:23-30 | Total on 8-byte buffers: each field is the value whose little-endian encoding is its two bytes. `FromIntoBytes` and `IntoFromBytes` prove that it inverts `IntoBytes` both ways. |
| LightStates.IntoBytes | src/light_state.rs:32-38 | The encoding is `LIGHT_STATE_LEN` = 8 bytes. |
| LightStates.IntoBytesLayout | src/light_state.rs:32-38 | cold, warm, x and y are at bytes 0..2, 2..4, 4..6 and 6..8, little-endian. |
| LightStates.FromIntoBytes | src/light_state.rs:23-38 | Decoding an encoded state gives it back. |
| LightStates.IntoFromBytes | src/light_state.rs:23-38 | Encoding a decoded 8-byte buffer gives it back, so decoding is total and injective. |
| ColorStorage.Decide | src/color_storage.rs:21-27 | Erased bytes give the default state. Any other bytes give the state whose encoding they are. |
| ColorStorage.ErasedIffAllOnes | src/color_storage.rs:21-25 | A stored state looks erased exactly when all four fields are 0xFFFF. |
| ColorStorage.StoredStateReadsBack | src/color_storage.rs:21-27 | A stored state reads back as itself. An all-0xFFFF state is the exception: it reads back as the default, which differs from it. |
| ColorStorage.ReadLightStateAt | src/color_storage.rs:18-27 | Reads eight bytes at the partition offset and returns `Decide` of them. The lightlib copy (lightlib/src/color_storage.rs:17-26) makes the same decision. |
| ColorStorage.ReadLightState | src/color_storage.rs:14-28 | Looks up "userdata" and decides on its first eight bytes. |
| ColorStorage.StorageStep | src/color_storage.rs:42-51 | Writes only after a change. It then catches up and writes the current state's encoding over the partition start. Otherwise nothing is written. The lightlib copy (lightlib/src/color_storage.rs:43-54) has the same loop body. |
| ColorStorage.WrittenStateReadsBack | src/color_storage.rs:14-49 | What the storage task writes, `read_light_state` reads back. An all-0xFFFF state reads back as the default. |
| Leds.PwmFrequency | src/leds.rs:45 | `80_000_000 >> 12` is 19531 Hz, the clock over 4096 rounded down. |
| Leds.Duty | src/leds.rs:80-81 | `(field << 12) >> 16` never overflows `u32`. It equals `field / 16`, below 4096. |
| Leds.ColorDuties | src/leds.rs:97-98 | Red comes from `warm` and blue from `cold`, each `field / 16`. |
| Leds.FadeDuty | src/leds.rs:88-89 | `duty * i` never overflows. The step duty is at most the target, and equal to it at step 100. |
| Leds.FadeMonotone | src/leds.rs:86-90 | The fade never dims from one step to a later one. |
| Leds.LedTaskStart | src/leds.rs:76-90 | Watches, takes the current value, and sets the step duties for i = 1..100. They are non-decreasing, never above the target, and the channels end at the target. |
| Leds.LedStep | src/leds.rs:94-101 | After a change both channels are set from the new value. Otherwise they keep their duty. |
| Http.FromBytes | src/http.rs:62-71 | Total on 10 bytes. `save` holds exactly when bytes 0..2 are not both zero. |
| Http.IntoBytes | src/http.rs:74-82 | 10 bytes: byte 0 is 0 and byte 1 is the save flag. |
| Http.BigEndianReadLittle | src/http.rs:65-79 | A field written big-endian and read little-endian comes back byte-swapped. |
| Http.FromIntoSwaps | src/http.rs:62-82 | Decoding an encoded message keeps `save` and swaps the bytes of every field. |
| Http.RoundTripIff | src/http.rs:62-82 | The encoding round-trips exactly for messages whose fields are byte-palindromes. |
| Http.NotARoundTrip | src/http.rs:62-82 | `cold == 1` comes back as 0x100. |

## Left out

- Flash driver errors are not modelled. The `?` and `unwrap` on flash reads and writes are preconditions that the accessed range lies inside the flash.
- Ota.OtaBegin: does not model the `u32`/`usize` wrap-around of `offset + data_written`. It requires the slot to lie inside the flash and clear of the two descriptor copies (`SlotUsable`).
- Ota.OtaBegin: the image stream is a sequence of read results. Each read delivers at most the 0x1000-byte buffer, and reads past the end deliver 0 bytes. Async suspension inside `read` is not modelled.
- Ota.OtaBegin: the result of publishing the descriptor is discarded by the code. Its only failures are panics here, so no `InternalError` is ever produced.
- Synchronizer.Watcher.Poll: the waker registration is an unbounded set. `MultiWakerRegistration`'s capacity and its behaviour when full are not modelled, and waking is only the emptying of the set.
- Synchronizer.ValueSynchronizer.Update: the counter is a `nat`, so `usize` wrap-around is not modelled. The mutex and `RefCell` only serialise access and are left out.
- ColorStorage.StorageStep: one turn of the task's endless loop. Interleaving with other tasks, the five-second delay and the log line are left out. The partition lookup before the loop is `ReadLightState`'s lookup.
- ColorStorage.ReadLightStateAt: in the lightlib copy the partition comes from a foreign library, `esp_ota_nostd`, so the offset is an input. Its failure is a panic and is not modelled.
- Leds.LedTaskStart: the LEDC peripheral is reduced to the last duty set on each channel. Pin and timer configuration, the start-up and per-step delays, and the log lines are left out.
- Crc.EspCrc32: the `crc` crate is modelled only through the parameters it is given, as a bitwise engine. Table-driven computation is not modelled.
- The partition table's own parsing (`esp_partition_table`) is not modelled. The table is an input sequence of parsed entries and storage errors.
- The superseded single-file update module `src/ota.rs` is not part of this model. It conflicts with the `src/ota/` module and does not compile.
- Not part of this model, because they are network, Wi-Fi, time, logging or start-up code:
  - the WebSocket and HTTP glue (`ColorHandler`, `web_task`, the `web_app.rs` files, lightlib's `http.rs`);
  - `wifi.rs`, `time.rs`, `rotating_logger.rs`;
  - the `main.rs` files and `lib.rs`.

## Findings

| source | as written | input that shows it | evidently intended | confidence | as-written member | corrected member |
|---|---|---|---|---|---|---|
| src/ota/mod.rs:38-41 | The copy loop's `while let Ok` ends on a read error as on end of stream. `ota_begin` then publishes the partial image as the new firmware and returns `Ok`. | A stream that delivers one byte and then a read error. | Report `ReadError` and publish nothing, as the error type and the comment at line 39 say. `FixedFlashAfterBegin` is the corrected flash effect, and `FixedBeginPublishesOnlyOnSuccess` proves that no error publishes. | high, not executed | Ota.ReadErrorSwallowed | Ota.FixedBeginResult |
| src/ota/ota_data.rs:31-43 | `ota_accept` rewrites the descriptor in use with its own sequence number. The write goes to the sector reading does not take, and reading gives ties to sector 1. When the descriptor in use lies in sector 1, the accepted copy lands in sector 0 and is never read. | Copy 0: sequence 1, `Valid`. Copy 1: sequence 2, `PendingVerify`. This is the store after the first update has been published into sector 1 and booted. `ota_accept` writes sequence 2 `Valid` into sector 0, and `ota_valid` stays false. | A rewrite with the sequence number in use replaces the copy in use, so that acceptance is visible. The trade-off: for such rewrites the fix gives up what `OtaData.WriteKeepsSelectedCopy` guarantees for the original, namely that an interrupted write leaves the copy in use intact. A power loss during the rewrite can then leave the store with only the older copy. | high, not executed | Ota.AcceptLostInSectorOne | Ota.FixedAcceptIsVisible |

`Ota.OtaBegin` and `Ota.OtaAccept` model the code as written. The corrected definitions stand beside them: `FixedBeginResult` and `FixedFlashAfterBegin` for the update result and its flash effect, and `FixedTargetSector`/`FixedStoreWrite` for the store write. The intended properties are proved about them: `FixedBeginReportsReadError`, `FixedBeginPublishesOnlyOnSuccess`, `FixedReadAfterWrite` and `FixedAcceptIsVisible`.
