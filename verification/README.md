# Verified models of FlashDB, the durable writer and the cache protocols

Dafny models of the stateful parts of this repository, each proved against a specification that can be
read without the code.

* **FlashDB key-value store** (`KvFlash`, `KvStore`, `KvIterate`, `KvRecovery`, `KvRetry`,
  `KvCache`, `KvSectorCache`, `KvCached`, `KvGap`). Flash is a ring of sectors, each a header and the
  records behind it. The methods of `Kvdb` work in place on it; `contents` is the map they stand for;
  `CachedKvdb` is the same store with both caches. Main results: set, delete, get and iterate act on that
  map even when garbage is collected inside the call, with and without caches; collection never fails to
  move a live record; what loading makes of power loss at any point of a set, its collections and second
  scan included; and when the walk of a sector finds its end, exactly.
* **FlashDB time series** (`TsFlash`, `TsStore`, `TsDb`, `TsQuery`, `TsRestart`). Slots grow up, blobs
  grow down, sectors roll over. Main results: the retained log is the history without whole oldest
  sectors, both iterators and the forward time query are exact on it, and opening the store again gives
  back what was in memory.
* **FlashDB utilities** (`StatusTable`, `ErasedFlash`, `Crc32`, `RecordBytes`). Status bytes that only
  lose bits, the erased tail, the table-driven checksum against the bitwise one of section 8 of RFC 1952,
  and the bytes of a record from writing to reading.
* **Durable writer** (`WriterTables`, `WriterInvariant`, `WriteEngine`, `Batching`, `Pipeline`). The
  SQLite tables are maps and a sequence behind atomic transactions. Main results: which commands are
  applied and what each writes; the tables are a function of the commands in the order first committed,
  whatever is redelivered; the outbox rebuilds the payload table; commands wait in memory only while
  their batch is not full and its interval not over; over every run with crashes and redelivery an
  acknowledgement follows the commit.
* **Outbox publisher** (`PublishTracking`, `Publisher`, `PublisherRun`). Two threads, the client's
  requests and packet ids, and the notes the event loop has not read yet. Main results: new rows that
  the client accepts are handed over once each, in order, and a row is marked as published only if the
  broker acknowledged that very row.
* **Store migrator** (`MigratePlan`, `MigrateMerge`, `MigrateOutbox`, `MigrateSplit`, `MigrateReplay`).
  Main results: the merge is last-writer-wins and does not depend on the order of sources; in every
  destination, and over every run of commands from there, the rows match their history; tables and log
  of a destination tell the same exactly if versions follow event ids, while its envelopes stay as they
  were; and a split store decides as before, exactly unless an idempotency key crosses parts.
* **Event stream** (`EventStream`) and **cache socket** (`CacheText`, `CacheProtocol`): what a subscription
  sends and what cuts it off, resuming without gap or repetition, what an accepted cursor is worth once
  rows were deleted, and requests that are read back as they were written.

`Options` and `SectorRing` hold what several models share. `dafny verify dfyconfig.toml` checks
everything.

## Reading the models

* Constants are those of a write granularity of one bit: record header 24 bytes, sector header 16, names
  of at most 64 bytes, allocation slack 88; in the time series store sector header 32 and index slot 16.
* Flash operations do not fail and each write is atomic. A record is a status, a name, a value and
  whether its length and checksum are in order; `Rec.Len` is the space it takes. `Stray` is a status
  byte behind other records with no header, which walks do not see.
* `KvStore`, `KvRecovery` and `KvRetry` take the space left in a sector for what a walk of it finds.
  `KvCached` asks for that where it allocates (`Reliable`) and says what keeps it;
  `KvSectorCache.WalkExactIff` and `KvGap` say when it fails. About bytes on flash only `Shows` is assumed:
  erased behind the records, the last byte is the last record's, and no magic words but those of the
  records and those that `magic` tells of.
* A phantom is a magic word behind the beginning of a record whose checksum fails, where the search for the
  next record takes it for a header. `Heal` is the flash with a half-deleted record brought back and an
  unfinished one marked.
* A row of the outbox has its own id and store; the event in it is the stored envelope, which carries both
  again. The event stream takes them from the row.
* `KvFlash.Copies` counts live records; `Abstracts(m, fl)` says that the map `m` is what the counts show.
  `read_kv` cuts a 64-byte name, so only shorter names (`Visible`) are in the map.
* The status FULL and the collection request after a create cannot arise in the key-value store, because
  the allocator asks for more slack than the status test does; `Kvdb` models both all the same.
* Event ids and times come from `stamp`, a function of the row number. SHA-256 digests are taken to be
  injective, the migrator's hash is a parameter, versions are below 2^63, and one database file serves one
  store, as the writer sets it up.
* `Decided` (the tables settle what becomes of a command) is a property of the tables alone, so it can be
  asked after a crash.
* In the step systems an action may happen whenever it is enabled; acknowledgements under way may be lost,
  the broker may deliver again whatever is not acknowledged, and a crash drops everything but the broker
  and the disk.
* In `PublisherRun` the client gives a new publish a packet id that is not in use and retransmits under
  the old id, as MQTT 3.1.1 section 2.3.1 asks.
* A socket stream is a sequence of characters in which each byte of a value counts as one. Keys are not
  empty and hold no white space.

Where code and comments disagree the models follow the code: `_fdb_kv_load` is meant to repair every
interrupted set, but its scan stops at the first unfinished record, and its retries may have no end
(`KvRetry.Load`); `_fdb_continue_ff_addr` is meant to find the clean end of a sector, but takes a last byte
of 0xFF for erased (`KvGap.LostByte`); `find_next_kv_addr` is meant to skip an unfinished record, but takes
a magic word in its name for the next one (`KvGap.MagicNameMisleads`); the cursor check is meant to tell a subscriber that rows
are gone, but does not look at cursor 0 or at holes (`EventStream.AcceptedIsComplete`); a migrated outbox
is meant to be the history, but comes in the order of random ids (`MigrateReplay.MigratedLogIff`) and in
envelopes that keep the old store and sequence number (`MigrateReplay.EnvelopesIff`); and
`delete_by_store` is meant for one store (`CacheProtocol.DeleteByStoreReaches`).

## Model

| member | source | states |
|---|---|---|
| `KvStore.Kvdb.AllocKv` | spike/flashdb-ffi/src/fdb_kvdb.c:898-938 | the sector found is the first in ring order that has room, sectors in use before empty ones, the last empty sector only during a collection; None means no sector qualifies; a miss with one empty sector left requests a collection |
| `KvStore.Kvdb.FindKv` | spike/flashdb-ffi/src/fdb_kvdb.c:528-583 | finds a live record of the key if there is one on flash, and reports a miss only if no record anywhere matches |
| `KvStore.Kvdb.Get` | spike/flashdb-ffi/src/fdb_kvdb.c:622-645 | the value the map holds, cut to the buffer, and its full length; nothing for a missing key |
| `KvStore.LookupAgrees` | spike/flashdb-ffi/src/fdb_kvdb.c:559-583 | a record that a scan accepts carries the value of the abstract map |
| `KvStore.LookupMisses` | spike/flashdb-ffi/src/fdb_kvdb.c:559-583 | a scan without a hit means the key is not in the map |
| `KvStore.OneRecordPerName` | spike/flashdb-ffi/src/fdb_kvdb.c:559-583 | no two live records carry the same name |
| `KvStore.Kvdb.DelKv` | spike/flashdb-ffi/src/fdb_kvdb.c:940-1001 | exactly two writes in this order: the record status, and the dirty mark of a sector that was clean |
| `KvStore.Kvdb.Del` | spike/flashdb-ffi/src/fdb_kvdb.c:1275-1293 | removes the key from the map, answers KV_NAME_ERR exactly when it was not there, and keeps the invariant of the store |
| `KvStore.DeleteAbstracts` | spike/flashdb-ffi/src/fdb_kvdb.c:940-1001 | completing the deletion of a live record removes exactly its name from the map |
| `KvStore.Kvdb.MoveKv` | spike/flashdb-ffi/src/fdb_kvdb.c:1006-1067 | either the copy is programmed where the allocator found room and the source is deleted, or SAVED_FULL leaves the record marked; in recovery nothing is copied when the new record is already there |
| `KvStore.MoveCopies` | spike/flashdb-ffi/src/fdb_kvdb.c:1006-1067 | moving a live record changes no count of live copies; moving a half-deleted one brings it back |
| `KvStore.FindsHome` | spike/flashdb-ffi/src/fdb_kvdb.c:1112-1151 | while a dirty sector is collected, the allocator never fails for one of its live records: they all fit into the one empty sector |
| `KvStore.AfterMove` | spike/flashdb-ffi/src/fdb_kvdb.c:1112-1151 | so move_kv succeeds for each record of the collection and the collection invariant (live records unchanged, garbage only in the source sector, enough space in the spare one) holds for the next |
| `KvStore.FinishCollecting` | spike/flashdb-ffi/src/fdb_kvdb.c:1112-1136 | erasing the source sector then destroys no live record and the number of empty sectors has not dropped |
| `KvStore.Kvdb.DoGc` | spike/flashdb-ffi/src/fdb_kvdb.c:1112-1151 | collecting a sector keeps all live records, formats the sector, leaves the other sectors' records in place and does not lower the number of empty sectors |
| `KvStore.Kvdb.GcCollect` | spike/flashdb-ffi/src/fdb_kvdb.c:1153-1171 | a whole collection keeps the map and the empty sectors; with more than one empty sector it does nothing; asked for more space than a sector has, it leaves no garbage |
| `KvStore.Kvdb.NewKv` | spike/flashdb-ffi/src/fdb_kvdb.c:1069-1089 | an address that alloc_kv grants, after at most one collection that keeps the map; none if and only if no sector has room even then |
| `KvStore.Kvdb.CreateKv` | spike/flashdb-ffi/src/fdb_kvdb.c:1184-1265 | a complete record behind the others of the sector, written in six steps that are named one by one, or NAME_ERR / SAVED_FULL and no write at all |
| `KvStore.Kvdb.WriteReplacement` | spike/flashdb-ffi/src/fdb_kvdb.c:1304-1320 | the flash passes through the ten states of a crash in set_kv, in order, and no others |
| `KvStore.ReplaceAbstracts` | spike/flashdb-ffi/src/fdb_kvdb.c:1295-1320 | marking, creating and deleting together replace the value of exactly one name |
| `KvStore.Kvdb.Set` | spike/flashdb-ffi/src/fdb_kvdb.c:1295-1327 | the map is updated at the key on success and unchanged otherwise, also when a collection runs inside; SAVED_FULL never while a sector in use has 88 bytes more than the record takes, always when no sector has room and nothing is dirty, and otherwise only when no sector has room after the collection; if then collecting more would help, some sector's free space lies in the slack between what stops a collection and what the allocator asks for; the invariant holds again |
| `KvIterate.KvIterator.Next` | spike/flashdb-ffi/src/fdb_kvdb.c:1860-1896 | steps to the next live record in ring order and answers false only when none is left |
| `KvIterate.ListAll` | spike/flashdb-ffi/src/fdb_kvdb.c:1838-1896 | iterating to the end gives the listing of the live records |
| `KvIterate.ListingIsExact` | spike/flashdb-ffi/src/fdb_kvdb.c:1860-1896 | the iterator returns every pair as often as it is live on flash |
| `KvIterate.ListingIsTheMap` | spike/flashdb-ffi/src/fdb_kvdb.c:1860-1896 | for every name a lookup can see: once with the value of the map, and never with another |
| `KvStore.CrashCoversSet` | spike/flashdb-ffi/src/fdb_kvdb.c:1295-1320 | the ten crash points begin with the untouched flash and end with what an uninterrupted set_kv writes |
| `KvRecovery.RecoverRecord` | spike/flashdb-ffi/src/fdb_kvdb.c:1595-1623 | one callback of the recovery scan: a half-deleted record is moved, or found to have no room anywhere and nothing is written; a PRE_WRITE record is marked and stops the scan |
| `KvRecovery.RecoverKvs` | spike/flashdb-ffi/src/fdb_kvdb.c:1595-1623 | how the scan round the ring ends: at the end, at the first unfinished record, or at a half-deleted record without room before it |
| `KvRecovery.InterruptedRepairable` | spike/flashdb-ffi/src/fdb_kvdb.c:1295-1320 | power loss between any two writes leaves one half-deleted and one unfinished record at most, everything else intact, and an empty sector |
| `KvRecovery.InterruptedKeepsOld` | spike/flashdb-ffi/src/fdb_kvdb.c:1295-1320 | until the last write the old value is still on flash as WRITE or PRE_DELETE, or the new one is complete |
| `KvRecovery.LoadAfterCrash` | spike/flashdb-ffi/src/fdb_kvdb.c:1630-1662 | after power loss at any point of set_kv, up to the end of the first scan: if it meets the unfinished record before the half-deleted one, the key is hidden; if not, and no sector has room for the old record, exactly then the flash stays as it was and a collection is requested; in all other cases, and in no other, the store is valid, with the old or the new value |
| `KvRecovery.ScanFailsIff` | spike/flashdb-ffi/src/fdb_kvdb.c:1600-1611 | the scan gives up for want of room if and only if the allocator finds no sector for the old record and the scan gets to it |
| `KvRecovery.RecoveryCanHideAKey` | spike/flashdb-ffi/src/fdb_kvdb.c:1608-1616 | a store that three calls of set_kv leave and a crash after which every scan hides the key |
| `KvRecovery.ExampleIsWritten` | spike/flashdb-ffi/src/fdb_kvdb.c:915-938 | that the allocator puts the records of this store where they are |
| `KvRecovery.RecoveryCanStick` | spike/flashdb-ffi/src/fdb_kvdb.c:1652-1660 | a store with one spare sector in which the scan finds no room wherever power is lost, and after the first write no dirty sector either |
| `KvRetry.AfterRetryMove` | spike/flashdb-ffi/src/fdb_kvdb.c:1112-1136 | each record that such a collection moves is, on the healed flash, a move of an ordinary collection or one more record of garbage |
| `KvRetry.RetryGc` | spike/flashdb-ffi/src/fdb_kvdb.c:1178-1181 | a collection while a record is half deleted leaves every sector clean and keeps the live records of the healed flash; the half-deleted record is gone from its place if and only if its sector was dirty |
| `KvRetry.Retry` | spike/flashdb-ffi/src/fdb_kvdb.c:1652-1658 | one collection and one scan more: the store is restored unless the half-deleted record lies in a clean sector and still finds no room, and doing it again in that state changes nothing |
| `KvRetry.Load` | spike/flashdb-ffi/src/fdb_kvdb.c:1630-1663 | the whole of loading after power loss at any point of set_kv: the store is valid with the old or the new value, except that the key is hidden if the unfinished record is met first, and that the retries have no end only if power was lost after the first write, the sector of the old record was clean, and collecting every dirty sector made no room |
| `KvRetry.LoadingCanStick` | spike/flashdb-ffi/src/fdb_kvdb.c:1652-1658 | if power is lost there after the first write, loading does not end: collecting and scanning find the store as they leave it |
| `KvCache.NameCache.Update` | spike/flashdb-ffi/src/fdb_kvdb.c:207-246 | afterwards the address (or none) is what the table gives for the name's checksum, all entries but one are what they were, and no other entry points anywhere new |
| `KvCache.NameCache.Lookup` | spike/flashdb-ffi/src/fdb_kvdb.c:251-273 | the first used entry with the checksum whose bytes on flash start with the name |
| `KvCache.CoherentAfter` | spike/flashdb-ffi/src/fdb_kvdb.c:207-246 | entries keep pointing at live records of their checksum whatever record comes or goes, because the entry of that checksum is refreshed |
| `KvCache.NameCache.AfterSet` | spike/flashdb-ffi/src/fdb_kvdb.c:1295-1320 | the cache stays coherent over set_kv: the deletion that completes a replacement leaves the new entry alone |
| `KvCache.NameCache.AfterMove` | spike/flashdb-ffi/src/fdb_kvdb.c:1006-1067 | the cache stays coherent when collection moves a record |
| `KvCache.NameCache.AfterDelete` | spike/flashdb-ffi/src/fdb_kvdb.c:962-983 | the cache stays coherent when a key is deleted |
| `KvCache.FormatKeepsCoherent` | spike/flashdb-ffi/src/fdb_kvdb.c:769-825 | erasing a sector without live records leaves no stale entry |
| `KvCache.LongNameOnlyCached` | spike/flashdb-ffi/src/fdb_kvdb.c:251-273 | a name of FDB_KV_NAME_MAX bytes is found through the cache and by no scan |
| `KvSectorCache.SectorCache.ReadSectorInfo` | spike/flashdb-ffi/src/fdb_kvdb.c:416-502 | what is known from the cache, or walked in a sector whose end the walk finds, is what the sector is; otherwise the address is wrong |
| `KvSectorCache.SectorCache.Walk` | spike/flashdb-ffi/src/fdb_kvdb.c:452-489 | the sum of the record lengths up to a broken one, with the header of every phantom that a magic word behind a failed checksum makes and without stray bytes, moved on to where the erased run behind it begins, and the space left |
| `KvSectorCache.WalkExactIff` | spike/flashdb-ffi/src/fdb_kvdb.c:455-486 | the walked address lies behind everything in the sector if and only if phantoms take what stray bytes lack, or they take less and the last byte is not 0xFF; otherwise it lies inside the last record, or exactly as far behind as phantoms outweigh stray bytes |
| `KvSectorCache.NoZeroNoLength` | spike/flashdb-ffi/src/fdb_kvdb.c:360-369 | in a database of less than 16 MB four bytes of a name or of erased flash are no length, so that read_kv takes a phantom for a header |
| `KvGap.StrayIff` | spike/flashdb-ffi/src/fdb_kvdb.c:755-767 | power loss leaves a stray byte in exactly one place: behind the status byte of a new record, in a sector that holds others |
| `KvGap.NextIsBehind` | spike/flashdb-ffi/src/fdb_kvdb.c:280-313 | the next record of that sector goes behind the stray byte, which stays in the layout |
| `KvGap.LostByte` | spike/flashdb-ffi/src/fdb_kvdb.c:474-486 | if that record ends in 0xFF the walk after a restart comes out one byte short, and the next status write makes its checksum fail |
| `KvGap.GapExample` | spike/flashdb-ffi/src/fdb_kvdb.c:474-486 | a store, a crash and a set for which this happens |
| `KvGap.MagicNameMisleads` | spike/flashdb-ffi/src/fdb_kvdb.c:313-345 | power loss between the name and the value of a record whose name holds the magic word: the walk ends at least 24 bytes behind the free address, or at the end of the sector |
| `KvSectorCache.SectorCache.AfterRecord` | spike/flashdb-ffi/src/fdb_kvdb.c:190-197 | the cached empty address follows a record that is written |
| `KvSectorCache.SectorCache.AfterStore` | spike/flashdb-ffi/src/fdb_kvdb.c:199-205 | the cached status follows when an empty sector comes into use |
| `KvSectorCache.SectorCache.AfterDelete` | spike/flashdb-ffi/src/fdb_kvdb.c:985-999 | the cached dirty mark follows a deletion |
| `KvSectorCache.SameAllocation` | spike/flashdb-ffi/src/fdb_kvdb.c:898-913 | the test of alloc_kv comes out the same on cached information as on flash, although a collection marks its sector on flash only |
| `KvCached.CachedKvdb.AllocKv` | spike/flashdb-ffi/src/fdb_kvdb.c:915-938 | alloc_kv on the sector cache gives the sector it would give on flash, and the address behind its records |
| `KvCached.CachedKvdb.FindKv` | spike/flashdb-ffi/src/fdb_kvdb.c:585-607 | find_kv through both caches meets the specification of the scan, provided no other live name shares the 16-bit checksum |
| `KvCached.CachedKvdb.MoveKv` | spike/flashdb-ffi/src/fdb_kvdb.c:1006-1067 | moving a record during a collection has the outcome it has without caches, and both caches tell the truth afterwards |
| `KvCached.CachedKvdb.GcCollect` | spike/flashdb-ffi/src/fdb_kvdb.c:1153-1171 | a whole collection through the caches keeps the live records and the truth of both caches |
| `KvCached.CachedKvdb.Get` | spike/flashdb-ffi/src/fdb_kvdb.c:622-645 | the answer of the store with caches is that of the map, whatever walks would find |
| `KvCached.CachedKvdb.Set` | spike/flashdb-ffi/src/fdb_kvdb.c:1295-1327 | set with both caches updates the same map in the same way, collections inside included, and leaves both caches telling the truth; walks go on finding the ends of sectors unless the value ends in 0xFF and there is room for it behind a stray byte |
| `KvCached.CachedKvdb.Del` | spike/flashdb-ffi/src/fdb_kvdb.c:1275-1293 | and so does delete |
| `StatusTable.SetThenGet` | spike/flashdb-ffi/src/fdb_utils.c:91-145 | a status written and read back is the same if and only if it is 0 or not a multiple of 8 |
| `StatusTable.WriteStatus` | spike/flashdb-ffi/src/fdb_utils.c:147-171 | on flash whose bits can only be cleared the status byte holds the furthest status written |
| `StatusTable.ReadStatus` | spike/flashdb-ffi/src/fdb_utils.c:173-180 | which is the one that is read |
| `ErasedFlash.ContinueFfAddr` | spike/flashdb-ffi/src/fdb_utils.c:185-210 | the aligned start of the erased run that reaches the end, or the end if there is none |
| `Crc32.TableIsBitwise` | spike/flashdb-ffi/src/fdb_utils.c:20-66 | every entry of the table is eight steps of the bitwise reflected CRC-32 on its index |
| `Crc32.LookupIsEightSteps` | spike/flashdb-ffi/src/fdb_utils.c:85 | a lookup at the low byte with the shifted rest is eight bit steps on the whole register |
| `Crc32.RoundIsNext` | spike/flashdb-ffi/src/fdb_utils.c:85 | one round of the table loop takes one byte into the bitwise checksum |
| `Crc32.CalcCrc32` | spike/flashdb-ffi/src/fdb_utils.c:77-89 | the table loop computes the bitwise CRC-32 of the buffer, started from an earlier one |
| `Crc32.CrcChains` | spike/flashdb-ffi/src/fdb_utils.c:77-89 | computing a checksum piece by piece gives the checksum of the whole |
| `Crc32.ChangeDetected` | spike/flashdb-ffi/src/fdb_utils.c:77-89 | changing any single byte changes the checksum |
| `RecordBytes.FlashWriteAlign` | spike/flashdb-ffi/src/fdb_utils.c:322-349 | the bytes programmed are the buffer followed by erased bytes up to the write granularity |
| `RecordBytes.CreateCrc` | spike/flashdb-ffi/src/fdb_kvdb.c:1218-1236 | the checksum stored with a record is that of the lengths and of the body as it stands on flash |
| `RecordBytes.ReadCrc` | spike/flashdb-ffi/src/fdb_kvdb.c:374-388 | reading the body 32 bytes at a time gives the checksum of lengths and body |
| `RecordBytes.RoundTrip` | spike/flashdb-ffi/src/fdb_kvdb.c:374-413 | for every name, value and write granularity the checksum agrees and name and value come back; after one changed byte it does not agree |
| `TsDb.Tsdb.UpdateSecStatus` | spike/flashdb-ffi/src/fdb_tsdb.c:379-449 | how a sector is closed and the next one opened, and what is refused, as a relation between the states before and after |
| `TsStore.ReadyToWrite` | spike/flashdb-ffi/src/fdb_tsdb.c:379-449 | once the sector status allows it, slot and blob fit between the slots and the blobs already there |
| `TsDb.Tsdb.Append` | spike/flashdb-ffi/src/fdb_tsdb.c:451-500 | accepted entries have rising timestamps; the retained log is the whole history without its first entries, which are only ever lost with the oldest sector; an entry for which the current sector has room goes there; a refused entry changes nothing, and after SAVED_FULL every other is refused too, rollover or not; slots and blobs never overlap and the remaining space is the gap between them |
| `TsDb.Tsdb.SetRollover` | spike/flashdb-ffi/src/fdb_tsdb.c:949-953 | rollover can be switched on a running store |
| `TsStore.StaysFull` | spike/flashdb-ffi/src/fdb_tsdb.c:379-449 | a refusal leaves the retained log as it is |
| `TsDb.Tsdb.Iter` | spike/flashdb-ffi/src/fdb_tsdb.c:556-597 | calls back exactly the retained entries, oldest first |
| `TsDb.Tsdb.IterReverse` | spike/flashdb-ffi/src/fdb_tsdb.c:606-649 | calls back the mirror image of that |
| `TsQuery.SearchStart` | spike/flashdb-ffi/src/fdb_tsdb.c:654-680 | the binary search ends at the first slot whose time is not before the start of the range |
| `TsQuery.IterByTime` | spike/flashdb-ffi/src/fdb_tsdb.c:691-769 | a forward query calls back the selection of the retained log, over full, current, empty and wrapped sectors |
| `TsQuery.SelectIsExact` | spike/flashdb-ffi/src/fdb_tsdb.c:691-769 | the selection holds each entry of the range as often as the log does and no other |
| `TsRestart.ReadSectorInfo` | spike/flashdb-ffi/src/fdb_tsdb.c:242-307 | traversing a sector in use rebuilds end time, last slot, free slot, free data address and remaining space; READ_ERR exactly when nothing is left |
| `TsRestart.CheckSectors` | spike/flashdb-ffi/src/fdb_tsdb.c:844-870 | the walk finds the current sector and the last empty one and never complains |
| `TsRestart.OldestFollows` | spike/flashdb-ffi/src/fdb_tsdb.c:1044-1062 | the sector behind the latest one is the oldest |
| `TsRestart.Init` | spike/flashdb-ffi/src/fdb_tsdb.c:996-1080 | opening the store again gives the current sector, oldest address and last time that were in memory; no current sector is found exactly when the ring is full for good |
| `WriterTables.MaxVersion` | crates/ixmati-writer/src/dedup.rs:82-104 | the greatest version among the rows of an entity and key |
| `WriteEngine.Database.ReadCurrentVersion` | crates/ixmati-writer/src/dedup.rs:82-104 | the maximum the query returns |
| `WriteEngine.Database.RecordTombstone` | crates/ixmati-writer/src/tombstones.rs:23-41 | the upsert never lowers the version of a tombstone |
| `WriteEngine.Database.InsertEvent` | crates/ixmati-writer/src/outbox.rs:30-61 | the stored event carries the id of its own row |
| `WriteEngine.Database.FetchUnpublished` | crates/ixmati-writer/src/outbox.rs:90-123 | the first rows that wait, in id order: nothing published, and nothing left out below the limit |
| `WriteEngine.Database.MarkPublished` | crates/ixmati-writer/src/outbox.rs:74-88 | exactly the rows named become published, and nothing else changes |
| `WriteEngine.Database.ProcessCommand` | crates/ixmati-writer/src/write_engine.rs:47-127 | a command is applied if and only if it is an upsert, patch or delete of this store, under a new idempotency key, with a version above all known of its key; then payload row, tombstone, event and idempotency row are those of the command, and otherwise no table changes |
| `WriteEngine.AppliedIff` | crates/ixmati-writer/src/write_engine.rs:54-73 | of the commands of the store exactly those with news are applied; a known idempotency key makes a duplicate, a known version a conflict |
| `WriteEngine.AppliedIsWritten` | crates/ixmati-writer/src/write_engine.rs:75-123 | the tables after any command, row by row, with the type of the event that each operation has |
| `WriteEngine.AppliedReads` | crates/ixmati-writer/src/write_engine.rs:75-123 | where rows match their history: after an upsert or patch the payload row is version and payload of the command and no tombstone is left; after a delete the payload row is gone and the tombstone has the version of the command |
| `WriteEngine.SettledIff` | crates/ixmati-writer/src/write_engine.rs:54-73 | a command of the store is settled if and only if it would not be applied |
| `WriteEngine.BatchReports` | crates/ixmati-writer/src/write_engine.rs:42-50 | the counter of commits and the events of a batch are those of the rows it adds to the outbox |
| `WriteEngine.Database.ProcessBatch` | crates/ixmati-writer/src/write_engine.rs:33-132 | all commands in one transaction: tables, counters and events of processing them one after the other, or nothing at all if one fails |
| `WriteEngine.BatchFailsIff` | crates/ixmati-writer/src/write_engine.rs:75-103 | a batch fails if and only if it holds a known operation for another store |
| `WriteEngine.ForeignNeverSettled` | crates/ixmati-writer/src/write_engine.rs:75-103 | and such a command is never settled |
| `WriterInvariant.SuffixTells` | crates/ixmati-writer/src/write_engine.rs:151-158 | the event type ends in ".eliminado" exactly for deletions, whatever the entity is called |
| `WriterInvariant.StepInv` | crates/ixmati-writer/src/write_engine.rs:54-131 | every command keeps: payload row or tombstone per key at the maximum version of its idempotency rows, rising ids and versions in the outbox, the event of every latest version in it, the payload table equal to the replayed outbox, and envelopes that carry the id and the store of their rows |
| `WriterInvariant.ProcessInv` | crates/ixmati-writer/src/write_engine.rs:54-131 | and so does every run of commands |
| `WriterInvariant.ProcessState` | crates/ixmati-writer/src/write_engine.rs:54-131 | rows that match their history keep doing so over every run, whatever the outbox holds |
| `WriterInvariant.ProcessLog` | crates/ixmati-writer/src/write_engine.rs:54-131 | tables and log keep telling the same over every run, also in a database that did not start empty |
| `WriterInvariant.ApplyLog` | crates/ixmati-writer/src/cache_sync.rs:196-213 | replaying the outbox events in id order rebuilds the payload table |
| `WriterInvariant.RedeliveryChangesNothing` | crates/ixmati-writer/src/write_engine.rs:54-73 | a command that is settled changes no table when it comes again |
| `WriterInvariant.DecidedStays` | crates/ixmati-writer/src/write_engine.rs:54-73 | what is settled stays settled whatever is processed |
| `WriterInvariant.ProcessConcat` | crates/ixmati-writer/src/write_engine.rs:33-132 | how commands are cut into batches does not matter to the tables |
| `WriterInvariant.CountConcat` | crates/ixmati-writer/src/write_engine.rs:33-132 | nor, summed up, to the counters |
| `WriterInvariant.EffectivelyOnce` | crates/ixmati-writer/src/write_engine.rs:54-73 | any at-least-once delivery leaves the tables of delivering each command once, in the order first seen |
| `WriterInvariant.SameFirstsSameTables` | crates/ixmati-writer/src/write_engine.rs:54-73 | deliveries that first show the same commands in the same order end in the same tables |
| `Batching.Batcher.Push` | crates/ixmati-writer/src/batcher.rs:23-35 | a batch leaves exactly when it is full or its interval is over, with all commands in order, and is never too large |
| `Batching.ReceiveLoop` | crates/ixmati-writer/src/main.rs:160-206 | no command is lost, repeated or reordered between the channel and the batches; at every input what is held leaves exactly when it is full or its interval is over, and after the last input nothing full or due is left |
| `Batching.OnInput` | crates/ixmati-writer/src/main.rs:161-199 | one turn of the loop, for a command as for a timeout |
| `Batching.TurnsKeep` | crates/ixmati-writer/src/main.rs:160-206 | the order and the bounds of the batches follow from those turns alone |
| `Batching.NothingWaitsLonger` | crates/ixmati-writer/src/main.rs:160-206 | after every input what still waits is not full and its interval is not over |
| `Batching.TimeoutSends` | crates/ixmati-writer/src/main.rs:188-199 | a timeout at which the interval is over sends all that waits as one batch; an earlier one sends nothing |
| `Pipeline.ProcessBatchThenAck` | crates/ixmati-writer/src/main.rs:211-318 | acknowledgements are sent only after the commit, when every command of the batch is settled, and none after a failure |
| `Pipeline.StepUnmarked` | crates/ixmati-writer/src/write_thread.rs:56-84 | marking rows as published before or after a command comes to the same |
| `Pipeline.CommitSettles` | crates/ixmati-writer/src/write_engine.rs:54-131 | a batch that commits settles each of its commands |
| `Pipeline.DoInv` | crates/ixmati-writer/src/consumer.rs:130-199 | every step of consumer thread, channel, batcher, write thread, acknowledgements, crash and redelivery keeps the invariant of the path |
| `Pipeline.AckedOnlyAfterCommit` | crates/ixmati-writer/src/main.rs:211-318 | in every state of every run: an acknowledged command is settled on disk, and an unsettled one is still unacknowledged |
| `Pipeline.NothingIsLost` | crates/ixmati-writer/src/consumer.rs:130-199 | a command sent to the broker is later settled on disk or still to be delivered, across any number of crashes |
| `Pipeline.TablesEffectivelyOnce` | crates/ixmati-writer/src/write_engine.rs:33-132 | over every run the tables are those of each committed command once, all acknowledged commands are among them, and the invariant of the tables holds |
| `Pipeline.CanSettle` | crates/ixmati-writer/src/consumer.rs:130-199 | wherever the system is, an unacknowledged command of its store can still be settled: after a restart and seven more steps the tables have taken it and the broker has its acknowledgement |
| `PublishTracking.PublishTracker.OnOutgoingPublish` | crates/ixmati-writer/src/event_publisher.rs:39-46 | a packet id in flight is a retransmission; a new one takes the first queued row |
| `PublishTracking.PublishTracker.OnPuback` | crates/ixmati-writer/src/event_publisher.rs:48-53 | the row of the packet is released and is tracked no more |
| `PublishTracking.PublishTracker.RemoveQueued` | crates/ixmati-writer/src/event_publisher.rs:26-30 | after a failed publish the row is tracked no more and the order of the others stays |
| `PublishTracking.PublishTracker.CountNewTimeouts` | crates/ixmati-writer/src/event_publisher.rs:55-63 | each row that has waited for the timeout is counted once, and no other |
| `Publisher.EventPublisher.PublishRows` | crates/ixmati-writer/src/event_publisher.rs:203-232 | each row of the pass that was not tracked and that the client accepts is handed over once, in the order of first occurrence, and tracked behind the others; nothing else is |
| `Publisher.EventPublisher.DrainPubacks` | crates/ixmati-writer/src/event_publisher.rs:267-316 | only acknowledged rows are marked, exactly those leave the pending set, and an error keeps them |
| `Publisher.DrainedOnlyReceived` | crates/ixmati-writer/src/event_publisher.rs:269-284 | nothing gets into the pending set that was not received, and nothing is dropped while there is room |
| `PublisherRun.DoInv` | crates/ixmati-writer/src/event_publisher.rs:133-177 | every step of both threads, client and broker keeps the pairing of packet ids with rows |
| `PublisherRun.PublishFailsInv` | crates/ixmati-writer/src/event_publisher.rs:221-231 | a failed publish takes back exactly the row in hand, whatever the event loop has read meanwhile |
| `PublisherRun.PublishedWasAcked` | crates/ixmati-writer/src/event_publisher.rs:267-316 | a row is marked as published only if the broker acknowledged it |
| `PublisherRun.TrackerIsClient` | crates/ixmati-writer/src/event_publisher.rs:142-151 | once its notes are read, the tracker's queue is what the client has still to send plus the row in hand, and its ids are the rows really in flight |
| `PublisherRun.AckFreesItsRow` | crates/ixmati-writer/src/event_publisher.rs:150-164 | an acknowledgement frees exactly its own row, also when the channel is full and the row has to be published again |
| `PublisherRun.UnackedStillWaits` | crates/ixmati-writer/src/event_publisher.rs:192-201 | until the broker has acknowledged a committed event its row waits in the outbox, across crashes |
| `PublisherRun.CanPublish` | crates/ixmati-writer/src/event_publisher.rs:192-232 | wherever the system is, an event can still be published: after a restart and eight more steps the broker has acknowledged it and its row, and no other, is marked |
| `MigrateMerge.MergeState` | crates/ixmati-store-migrate/src/lib.rs:363-383 | the candidate replaces the row exactly if its version is higher, or else its timestamp later, or else its source earlier in the alphabet; the conflict flag tells whether the rows differ |
| `MigrateMerge.CollectStates` | crates/ixmati-store-migrate/src/lib.rs:305-361 | the loops merge all rows, source by source and payloads before tombstones |
| `MigrateMerge.SurvivorWins` | crates/ixmati-store-migrate/src/lib.rs:363-390 | the row that survives for a key is the greatest, and the first among equals |
| `MigrateMerge.CompareStateTransitive` | crates/ixmati-store-migrate/src/lib.rs:385-390 | the order of rows is transitive |
| `MigrateMerge.CompareTextIsLater` | crates/ixmati-store-migrate/src/lib.rs:388-389 | the order of texts is that of the first characters in which they differ, a text going before its continuations |
| `MigrateMerge.CompareStateIsNewer` | crates/ixmati-store-migrate/src/lib.rs:385-390 | the comparison is positive exactly for the newer row: version, then timestamp, then the smaller source name |
| `MigrateMerge.LastWriterWins` | crates/ixmati-store-migrate/src/lib.rs:363-390 | a row survives if and only if it beats all others of its key: higher version, else later timestamp, else smaller source name, else payload before tombstone; later is told by the first character that differs |
| `MigrateMerge.OrderDoesNotMatter` | crates/ixmati-store-migrate/src/lib.rs:305-361 | any permutation of sources with distinct names merges to the same states |
| `MigrateMerge.CollectIdempotency` | crates/ixmati-store-migrate/src/lib.rs:392-446 | fails if and only if two rows of one idempotency key differ; otherwise one row per key, and the duplicates are counted |
| `MigrateOutbox.CollectOutbox` | crates/ixmati-store-migrate/src/lib.rs:456-491 | fails if and only if two rows of one event id differ anywhere in the stored envelope, its store and its sequence number included; otherwise the first row of every event id, in the order of the ids |
| `MigrateOutbox.SortRows` | crates/ixmati-store-migrate/src/lib.rs:482-491 | the order does not depend on the order in which the map gives its rows |
| `MigrateOutbox.IdsRise` | crates/ixmati-store-migrate/src/lib.rs:482-491 | sorted rows have rising ids, by the first character that differs |
| `MigrateOutbox.WriteOutbox` | crates/ixmati-store-migrate/src/lib.rs:627-634 | each event goes to the destination of its key, and none is left out; its row is numbered under the new store, its envelope and its mark are what they were |
| `MigratePlan.PlacedByHash` | crates/ixmati-store-migrate/src/lib.rs:707-712 | a split sends a key to the destination its hash is congruent to modulo their number; otherwise there is one destination |
| `MigrateSplit.WriteStates` | crates/ixmati-store-migrate/src/lib.rs:605-618 | each surviving row goes to the destination of its key, as payload row or tombstone |
| `MigrateSplit.WriteIdempotency` | crates/ixmati-store-migrate/src/lib.rs:619-626 | each idempotency row goes to the destination of its key |
| `MigrateSplit.MergedMaxVersion` | crates/ixmati-store-migrate/src/lib.rs:305-446 | over the merged idempotency rows the maximum version of a key is that of its surviving row |
| `MigrateSplit.DestinationMatchesHistory` | crates/ixmati-store-migrate/src/lib.rs:584-640 | every destination of rename, merge and split has what the writer relies on: payload row or tombstone, at the maximum idempotency version |
| `MigrateSplit.MigratedStoreRuns` | crates/ixmati-writer/src/write_engine.rs:54-131 | from a migrated store on, every run of commands keeps payload row or tombstone at the maximum idempotency version |
| `MigrateReplay.OrderedIff` | crates/ixmati-store-migrate/src/lib.rs:482-491 | in the migrated outbox the versions of each key rise if and only if they follow the order of the event ids |
| `MigrateReplay.MigratedLogIff` | crates/ixmati-store-migrate/src/lib.rs:584-640 | a migrated store has the relation of tables and log that a writer's store has, but for the envelopes, if and only if in it the versions of each key follow the order of the event ids |
| `MigrateReplay.MigratedLogRuns` | crates/ixmati-writer/src/write_engine.rs:54-131 | and then keeps it over every run of commands |
| `MigrateReplay.EnvelopesIff` | crates/ixmati-store-migrate/src/lib.rs:699-705 | the envelopes of a destination carry the id and the store of their rows if and only if, as read from the sources, they name that destination and count from 1 in the order of the event ids |
| `MigrateReplay.MigratedAllIff` | crates/ixmati-store-migrate/src/lib.rs:584-640 | the whole relation, envelopes included, holds if and only if both conditions do |
| `MigrateReplay.NewNameOldEnvelopes` | crates/ixmati-store-migrate/src/lib.rs:699-705 | under a new name every envelope of the destination carries the wrong store |
| `MigrateReplay.SequencesCanDiffer` | crates/ixmati-store-migrate/src/lib.rs:699-705 | two events of two keys whose ids come in the other order: also under the old name the first row holds the sequence number 2 |
| `MigrateReplay.CopiesContradict` | crates/ixmati-store-migrate/src/lib.rs:470-476 | copies of an event under two store names or two sequence numbers refuse the migration |
| `MigrateReplay.ReplayCanGoBack` | crates/ixmati-store-migrate/src/lib.rs:482-491 | two updates of a key whose event ids come in the other order: replaying the migrated outbox gives the older value |
| `MigrateSplit.Migrate` | crates/ixmati-store-migrate/src/lib.rs:518-576 | the whole migration, outbox included: destinations as specified, envelopes as they were, or a refusal exactly when the sources disagree about an idempotency key or a stored envelope |
| `MigrateSplit.SplitGivesParts` | crates/ixmati-store-migrate/src/lib.rs:584-640 | a split writes the parts of its source |
| `MigrateSplit.SplitVerdict` | crates/ixmati-writer/src/write_engine.rs:54-73 | the part decides like the whole store about a command if and only if its idempotency key was not used for a key of another part |
| `MigrateSplit.SplitSimulates` | crates/ixmati-writer/src/write_engine.rs:54-131 | from then on split and unsplit store stay in step over every run of commands |
| `MigrateSplit.SplitCanDisagree` | crates/ixmati-store-migrate/src/lib.rs:619-626 | for any hash, keys of two parts under one idempotency key: a duplicate before the split, applied after it |
| `EventStream.FetchEvents` | crates/ixmati-api/src/grpc.rs:571-594 | the first wanted rows behind the cursor, in id order |
| `EventStream.AfterIs` | crates/ixmati-api/src/grpc.rs:580-586 | what is wanted: rows of the store behind the cursor, of the entity and the key asked for if any is, with rising ids |
| `EventStream.SendRows` | crates/ixmati-api/src/grpc.rs:512-540 | a batch is sent without gap or repetition up to the cursor that is reported when the consumer is behind |
| `EventStream.Subscribe` | crates/ixmati-api/src/grpc.rs:473-544 | a subscription is refused exactly when its cursor is not acceptable; what it sent, followed by what lies behind its cursor, is what lay behind its start, while rows are appended; while it is open each look sends 128 rows or all there are, each row through a channel with a slot to spare; and the row that cuts it off found one slot at most (resume) or the other end gone |
| `EventStream.CutIsFullOrClosed` | crates/ixmati-api/src/grpc.rs:526-537 | a channel that always has a slot to spare, and whose other end stays, cuts nothing off |
| `EventStream.EnoughLooks` | crates/ixmati-api/src/grpc.rs:498-540 | each look at an outbox that stopped growing brings 128 rows more, up to all there are |
| `EventStream.EverythingArrives` | crates/ixmati-api/src/grpc.rs:488-544 | open over enough looks at an outbox that stopped growing, it has sent exactly what is wanted behind its start |
| `EventStream.ResumeIsSeamless` | crates/ixmati-api/src/grpc.rs:526-534 | resuming at the reported cursor continues without gap or repetition |
| `EventStream.AnyNumberOfCuts` | crates/ixmati-api/src/grpc.rs:488-544 | so does any number of cuts |
| `EventStream.CaughtUp` | crates/ixmati-api/src/grpc.rs:488-544 | and once the last session has caught up, all sessions together sent exactly the wanted rows in id order |
| `EventStream.ReportedCursorAccepted` | crates/ixmati-api/src/grpc.rs:551-569 | a cursor that a session reported is accepted as long as its row is kept |
| `EventStream.RefusedIff` | crates/ixmati-api/src/grpc.rs:473-485 | a cursor is refused exactly when it is not 0 and there are rows of the store, each of them more than one behind it |
| `EventStream.OldestAvailableCursor` | crates/ixmati-api/src/grpc.rs:551-569 | refuses a cursor exactly when the smallest id of the store is more than one behind it |
| `EventStream.AcceptedIsComplete` | crates/ixmati-api/src/grpc.rs:473-485 | whatever rows were deleted: from cursor 0, or with no row of the store left, an accepted subscriber loses exactly the wanted rows that are gone; otherwise exactly those gone from behind an older row of the store |
| `EventStream.OldestFirstIsComplete` | crates/ixmati-api/src/grpc.rs:551-569 | if rows go oldest first, a subscriber that resumes loses nothing as long as some row of the store is left |
| `EventStream.CheckProtectsIff` | crates/ixmati-api/src/grpc.rs:551-569 | the cursor check protects every subscriber who resumes if and only if rows are deleted oldest first |
| `EventStream.ZeroLosesRows` | crates/ixmati-api/src/grpc.rs:473 | a subscriber that starts at 0 is accepted and misses a deleted row, although another row of the store is left |
| `EventStream.HolesLoseRows` | crates/ixmati-writer/src/outbox.rs:125-132 | so does one that resumes behind an older row that is kept while a newer one was cleaned up |
| `EventStream.NoRowsAcceptAll` | crates/ixmati-api/src/grpc.rs:551-569 | with no row of the store left every cursor is accepted |
| `CacheProtocol.RoundTrip` | crates/ixmati-cache/src/cache_server.rs:89-152 | the server reads back a request a client wrote and leaves what follows |
| `CacheProtocol.RoundTripAll` | crates/ixmati-cache/src/cache_server.rs:48-78 | any concatenation of requests comes back as it was, newlines in values included, with nothing left over |
| `CacheProtocol.ProcessCommand` | crates/ixmati-cache/src/cache_server.rs:89-152 | effect and reply of each command; an error is answered without any effect, and a request that is cut off has neither effect nor answer |
| `CacheProtocol.MistakesChangeNothing` | crates/ixmati-cache/src/cache_server.rs:114-150 | neither does a SET without a length, or a line that is no command |
| `CacheProtocol.WrongLengthChangesNothing` | crates/ixmati-cache/src/cache_server.rs:121-127 | a SET whose length is no number changes nothing and is answered as such |
| `CacheProtocol.CutStoresNothing` | crates/ixmati-cache/src/cache_server.rs:129-132 | a SET whose connection breaks off inside the payload stores nothing, is not answered and ends the connection |
| `CacheProtocol.HandleClient` | crates/ixmati-cache/src/cache_server.rs:48-78 | a connection is answered command by command, in order |
| `CacheProtocol.RoundtripIsMap` | crates/ixmati-cache/src/cache_client_sync.rs:43-147 | a request and its answer read by the client behave as on a map |
| `CacheProtocol.SessionIsMap` | crates/ixmati-cache/src/cache_client_sync.rs:43-147 | so does every lockstep session |
| `CacheProtocol.CacheKeyInjective` | crates/ixmati-cache/src/cache_client_sync.rs:31-33 | different records have different cache keys as long as store and entity names hold no colon |
| `CacheProtocol.CacheKeysCollide` | crates/ixmati-cache/src/cache_client_sync.rs:31-33 | two records with one cache key when an entity name holds a colon |
| `CacheProtocol.DeleteByStoreReaches` | crates/ixmati-writer/src/cache_sync.rs:62-65 | deleting the cache of a store reaches exactly the stores whose name begins with its name |
| `CacheText.ParseFormat` | crates/ixmati-cache/src/cache_server.rs:117-123 | a length written in decimal is read back, up to the largest usize |
| `CacheText.OnlyDigitsParse` | crates/ixmati-cache/src/cache_server.rs:121-127 | nothing else is taken for a number |

## Left out

- KvRecovery.LoadAfterCrash: one scan; what follows when it finds no room is the subject of KvRetry.Load.
- KvRetry.Load: one retry, because in the state in which that fails all others do as well (KvRetry.Retry); the caches are not part of it.
- KvRecovery.RecoverKvs: records whose length was not written are marked before the scan instead of during it.
- KvStore.Kvdb.Set: in a store with dirty sectors whose free space lies in the slack, collecting more may or may not have helped.
- KvCached.CachedKvdb.Set: names shorter than 64 bytes, no other key with the same 16-bit checksum, and a store in which walks find the ends of sectors; otherwise KvGap.LostByte and KvGap.MagicNameMisleads apply.
- KvCached.CachedKvdb.FindKv: the recovery scan, which fills the name cache, runs on the store without caches.
- KvSectorCache.SectorCache.ReadSectorInfo: the flash behind the records of a sector in use is erased, and no phantom has a length, which goes without saying in a database of less than 16 MB (KvSectorCache.NoZeroNoLength).
- KvSectorCache.SectorCache.Walk: reading a phantom also writes a status byte into the unfinished record in which it lies.
- TsDb.Tsdb.Append: in a store without rollover it models the running store only; a ring that is full for good has no current sector after a restart.
- TsQuery.IterByTime: from <= to and a callback that never stops; the reverse search is not modelled.
- TsRestart.Init: sector headers are in order and no power was lost.
- Crc32.ChangeDetected: one changed byte; longer damage is not treated.
- StatusTable.WriteStatus: tables of one byte, which is all the stores use.
- EventStream.Subscribe: rows are only appended while a subscription runs, and event ids are unique; rows deleted in between are the subject of EventStream.AcceptedIsComplete.
- CacheProtocol.RoundTripAll: requests with plain keys; FLUSH is answered and removes nothing, as with the redb and SQLite backends.
- Pipeline.NothingIsLost: safety only, and Pipeline.CanSettle says what remains possible; that a command is delivered again at all is up to the broker, and a batch with a command for another store keeps failing.
- MigrateSplit.Migrate: row times and the refusal of sources with unpublished events are not modelled.
- MigrateReplay.MigratedLogIff: what the envelopes say is left to MigrateReplay.EnvelopesIff.
- Power loss while garbage is collected, while an index slot or a time series blob is written, and inside a single flash write.
- Control commands other than the rollover switch, default values, combined sectors, printing, user status of time series entries, file access and the Rust wrapper of FlashDB.
- Schema creation and schema migration of SQLite databases; of `cleanup_old` only that it may delete any rows.
- The queue of the cache synchronisation worker, and the reconnecting asynchronous cache client: only their commands are modelled.
- Projector, reconciler, configuration, authorisation, metrics, supervisor and watchdog.
- Threads are interleaved step by step; memory ordering of the depth counter is not modelled.
