# Zumic storage engine and cluster slots: a verified model

Zumic keeps its data in a sharded in-memory index, makes it durable with a checksummed append-only
log, writes snapshots and compacted logs, recovers from either, and spreads keys over shards by hash
slots. Each of these layers promises to behave like something simple, usually one map from keys to
values. This project models the layers in Dafny and proves that they do, or shows exactly where they
do not.

| file | part of the system |
|---|---|
| `Bytes.dfy` | bytes, `u32`/`u64`, big-endian wire form |
| `Crc32.dfy` | CRC-32: bit-by-bit division, burst detection, the table-driven class |
| `AofFormat.dfy` | AOF2 records: writer, delimiter, validator, parser, the greedy scanner |
| `Aof1Format.dfy` | the older AOF1 records |
| `AofTheorems.dfy` | what replay delivers from whole, torn and damaged logs |
| `KeyValue.dfy` | the logical map and the effect of a log on it |
| `AofLog.dfy` | the log object: buffered appends, batching, replay, rewrite, repair, crash |
| `Slices.dfy` | one map kept as several: routing, grouping, sizes |
| `Sharding.dfy` | the sharded index and its key counters |
| `Commands.dfy` | the commands both stores understand and what each does to one map |
| `Persistent.dfy` | the persistent store: write-ahead logging, reopening, whole runs |
| `Snapshots.dfy`, `Recovery.dfy` | snapshot files, log compaction, recovery strategies |
| `Crc16.dfy` | CRC-16: bit-by-bit division and the loop over the table of constants |
| `Slots.dfy` | hash tags, slot table, migrations, rebalance planning |
| `Cluster.dfy` | the cluster store, run against the rebalancer in every interleaving |
| `Ring.dfy` | the consistent-hash ring |

`dafny verify dfyconfig.toml` checks everything.

## Main results

- On any bytes whatsoever, tolerant replay terminates and delivers exactly what a naive scanner does that
  knows only the writer: at each offset, a byte-for-byte encoding of some operation is delivered and
  jumped over, anything else is one byte of junk. Strict replay accepts exactly the buffers a writer can
  have produced.
- Every byte prefix of a log: strict replay delivers the operations wholly inside it and succeeds iff the
  cut is on a record boundary, else it reports truncation. Damage between intact stretches costs neither.
  Damage confined to four consecutive bytes that leaves the lengths readable is always recognised.
- The table-driven CRC-32 and CRC-16 are the reference divisions, and any burst of at most 32 bits changes
  the former.
- In every run of the persistent store, folding the log gives the union of the shards and the replies are
  those of one map. Opened on an empty or clean file, driven by any commands whose keys and values fit the
  length fields, closed and reopened under any hash seed, shard count and policies, the store holds what
  one map would (`RunAndReopen`). On a damaged file the same holds under tolerant policies unless a record
  straddles its old end (`RunAndReopenTolerant`).
- A crash under `Always` leaves a file with all but the last 31 records. Opened tolerantly, it gives exactly
  the fold of those records if what is left behind them holds no record; opened strictly, the same, or it is
  refused. They stand for the map after some of the commands, or are cut inside one `rename`, `renamenx` or
  `mset`, and then for the map before or after that command iff an exact condition holds (`RunAndCrash`).
- Repair never changes what a file means, and rewrites it exactly when damage was counted. A snapshot, even
  a torn one, followed by the whole log gives what the log gives.
- The cluster, in every interleaving with its rebalancer, answers as one map; the ring moves no more keys
  than it must. The load figures count exactly the keys clients name, and a rebalancing plan is exactly the
  beginning of what they call for.

## Where the code falls short of what one might expect

- `open` leaves a torn tail in place, and the next append can complete it: a lost operation comes back and
  the appended one is not delivered (`TornTailSwallowsAppend`, with one such record in `TornTailExample`).
  The strict reader finds an appended record exactly when the log replayed strictly before
  (`AppendToCleanLog`); the tolerant one exactly when no record straddles the old end of the file, the one
  exception being a torn copy of the appended record itself (`AppendIsFoundIff`).
- A torn value that contains an encoded record is replayed as log by the tolerant policies
  (`TornValueIsReplayed`); they deliver exactly what was wholly written iff no offset of the torn tail starts
  a record (`TornLogTolerantIff`).
- Records with an unknown operation code do not make `repair` rewrite the file: for a log that has counted
  no damage before, strict replay fails after a tolerant repair iff they are the only faults met (`Repair`,
  `RepairLeavesUnknownTail`). A file in the old format is then never rewritten, because its reader counts
  nothing.
- `rename` and `mset` are several log records. A log that ends between the two of a rename stands for neither
  the map before nor the map after, unless the target is another key with the same value; renaming a key onto
  itself loses it (`TornRenameIff`). A log that ends inside an mset stands for the map before or after iff
  the store already held what was logged, or what was not (`TornMSetIff`).
- A failed flush makes a command return an error with a record already in the log. Log and memory then
  still agree exactly under the conditions stated by `Set`, `MSet`, `Rename` and `RenameNx` of the persistent
  store; after `del` they always do.
- After a crash a strict policy refuses to open the file iff a part of a record was left at its end
  (`RunAndCrash`): nothing survives as a store until the file is repaired or read tolerantly.
- `flushdb` of the persistent store is not logged: log and memory agree afterwards iff there was nothing to
  flush (`FlushDb`).
- `dbsize` of the persistent store is 0 when per-shard metrics are off (`TotalKeys`).
- Completing a slot migration reroutes the slot although no data is copied, even to a shard that does not
  exist, whose keys then get `WrongShard`. Every `get` is still answered as by one map iff the target is the
  source, or it exists and no key of the slot is stored. The invariant under which every later run is
  answered as by one map (`ExecuteAll`) holds again iff moreover no migration planned earlier names the slot
  (`CompleteMigration`). Starting a migration with a source other than the owner reroutes the slot at once,
  with the same consequences (`StartMigration`).
- Looking a key up on an empty ring panics; a ring is empty at first iff it has no shards or no virtual nodes,
  and after a removal iff every node belonged to the shard removed (`GetShard`, `EmptyAtFirstIff`, `RemoveShard`).
- Lengths are cast with `as u32`; a record survives the log iff its lengths fit (`RoundTripIffFits`).

## Modelling decisions

A file is a sequence of bytes; a `BufWriter` may spill any part of its buffer at any moment. SipHash,
`DefaultHasher` and `from_utf8_lossy` are arbitrary functions. Hash-map iteration order is any order.
Clock readings are arbitrary. Values are the byte strings the index stores. Store and slot-manager calls
are atomic; the rebalancer interleaves between them, planning and starting migrations as separate steps,
and aggregated load figures of any kind may appear at any time.
`healthy` says that the device accepts every flush; with it false, any flush may fail. Load averages are
real numbers. On a 64-bit machine the `checked_add` overflow branches of the parser cannot be taken
(a position inside a buffer plus two 32-bit lengths fits), so positions are unbounded integers. Where a
callback is handed one operation after another, the model returns the sequence of operations.

## Model

| member | source | states |
|---|---|---|
| `Crc32.Table.Build` | src/engine/aof_integrity.rs:80-96 | the table holds eight division steps of every index |
| `Crc32.ByteWordIsBits` | src/engine/aof_integrity.rs:109 | the cast of a byte to a word is the word its bits spell, least significant first |
| `Crc32.Table.ChecksumOf` | src/engine/aof_integrity.rs:102-114 | the table-driven loop, which xors in `byte as u32`, computes the reference bit-by-bit division on every byte string |
| `Crc32.TableStep` | src/engine/aof_integrity.rs:109-110 | eight division steps are one table lookup and a shift |
| `Crc32.BurstDetected` | src/engine/aof_integrity.rs:102-114 | any error burst of at most 32 bits, anywhere in a bit stream, changes the remainder |
| `Crc32.ChecksumDetectsBursts` | src/engine/aof_integrity.rs:102-114 | equal-length payloads differing only inside 32 consecutive bits have different checksums |
| `Crc32.ChecksumDetectsFourBytes` | src/engine/aof_integrity.rs:102-114 | equal-length payloads differing only inside four consecutive bytes have different checksums |
| `Crc32.KnownValue` | src/engine/aof_integrity.rs:384-392 | the published check value of "a" |
| `Crc32.ZeroWord` | src/engine/aof_integrity.rs:102-114 | the checksum of four zero bytes, the payload of a DEL of the empty key |
| `AofFormat.WrittenIsRead` | src/engine/aof.rs:878-992 | where a written record starts, the reader finds its end, accepts it and parses what was written |
| `AofFormat.ReadIsWritten` | src/engine/aof_integrity.rs:245-354 | an accepted record is byte for byte the encoding of what the parser then delivers, so parsing never fails after validation |
| `AofFormat.ReadExactly` | src/engine/aof.rs:825-865 | validation and parsing decide exactly whether a genuine record starts here, and which |
| `AofFormat.RecordUnique` | src/engine/aof.rs:243-315 | the record code is prefix-free |
| `AofFormat.FindRecordEndShift` | src/engine/aof.rs:878-933 | delimiting a record does not depend on what precedes it |
| `AofFormat.ExampleDel` | src/engine/aof.rs:301-315 | the record of a DEL of the empty key, byte for byte |
| `AofFormat.ExampleSet` | src/engine/aof.rs:254-269 | operation code, lengths, key and value of a SET, byte for byte |
| `AofTheorems.LogIsRead` | src/engine/aof.rs:243-339 | both readers deliver a written log in full, in order, then continue with what follows it |
| `AofTheorems.LogRoundTrip` | src/engine/aof.rs:349-380 | a log replays to exactly the operations written, strictly and tolerantly |
| `AofTheorems.StrictAcceptsWrittenLogs` | src/engine/aof.rs:772-815 | strict replay succeeds iff re-encoding what it delivered gives the buffer back |
| `AofTheorems.RoundTripIffFits` | src/engine/aof.rs:255-258 | a record survives the round trip iff its lengths fit the `u32` cast |
| `AofTheorems.TornLog` | src/engine/aof.rs:772-865 | for every byte prefix: strict deliveries, the boundary condition for success, tolerant deliveries |
| `AofTheorems.CutRecord` | src/engine/aof_integrity.rs:249-345 | a record cut anywhere is reported as truncated and nothing else |
| `AofTheorems.Resynchronises` | src/engine/aof.rs:789-814 | junk between two intact stretches costs neither of them an operation |
| `AofTheorems.DamageIsCorruption` | src/engine/aof_integrity.rs:346-353 | damage within four consecutive bytes of checksum, key or value is always recognised, and reported with the stored and the computed checksum |
| `AofTheorems.DamagedRecordIsNotDelivered` | src/engine/aof.rs:789-814 | strict replay stops in front of the damaged record with everything before it, tolerant replay goes past it |
| `AofTheorems.AppendToCleanLog` | src/engine/aof.rs:243-339 | the strict reader delivers an appended record last and finishes iff it could finish before; then the tolerant one delivers the same |
| `AofTheorems.AppendIsFoundIff` | src/engine/aof.rs:243-339 | after an append to any bytes the tolerant reader delivers what it did before and then the new record, iff no record straddles the old end or the straddler is a harmless torn copy of the new one |
| `AofTheorems.AppendsAreFound` | src/engine/aof.rs:243-339 | the same for a whole run of appends without a straddling record |
| `AofTheorems.ScanAcross` | src/engine/aof.rs:789-814 | how the readings of a buffer and of its extension agree, and where they part |
| `AofTheorems.TornTailSwallowsAppend` | src/engine/aof.rs:130-180 | a torn tail completed by the next append: the lost operation returns and the appended one is not delivered |
| `AofTheorems.TornTailExample` | src/engine/aof.rs:130-180 | a concrete lost and appended record for which it happens |
| `AofTheorems.NothingScannedIff` | src/engine/aof.rs:789-814 | tolerant replay delivers nothing iff no offset starts a record |
| `AofTheorems.TornLogTolerantIff` | src/engine/aof.rs:772-865 | from a torn log tolerant replay delivers exactly what was wholly written iff no offset of the torn tail starts a record |
| `AofTheorems.TornValueIsReplayed` | src/engine/aof.rs:789-814 | a SET cut anywhere behind a record inside its value: tolerant replay performs something, strict replay nothing |
| `AofTheorems.StrictIffAllValid` | src/engine/aof.rs:789-814 | strict replay succeeds iff every verdict a tolerant reader meets is Valid |
| `AofTheorems.UnknownTail` | src/engine/aof_integrity.rs:245-270 | junk without operation codes behind intact records is a fault but not damage |
| `AofTheorems.ValidStep` | src/engine/aof.rs:843-848 | a valid record advances both readers to its end |
| `AofTheorems.RejectedStep` | src/engine/aof.rs:793-811 | resuming at the next candidate loses nothing the scanner would deliver |
| `Aof1Format.Written1IsRead` | src/engine/aof.rs:721-765 | an AOF1 record reads back with its exact length |
| `Aof1Format.LogRoundTrip1` | src/engine/aof.rs:680-712 | an AOF1 log replays in full under every policy |
| `Aof1Format.CutRecord1` | src/engine/aof.rs:721-765 | reading a record that was cut short fails, having consumed every field that was whole |
| `Aof1Format.TornLog1` | src/engine/aof.rs:680-765 | for every byte prefix: strict deliveries, the boundary condition for success, tolerant deliveries, and when it has to resume |
| `Aof1Format.UnknownCode1` | src/engine/aof.rs:721-740 | an unknown operation code stops strict replay and is skipped by tolerant replay |
| `Aof1Format.ExampleRecord1` | src/engine/compaction.rs:492-517 | two records in the old format, byte for byte |
| `KeyValue.ReplayOverStore` | src/engine/recovery.rs:172-205 | replaying a log over a non-empty store is harmless iff the log mentions every key of the store |
| `KeyValue.EnumerationRebuilds` | src/engine/aof.rs:407-420 | writing out a map in any order and replaying it rebuilds the map |
| `Aof.AofLog.Open` | src/engine/aof.rs:130-200 | refused iff the header is partial or foreign; an empty file gets a header |
| `Aof.AofLog.Append` | src/engine/aof.rs:243-339 | exactly one record goes onto the end; counters; when it flushes, and that it fails iff the flush did |
| `Aof.AofLog.FlushBatch` | src/engine/aof.rs:277-285 | flushes exactly when the batch is full, which keeps fewer than 32 records pending; fails iff the flush did |
| `Aof.AofLog.Flush` | src/engine/aof.rs:643-655 | a successful flush empties the buffer; failures are counted and lose nothing |
| `Aof.AofLog.AdjustBatchSize` | src/engine/aof.rs:662-673 | the batch size is halved iff the log was idle for more than five seconds and it is above 4 |
| `Aof.AofLog.FindNextValidRecord` | src/engine/aof.rs:1004-1020 | the first later offset with code 1 or 2 and nine bytes left, in so many words |
| `Aof.AofLog.ValidateRecord` | src/engine/aof_integrity.rs:209-218 | the verdict of the reference validator, counted once and under its own kind |
| `Aof.AofLog.ReplayAof2` | src/engine/aof.rs:772-865 | on any bytes: tolerant deliveries are the greedy scanner's, strict ones stop at the first non-record; every checked record is delivered, skipped or fatal; each counter grows by the number of verdicts of its own kind |
| `Aof.CountedAll` | src/engine/aof_integrity.rs:132-153 | each counter grows by the number of verdicts of its own kind |
| `Aof.DamageMet` | src/engine/aof_integrity.rs:132-153 | the counters show damage iff they did before or a verdict met since is Corrupted or Truncated |
| `Aof.AofLog.ReplayAof1` | src/engine/aof.rs:680-765 | deliveries, result and number of skips of the AOF1 reader under each policy |
| `Aof.AofLog.Replay` | src/engine/aof.rs:349-380 | header check and dispatch; result, deliveries and integrity counters for every file |
| `Aof.AofLog.Rewrite` | src/engine/aof.rs:388-448 | the file becomes one SET record per live entry, the buffer is dropped |
| `Aof.RewriteRoundTrip` | src/engine/aof.rs:388-420 | a rewritten log replays under every policy to exactly the map written |
| `Aof.AofLog.Repair` | src/engine/aof.rs:494-570 | rewrites iff damage was counted, now or earlier; tolerant modes keep the file's meaning; strict replay succeeds afterwards iff the file was rewritten or replayed strictly before, that is, unless unknown operation codes are the only faults met; strict mode changes nothing |
| `Aof.RepairLeavesUnknownTail` | src/engine/aof.rs:524-537 | a fresh log on intact records followed by junk without operation codes: repair leaves the file and strict replay still fails |
| `Aof.NineZeros` | src/engine/aof.rs:524-537 | one such file: a header and nine zero bytes |
| `Aof.NineIsShortest` | src/engine/aof_integrity.rs:249-252 | no shorter file is like that: fewer than nine bytes behind the header count as damage |
| `Aof.ExampleFiles` | src/engine/aof.rs:130-180 | a whole file in each format, byte for byte |
| `Aof.AofLog.CrashLosesAtMost31` | src/engine/aof.rs:277-285 | under `Always` on a healthy device the file keeps all but the last 31 records; strict replay delivers them and succeeds iff nothing is left behind them, else reports truncation; tolerant replay delivers nothing besides iff no offset of the torn tail starts a record |
| `Slices.SlicesCover` | src/engine/sharding.rs:440-467 | shard sizes add up to the number of keys |
| `Slices.GroupedPut` | src/engine/sharding.rs:356-386 | inserting group by group is inserting left to right |
| `Slices.GroupOverlay` | src/engine/persistent.rs:368-388 | a shard's group writes exactly that shard's part of the deduplicated batch |
| `Slices.PutAllIsOverlay` | src/engine/persistent.rs:351-354 | deduplicating first, last writer winning, changes nothing |
| `Sharding.MaskIsModulo` | src/engine/sharding.rs:266-270 | for powers of two the mask is the remainder |
| `Sharding.ShardForIsModulo` | src/engine/sharding.rs:258-271 | both forms of shard choice agree and stay in range |
| `Sharding.ShardedIndex.ShardForKey` | src/engine/sharding.rs:258-271 | the shard of a key is its hash modulo the number of shards |
| `Sharding.ShardedIndex.WhereKeysLive` | src/engine/sharding.rs:258-271 | a stored key lives in the shard its hash chooses and in no other |
| `Sharding.ShardedIndex.PutInShard` | src/engine/persistent.rs:288-299 | one shard changes, its counter stays its size |
| `Sharding.ShardedIndex.RemoveFromShard` | src/engine/sharding.rs:323-339 | one shard changes, its counter never underflows |
| `Sharding.ShardedIndex.Insert` | src/engine/sharding.rs:302-320 | the index changes as one map; previous value returned |
| `Sharding.ShardedIndex.Remove` | src/engine/sharding.rs:323-339 | the index changes as one map; presence returned |
| `Sharding.ShardedIndex.Get` | src/engine/sharding.rs:342-352 | answers as one map |
| `Sharding.ShardedIndex.MSet` | src/engine/sharding.rs:356-386 | the left-to-right fold, last duplicate winning |
| `Sharding.ShardedIndex.MGet` | src/engine/sharding.rs:390-429 | answers in caller order, duplicates included |
| `Sharding.ShardedIndex.OverlayGroups` | src/engine/persistent.rs:368-388 | groups written in any shard order overlay the whole batch |
| `Sharding.ShardedIndex.TotalKeys` | src/engine/sharding.rs:432-467 | the counters add up to the number of keys; without metrics the total is 0 |
| `Sharding.ShardedIndex.Clear` | src/engine/persistent.rs:590-603 | every shard empty, every counter back to zero |
| `Sharding.ShardedIndex.Rename` | src/engine/persistent.rs:435-505 | within a shard or across two, the value moves and counters follow |
| `Sharding.ShardedIndex.RenameNx` | src/engine/persistent.rs:509-586 | moves only onto a free key; missing source reported first |
| `Sharding.ShardedIndex.MoveAcross` | src/engine/persistent.rs:241-267 | shards locked in id order are handed to the closure as source and target |
| `Persistent.InPersistentStore.Open` | src/engine/persistent.rs:64-91 | refused iff header or strict replay fails; otherwise memory is the fold of what was delivered |
| `Persistent.InPersistentStore.ReplayInto` | src/engine/persistent.rs:205-237 | the replay callback folds the operations into the index |
| `Persistent.InPersistentStore.Set` | src/engine/persistent.rs:272-301 | log first, then memory; fails iff the flush did; log and memory agree afterwards iff it succeeded or the key had that value already |
| `Persistent.InPersistentStore.Get` | src/engine/persistent.rs:304-315 | answers as one map |
| `Persistent.InPersistentStore.Del` | src/engine/persistent.rs:318-343 | logged iff the key existed; fails iff the flush did; log and memory agree even then |
| `Persistent.InPersistentStore.AppendAll` | src/engine/persistent.rs:360-365 | records logged one by one up to the first failure, whose record is still in the log |
| `Persistent.InPersistentStore.MSet` | src/engine/persistent.rs:347-391 | memory and log both end as the left-to-right fold, whatever the hash-map orders; which records are logged; after a failure the two agree iff the store held every entry logged already |
| `Persistent.InPersistentStore.MGet` | src/engine/persistent.rs:395-431 | answers in caller order |
| `Persistent.InPersistentStore.Rename` | src/engine/persistent.rs:435-505 | moves in memory and logs DEL then SET; after a failure behind the DEL log and memory agree iff the target is another key with the same value |
| `Persistent.InPersistentStore.RenameNx` | src/engine/persistent.rs:509-586 | as rename, onto a free key only; log and memory disagree iff only the DEL was logged |
| `Persistent.InPersistentStore.DbSize` | src/engine/persistent.rs:1111-1114 | exact with metrics on |
| `Persistent.InPersistentStore.FlushDb` | src/engine/persistent.rs:590-603 | memory emptied with its counters; nothing logged, so log and memory agree iff there was nothing |
| `Persistent.InPersistentStore.ExecuteAll` | src/engine/persistent.rs:272-586 | any command sequence answers as one map, log and memory in step throughout; the log is a trace of the run: at the mark of each command it folds to the map after those commands, and between marks stand that command's records |
| `Persistent.InPersistentStore.LogImage` | src/engine/persistent.rs:205-237 | the flushed log replays without error under every policy to everything ever logged |
| `Persistent.InPersistentStore.CleanIffStrict` | src/engine/aof.rs:772-815 | a store starts on a clean log exactly when the log replays strictly |
| `Persistent.InPersistentStore.Reopen` | src/engine/sharding.rs:236-255 | reopening under any hash seed, shard count and policy restores the same map |
| `Persistent.InPersistentStore.CrashState` | src/engine/aof.rs:277-285 | what a crash leaves holds the history short of at most 31 records |
| `Persistent.SurvivorsReplay` | src/engine/persistent.rs:85-91 | what each policy makes of the file a crash leaves, and when it refuses |
| `Persistent.CleanFileReplays` | src/engine/persistent.rs:205-237 | an empty or strictly replayable file is a header and its operations, and every policy reads them all |
| `Persistent.InPersistentStore.RunAndReopen` | src/engine/persistent.rs:64-91 | open a clean file, run any fitting commands, reopen under any seed, shard count and policies: replies and contents are those of one map |
| `Persistent.InPersistentStore.RunAndReopenTolerant` | src/engine/persistent.rs:64-91 | the same on any file in the current format under tolerant policies, unless a record straddles its old end |
| `Persistent.InPersistentStore.RunAndCrash` | src/engine/aof.rs:277-285 | a run ended by a crash and reopened: what survives, when a strict policy refuses it, what each policy restores, and for which whole number of commands it stands |
| `Persistent.AfterCut` | src/engine/persistent.rs:347-586 | a history cut on a mark is the map after those commands; cut inside a command it is the map before or after it iff the command is unharmed |
| `Persistent.TornRenameIff` | src/engine/persistent.rs:467-470 | a history ending between a rename's two records stands for the map before or after iff the target is another key with the same value |
| `Persistent.TornMSetIff` | src/engine/persistent.rs:360-365 | a history ending inside an mset stands for the map before iff what was logged was there already, for the map after iff the rest was |
| `Snapshots.CreateSnapshot` | src/engine/compaction.rs:190-245 | every key once, in any order, behind a count that is exact |
| `Snapshots.LoadSnapshot` | src/engine/compaction.rs:270-317 | on any content, which entries are inserted and whether the load succeeds |
| `Snapshots.SnapshotRoundTrip` | src/engine/compaction.rs:215-230 | a complete snapshot loads back entry for entry |
| `Snapshots.SnapshotThenMore` | src/engine/compaction.rs:288-314 | bytes behind a complete snapshot are not looked at |
| `Snapshots.LoadsWhatWasWritten` | src/engine/compaction.rs:270-317 | a file loads iff it begins with a snapshot, and what is loaded is what that holds |
| `Snapshots.ExampleSnapshot` | src/engine/compaction.rs:215-230 | a whole snapshot, byte for byte |
| `Snapshots.SnapshotRestores` | src/engine/compaction.rs:270-317 | into an empty index it restores the map it was taken of |
| `Snapshots.TornSnapshot` | src/engine/compaction.rs:288-314 | a snapshot cut anywhere is refused, having inserted exactly the entries wholly inside the cut |
| `Snapshots.PerformCompaction` | src/engine/compaction.rs:481-522 | the index as SET records in the AOF1 format |
| `Snapshots.CompactionRoundTrip` | src/engine/compaction.rs:492-517 | a compacted log replays under every policy to exactly the map it was made from |
| `Recovery.ReplayOne` | src/engine/recovery.rs:172-203 | one operation applied, and counted by what the index held when it came |
| `Recovery.RecoverFromAofOnly` | src/engine/recovery.rs:147-208 | the fold of the log over the index; how many keys were loaded, added, updated and deleted, exactly; sizes balance |
| `Recovery.RecoveryManager.RecoverFromSnapshotPlusAof` | src/engine/recovery.rs:211-250 | snapshot into the manager's index, whole log over the recovered one, same or not; the counters |
| `Recovery.RecoveryManager.Recover` | src/engine/recovery.rs:107-144 | result, contents and counters of each strategy, failures included; `Auto` succeeds whenever the log is readable |
| `Recovery.SnapshotThenWholeLog` | src/engine/recovery.rs:211-250 | a snapshot of any log prefix, whole or torn, under the whole log changes nothing |
| `Recovery.StaleSnapshotKeyReturns` | src/engine/recovery.rs:230-236 | a snapshot key the log no longer mentions comes back |
| `Crc16.ChecksumOf` | src/engine/slot_manager.rs:756-760 | the table-driven loop computes bit-by-bit division by 0x1021, most significant bit first, on every byte string |
| `Crc16.TableIsEntries` | src/engine/slot_manager.rs:729-754 | each of the 256 constants is eight division steps of its index |
| `Crc16.TableStep` | src/engine/slot_manager.rs:758 | eight division steps are a shift and eight steps of the high byte |
| `Crc16.KnownValue` | src/engine/slot_manager.rs:727-760 | the published check value of "123456789" |
| `Slots.CalculateSlot` | src/engine/slot_manager.rs:280-300 | the checksum modulo 16384 of the tag, if the first open brace is closed behind something, and of the whole key in every other case |
| `Slots.SlotCases` | src/engine/slot_manager.rs:280-300 | the same of the slot function |
| `Slots.KnownSlot` | src/engine/slot_manager.rs:280-300 | the slot of "123456789" |
| `Slots.TaggedKey` | src/engine/slot_manager.rs:280-300 | the first non-empty brace pair alone is hashed |
| `Slots.SameTagSameSlot` | src/engine/slot_manager.rs:280-300 | keys with the same tag share a slot |
| `Slots.SlotManager.SameTagSameShard` | src/engine/slot_manager.rs:269-275 | keys with the same tag are served by the same shard in every state |
| `Slots.SlotManager.constructor` | src/engine/slot_manager.rs:209-246 | slots dealt out round robin, nothing migrating |
| `Slots.SlotManager.SlotShardIs` | src/engine/slot_manager.rs:251-265 | who serves a slot in each state |
| `Slots.SlotManager.GetKeyShard` | src/engine/slot_manager.rs:269-275 | the owner of the key's slot |
| `Slots.SlotManager.RecordOperation` | src/engine/slot_manager.rs:307-325 | one more access of the slot and of its shard |
| `Slots.SlotManager.StartSlotMigration` | src/engine/slot_manager.rs:540-584 | migrating iff active; refusals change nothing; versions count successes; routing kept iff the source named is the owner |
| `Slots.SlotManager.CompleteSlotMigration` | src/engine/slot_manager.rs:587-616 | stable on the target, routing kept iff that is the source; refusals change nothing |
| `Slots.SlotManager.RollbackMigration` | src/engine/slot_manager.rs:619-648 | stable on the source, routing kept; refusals change nothing |
| `Slots.SlotManager.StartThenRollback` | src/engine/slot_manager.rs:540-648 | a migration started and rolled back leaves the table as it was iff it named the current owner |
| `Slots.SlotManager.TriggerRebalance` | src/engine/slot_manager.rs:397-534 | which figures decide, and the plan exactly: the beginning of everything called for, heaviest source first, then lightest target, then slot number; only stable slots with their owner |
| `Slots.WantedExactly` | src/engine/slot_manager.rs:423-453 | what is wanted is every movable slot of every pair of shards and nothing else |
| `Slots.MovesAscend` | src/engine/slot_manager.rs:427-448 | within a pair of shards the slots come in ascending order |
| `Slots.PlansAreCalled` | src/engine/slot_manager.rs:397-534 | both batches hold only what the figures call for, and all of it unless they are full |
| `Slots.SlotManager.SortByLoad` | src/engine/slot_manager.rs:421-422 | the stable sort by load |
| `Slots.SlotManager.PlanFromMetrics` | src/engine/slot_manager.rs:402-470 | the aggregated-metrics path: whole pairs of shards until there are 64, sound and complete below the limit |
| `Slots.SlotManager.PlanFromCounters` | src/engine/slot_manager.rs:473-524 | the counter path: the first 64 migrations wanted, ties by shard number, sound and complete below the limit |
| `Slots.SlotManager.Classify` | src/engine/slot_manager.rs:406-422 | exactly the shards above 1.5 times and below 1/1.5 of the mean, heaviest and lightest first |
| `Slots.ThresholdsAre` | src/engine/slot_manager.rs:406-419 | the thresholds in whole numbers |
| `Cluster.InClusterStore.constructor` | src/engine/cluster.rs:58-76 | an empty cluster, every slot at home |
| `Cluster.InClusterStore.RoutesHome` | src/engine/slot_manager.rs:251-275 | routing gives the home shard whatever is migrating |
| `Cluster.InClusterStore.WhereKeysLive` | src/engine/cluster.rs:223-233 | a stored key lives in the shard that serves its slot and in no other |
| `Cluster.InClusterStore.Note` | src/engine/slot_manager.rs:307-325 | one operation counted for the key's slot and shard, and nothing else |
| `Cluster.InClusterStore.Set` | src/engine/cluster.rs:223-233 | the cluster changes as one map; the key counts as load |
| `Cluster.InClusterStore.Get` | src/engine/cluster.rs:235-244 | answers as one map; the key counts as load |
| `Cluster.InClusterStore.Del` | src/engine/cluster.rs:246-255 | the cluster changes as one map; the key counts as load |
| `Cluster.InClusterStore.MSet` | src/engine/cluster.rs:257-291 | the left-to-right fold for any group order; every key counts as load; cross-shard batches counted |
| `Cluster.InClusterStore.MGet` | src/engine/cluster.rs:293-331 | answers in caller order; every key counts as load; cross-shard batches counted |
| `Cluster.InClusterStore.Rename` | src/engine/cluster.rs:333-353 | refused across home shards, otherwise as on one map; both keys count as load either way |
| `Cluster.InClusterStore.RenameNx` | src/engine/cluster.rs:355-375 | refused across home shards, otherwise as on one map; both keys count as load either way |
| `Cluster.InClusterStore.FlushDb` | src/engine/cluster.rs:377-383 | everything gone, all load counters at zero, routing kept |
| `Cluster.InClusterStore.DbSize` | src/engine/cluster.rs:536-548 | the number of keys |
| `Cluster.InClusterStore.PlanMigrations` | src/engine/cluster.rs:129-131 | what the load figures lead to is planned and queued, with home shards as sources |
| `Cluster.InClusterStore.StartNextMigration` | src/engine/cluster.rs:133-144 | the next planned migration is started, or refused if one is active; every slot stays served by the same shard |
| `Cluster.InClusterStore.ExecuteAll` | src/engine/cluster.rs:112-383 | every interleaving of clients and rebalancer answers as one map, and the load counters of every slot and shard are the number of keys named since the last flush that fall there |
| `Cluster.InClusterStore.RollBack` | src/engine/slot_manager.rs:619-648 | rolled back or refused, every slot stays served by the same shard |
| `Cluster.InClusterStore.RerouteStrandsKeys` | src/engine/cluster.rs:160-171 | under a slot table with one slot rerouted, `get` answers for a key as one map iff the key lies elsewhere, the owner is the same, or the owner exists and the key is not stored |
| `Cluster.InClusterStore.RerouteIff` | src/engine/slot_manager.rs:251-275 | with one slot re-homed to where it is routed, the cluster is in order iff nothing changed, or the shard exists, the slot is empty and no earlier plan names it |
| `Cluster.InClusterStore.CompleteMigration` | src/engine/slot_manager.rs:587-616 | exactly when every `get` is still answered as by one map, and exactly when the invariant behind every later run holds again |
| `Cluster.InClusterStore.StartMigration` | src/engine/slot_manager.rs:540-584 | exactly when the invariant behind every later run survives a start by anyone |
| `Ring.ConsistentHashRing.constructor` | src/engine/slot_manager.rs:121-144 | every virtual node is on the ring, held by the last shard with that point; empty iff without shards or virtual nodes |
| `Ring.ConsistentHashRing.EmptyAtFirstIff` | src/engine/slot_manager.rs:121-144 | when a new ring is empty |
| `Ring.ConsistentHashRing.GetShard` | src/engine/slot_manager.rs:151-170 | binary search with wrap-around finds the shard of the node nearest clockwise to the key's hash; panics iff the ring is empty |
| `Ring.InsertionPointIsNearest` | src/engine/slot_manager.rs:159-169 | the wrapped insertion point minimises the clockwise distance |
| `Ring.ConsistentHashRing.AddShard` | src/engine/slot_manager.rs:173-186 | the shard holds all its points, nothing else changes and the vector stays the sorted key set |
| `Ring.ConsistentHashRing.RemoveShard` | src/engine/slot_manager.rs:189-197 | exactly the shard's points go and the vector stays the sorted key set; when that empties the ring |
| `Ring.AddDisruptsLittle` | src/engine/slot_manager.rs:173-186 | adding a shard leaves each key on its node or moves it to the new shard, the latter iff one of its points is at least as near |
| `Ring.RemoveDisruptsLittle` | src/engine/slot_manager.rs:189-197 | removing a shard leaves a key on its node iff that was not one of the shard |
| `Ring.AddThenRemoveIff` | src/engine/slot_manager.rs:173-197 | adding then removing restores the ring iff the shard was new and no point collided |

## Left out

- Real file I/O beyond the byte sequence: write errors other than a failed flush, fsync, temporary files, snapshot listing and retention.
- Threads: concurrent callers of one store, the flusher and compaction workers, lock poisoning; several callers of `start_slot_migration` racing each other.
- The content of values (ZDB encoding), and with it the geo and set commands of the stores.
- `should_rebalance`, `src/engine/rebalancer.rs` and `src/engine/metrics.rs`: floating-point decisions; planning is allowed at any time instead.
- Damage to the operation byte of a record, which its checksum does not cover.
- A cluster given a slot manager made for another number of shards, where routing can fail with `WrongShard`.
- Shards of the cluster other than in-memory stores.
- Counters of reads, writes, waiting times and slow operations, `u64` overflow of counters, repair messages, the length sum reported as a snapshot checksum.
- Appending AOF2 records to a file with an AOF1 header, or through an open log whose file was replaced by compaction.
- Authentication, scripting, the network protocol, commands and configuration.
