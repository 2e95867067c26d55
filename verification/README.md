# BedrockKV in Dafny

This project models BedrockKV, a log-structured merge store written in C++, and proves that what its users can observe
is a map: a Get, a Scan and a snapshot read return the newest write that precedes them, whatever flushes, compactions,
value-log collections, crashes and reopenings happen in between. Three things in the source can break this: a
publication that moves the replay floor too early, a torn log header and a torn value log. For each there is a
counterexample and the exact condition, proved for all inputs. `dafny verify dfyconfig.toml` checks everything; Dafny
4.11.

## How it is built

**The engine as a state machine.** A store (`Lsm`) is an active and an immutable memtable, L0, the levels L1..L6, live
snapshots and a sequence counter; `Engine` adds the background compaction job, the log generations and the published
MANIFEST. Each action is what the source does under one hold of its mutex: write, rotate, flush install, flush done,
pick, capture floor, compaction install, publish, take and release a snapshot, crash and open. A compaction is three
actions, so writes, rotations and snapshots fall between its steps. The specification is a map for the latest state and
one frozen map per live snapshot. `EngineRuns` proves, for every run, that reads are the newest writes of the run, that
the level shape holds, and that recovery restores every acknowledged write when the publication condition below is met.

**Value separation and its garbage collection.** `Gc` puts the value log above the engine: large values, and short ones
that could be mistaken for pointers, go to a value log and the engine stores a 21-byte pointer. A generation is a file
of arbitrary bytes, and a crash may tear the entry being appended. A collection pass is start, one action per scanned
entry, and retirement, interleaved freely with user writes, snapshots, flushes and compactions. `GcRuns` proves that
every read in every such life with safe retirements returns the bytes that were put; `GcSafety` says when a retirement
is safe.

**The byte formats.** The write-ahead log (`Wal`, `WalReplay`, `WalAppend`, `WalRecords`, `AsyncWal`),
prefix-compressed blocks (`Block`, `BlockIo`), tables with index and Bloom filter (`Sst`, `SstBuild`, `SstRead`,
`SstIterator`, `Tables`), value-log entries and pointers (`VLog`), and the MANIFEST (`Manifest`, `ManifestParse`,
`Publishing`, `Opening`) are proved to agree with plain lists, and their readers to accept arbitrary bytes exactly where
intact records stand. `CrashRecovery` joins them to the engine: what a crash at any step, or
inside any log append, leaves on disk opens to the run's own answers. CRC-32 is table-driven in the code; `Crc` proves
it equal to the bitwise reflected polynomial of section 8 of RFC 1952.

**The skiplist.** `SkipList`, `SkipListRuns` and `SkipListProgress` interleave the single loads and stores of one
inserter with those of any number of searches and iterators, and bound how long each can take; `MemTable` is the
sequential class the memtable uses.

**The server's parser.** `RespGrammar` says what a request is in arbitrary bytes; `RespParser` is the incremental RESP2
parser, proved to find exactly that, and to be independent of how a stream of commands is cut.

Code that updates state in place is imperative here too: classes `Db`, `MergingIterator`, `Writer`, `Reader`,
`VLogFile`, `Shard`, `Cache`, `SkipListTable`, `BlockBuilder`, `BlockCursor`, `Builder`, `TableIterator` and `Parser`,
and methods with loops for picking, merging, scanning, replay, the checksum and the filter. Each is proved against
functions of the old state, and the theorems are about those functions.

## Where the code does not keep a promise

- *Replay floor.* `docs/design.md:160-171` promises that replaying every log at or above the floor loses nothing.
  `WriteManifest` always publishes the current log as the floor (`src/db.cpp:628`), so a compaction or collection that
  publishes while an older log still holds unflushed records moves the floor past them; `docs/design.md:366-368` and
  `docs/vlog-format.md:82-90` record this. `LostWrite.CompactionDuringFlushLosesWrites` is a concrete run that loses an
  acknowledged write. `EngineRuns.StepKeepsCoverage` states exactly when a step keeps recovery possible: a compaction or
  collection publication does if and only if every older log still replayed is empty; every other step does always.
- *Torn log header.* A tail of one to eight bytes reads as a clean end (`src/log.cpp:110-113`) and Open cuts only on
  damage (`src/db.cpp:442-467`), so the next record is appended behind garbage and lost:
  `WalAppend.OneByteTailLosesRecord`. `WalAppend.AppendsReadBackIff` gives the exact condition for every byte string;
  `WalRecords.CutIsClosed` shows that cutting always suffices.
- *Torn value log.* Scanning stops at the first bad entry without an error (`src/vlog.cpp:205-220`), reopening appends
  behind it, and a collection pass then unlinks the file with the live values its scan did not see
  (`src/db.cpp:1496-1556`): `LostValue.TornTailLosesLiveValue` is a whole life in which an acknowledged value becomes
  unreadable. `GcSafety.RetirementIsSafeIff` gives the exact condition, `GcSafety.SafeStartsSuffice` lets it be checked
  before the pass, `GcSafety.UntornLivesAreSafe` shows that without a torn append it always holds, and
  `VLog.AppendedIsScannedIff` says for every file when an appended entry is scanned.
- *Lines of spaces.* `include/bedrockkv/resp.h:42` promises that the parser asks for more only when a prefix of a
  request is left, and the server drains on that promise (`src/server.cpp:340-351`). A line of spaces is consumed and
  answered the same way (`src/resp.cpp:166-169`), so a whole command behind it waits for the next packet:
  `RespParser.SpacesHoldBack`. `RespParser.Parser.Next` states that this is the only exception.
- *21-byte values.* `docs/design.md:371-372` lists a 21-byte value starting with 0xFF as colliding with the pointer
  encoding. The code separates such values (`src/db.cpp:663-697`); the model follows the code, and
  `Values.PointerIffSeparated` proves there is no collision. Likewise `include/bedrockkv/bloom.h:29` rounds the number of
  probes where the code truncates it.

## Model

| member | source | states |
|---|---|---|
| `Keys.LessIff` | src/block.cpp:10-24 | one key is less than another exactly if at their first difference its byte is lower or it ends there |
| `InternalKeys.InternalLessIsStrictOrder` | src/block.cpp:10-24 | the internal-key comparator is a strict order on all byte strings, and keys neither before the other have the same user key and tag |
| `InternalKeys.KeyOrderIsEntryOrder` | src/sstable.cpp:18-25 | encoded internal keys of different versions compare exactly as (user key ascending, sequence number descending) |
| `InternalKeys.SeekKeyOrder` | src/sstable.cpp:280-291 | an entry is before the search key of (k, r) exactly when its user key is smaller, or equal with a sequence number above r |
| `Versions.ProbeFindsTheOnlyFile` | src/db.cpp:1081-1109 | in a leveled run the upper_bound probe opens the only table that can hold the key, and nothing outside the run |
| `Versions.LevelFilesShareNoKey` | src/db.cpp:1850-1867 | two tables of one leveled run never share a user key, so all versions of a key in a level lie in one table |
| `Versions.FirstHitIsTop` | src/db.cpp:1040-1111 | if earlier tables hold the newer versions, the first table with a visible version decides the lookup for all |
| `Lookups.FindTable` | src/db.cpp:1083-1091 | the binary search returns the number of tables whose smallest key is at or before the key |
| `Lookups.LookupIn` | src/db.cpp:1033-1111 | the traversal loops (memtables, L0 newest first, one table per level) return the lookup function's entry |
| `Lsm.LookupIsTop` | src/db.cpp:1033-1111 | in every well-shaped store the lookup returns the newest version visible at the read point among everything stored, or there is none |
| `Lsm.GetAnswersSpec` | src/db.cpp:1117-1155 | in every good state a read at the latest point or at any live snapshot answers what the specification map there holds |
| `LsmSteps.WriteKeepsInv` | src/db.cpp:745-778 | a write keeps the invariant and shows in the latest map only; every frozen map stays as it was |
| `LsmSteps.RotateKeepsInv` | src/db.cpp:975-985 | rotation changes no read |
| `LsmSteps.FlushInstallKeepsInv` | src/db.cpp:1668-1678 | installing the flushed table while the immutable memtable is still there changes no read |
| `LsmSteps.FlushDoneKeepsInv` | src/db.cpp:1578-1582 | dropping the immutable memtable after the install changes no read |
| `LsmSteps.TakeSnapshotKeepsInv` | src/db.cpp:1257-1267 | a snapshot at the last assigned sequence number reads the current map from then on |
| `LsmSteps.ReleaseSnapshotKeepsInv` | src/db.cpp:1269-1278 | releasing one snapshot leaves all other reads alone |
| `Retention.RetentionKeepsAnswers` | src/db.cpp:1780-1793 | for every read point at or above the floor, or at or above the largest input sequence number, the retained versions answer as the inputs did; only a bottom-level tombstone may turn into absence |
| `Retention.OneVersionBelowFloor` | src/db.cpp:1871-1880 | at most one version at or below the floor survives per key |
| `Retention.FloorVersionSurvives` | src/db.cpp:1873-1877 | the newest version at or below the floor is dropped if and only if it is a tombstone at the bottom level |
| `Retention.ReplaceKeepsReads` | src/db.cpp:1897-1932 | replacing the inputs by such outputs inside the layers preserves every read at that point through all layers |
| `Merging.MergeIsUnion` | include/bedrockkv/iterator.h:42-87 | the merge is the multiset union of its children |
| `Merging.MergeIsSorted` | include/bedrockkv/iterator.h:42-87 | merging sorted children yields a sorted list |
| `Merging.MergeIsStrict` | include/bedrockkv/iterator.h:74-82 | without ties between children the merge is strictly increasing |
| `Merging.MergingIterator.FindSmallest` | include/bedrockkv/iterator.h:74-82 | the loop selects the first child with the least head, or none when all are exhausted |
| `Merging.MergingIterator.Seek` | include/bedrockkv/iterator.h:56-61 | after a seek the iterator stands at the start of the merge of the children's suffixes from the target |
| `Merging.MergingIterator.Next` | include/bedrockkv/iterator.h:63-68 | advancing moves exactly one position along the merge |
| `Compaction.LoopKeepsRetained` | src/db.cpp:1847-1886 | the compaction loop's flags keep exactly the versions the retention rule keeps |
| `Compaction.Decide` | src/db.cpp:1850-1880 | one iteration's keep decision is the retention rule for the entry at hand, from the loop's flags alone |
| `Compaction.MergeInputs` | src/db.cpp:1806-1895 | the loop writes the kept versions in order into tables that form a leveled run with fresh numbers and the sizes they have on disk; a table ends at the first change of user key that finds it full, the last one with the input |
| `Picking.CompactionNeeded` | src/db.cpp:1694-1712 | true exactly when compaction is not switched off and L0 reached its trigger or some level but the last exceeds its limit |
| `Picking.OverlapsIff` | src/db.cpp:1763-1764 | a table overlaps a key range exactly if some key lies in both |
| `Picking.WithinIff` | src/db.cpp:1740-1752 | a table lies in the range widened to its bounds exactly if all its keys do |
| `Picking.CloseRange` | src/db.cpp:1755-1773 | the overlap fixpoint terminates, no table left in the target overlaps the closed key range, and every closed range around the start has room for the result: it is the least one |
| `Picking.PickCompaction` | src/db.cpp:1714-1774 | the picked inputs are all of L0, or one table of the first level over its limit, plus the target tables they overlap, and of those no more than any closed key range around the inputs holds |
| `Install.NewLevelOk` | src/db.cpp:1922-1931 | surviving and new tables, sorted by smallest key, are again a run with disjoint ranges |
| `Install.InstallKeepsInv` | src/db.cpp:1897-1932 | installing a compaction keeps level shape, layering and every read at the latest point and at all live snapshots |
| `Termination.InstallLowersWeight` | src/db.cpp:1897-1932 | the sum over stored entries of the levels still below them strictly decreases with every compaction |
| `Termination.CompactOnce` | src/db.cpp:1714-1945 | one pick and run keeps every read and lowers that sum |
| `Termination.CompactAll` | src/db.cpp:1595-1613 | with no new flushes repeated compaction stops with none needed, all reads unchanged |
| `Recovery.ReplayElems` | src/db.cpp:428-478 | replay rebuilds a sorted memtable holding exactly the records of the logs at or above the floor |
| `Recovery.ReopenKeepsInv` | src/db.cpp:482-492 | a reopened store reads as the crashed one did at the latest point; snapshots are gone |
| `EngineSteps.WriteStep` | src/db.cpp:652-779 | a write keeps the engine invariant and keeps the logs covering the unflushed records |
| `EngineSteps.RotateStep` | src/db.cpp:933-989 | a rotation keeps the invariant and coverage |
| `EngineSteps.FlushInstallStep` | src/db.cpp:1668-1680 | a flush publication keeps the invariant and always leaves the logs covering what is unflushed |
| `EngineSteps.FlushDoneStep` | src/db.cpp:1578-1583 | deleting the retired log keeps the invariant and coverage |
| `EngineSteps.PickStep` | src/db.cpp:1595-1600 | choosing inputs keeps the invariant |
| `EngineSteps.CaptureFloorStep` | src/db.cpp:1794-1798 | the captured floor is safe for every live snapshot |
| `EngineSteps.InstallStep` | src/db.cpp:1897-1945 | a compaction install, whatever was written and snapshotted since its floor was captured, keeps the invariant |
| `EngineSteps.TakeSnapshotStep` | src/db.cpp:1257-1267 | a snapshot taken while a compaction runs keeps the invariant |
| `EngineSteps.ReleaseSnapshotStep` | src/db.cpp:1269-1278 | a release keeps the invariant |
| `EngineSteps.PublicationIsSafeIff` | src/db.cpp:566-648 | after a publication that changes no unflushed record the logs from the floor on hold exactly the unflushed records if and only if every older replayed log is empty |
| `EngineSteps.CrashStep` | src/db.cpp:423-492 | from a covered state a crash and reopen keep the invariant, the latest map and coverage |
| `EngineRuns.RunKeepsInv` | src/db.cpp:261-1945 | every state of every run of writes, rotations, flushes, compactions, snapshots and crashes satisfies the invariant |
| `EngineRuns.StepsStayOpen` | src/db.cpp:991-1021 | after every run a publication and a snapshot are possible, a write while sequence numbers last, a rotation when no flush is pending, and the pending flush once no compaction runs |
| `EngineRuns.ReadsAreNewestWrites` | src/db.cpp:1113-1155 | in every run a latest read returns the newest write of the run and a read at a live snapshot the newest write that preceded the snapshot, deleted and missing both not found |
| `EngineRuns.LatestIff` | src/db.cpp:991-1021 | the newest value of a key in a run is v exactly if some step writes v to it and no later step writes to it |
| `EngineRuns.InstallLeaves` | src/db.cpp:1286-1294 | in every run, what a compaction leaves of its inputs is, in terms of the read points live when it captured its floor: every version some of them does not see, and of the versions all of them see the newest of each key, unless a tombstone that reaches the bottom level |
| `EngineRuns.InstallLeavesOneVersion` | src/db.cpp:1874-1880 | in every run, an install leaves at most one version of a key at or below every read point that was live when the floor was captured |
| `EngineRuns.LevelShapeIsInvariant` | src/db.cpp:1897-1932 | in every reachable version L1..L6 are disjoint sorted runs, L0 is in strictly descending number and recency order, and no table number occurs twice |
| `EngineRuns.StepKeepsCoverage` | src/db.cpp:566-648 | each step from a covered state leaves a covered state if and only if, when it is a compaction or collection publication, the older replayed logs are empty |
| `EngineRuns.SafeRunsAreCovered` | src/db.cpp:1634-1684 | if all such publications in a run are safe, a crash is survivable after every step; flushes need no condition |
| `EngineRuns.RecoveryRestoresView` | src/db.cpp:286-492 | what the MANIFEST and the logs hold after any step of such a run reads every acknowledged write of the run |
| `CrashRecovery.OpenAfterCrash` | src/db.cpp:261-492 | the process dies anywhere in such a run, also inside the append of a write: opening the MANIFEST, tables and log files it left succeeds, and every read answers as the run does, with the write in flight for all keys or for none, exactly if its record is complete |
| `CrashRecovery.DiskReplays` | src/db.cpp:390-478 | whatever part of the last record is on disk, and whatever empty or outdated log files lie about, replay gives the memtable of the engine before the write or after it |
| `LostWrite.CompactionDuringFlushLosesWrites` | src/db.cpp:623-631 | a concrete legal run in which a compaction publishes while a flush is pending: after the crash an acknowledged write is gone |
| `Scanning.Scan` | src/db.cpp:1163-1253 | a scan emits, in key order and once each, exactly the pairs with begin at or before and end after the key that a Get at the same read point finds |
| `Scanning.Emit` | src/db.cpp:1221-1249 | one iteration emits the first visible version of a key and skips the rest of its versions |
| `Crc.BuildTable` | src/crc32.cpp:7-18 | each table entry is what eight bitwise steps of the reflected polynomial make of its index |
| `Crc.TableStep` | src/crc32.cpp:28 | one table lookup equals eight bitwise steps |
| `Crc.ComputeCrc32` | src/crc32.cpp:24-31 | the table-driven loop computes the bitwise checksum (section 8 of RFC 1952) |
| `Crc.KnownChecksums` | src/crc32.cpp:7-31 | the checksums of the empty string and of four bytes of ones with a top bit behind them, which fix polynomial, initial value and final inversion |
| `Crc.Streaming` | src/crc32.cpp:24-31 | continuing from a checksum equals checksumming the concatenation |
| `Wal.EncodeReadsBack` | src/log.cpp:39-88 | an encoded record is read back whole from any offset, across every fragmentation and block padding |
| `Wal.CutReplays` | src/log.cpp:175-235 | for every byte string, cutting at the last good end and rereading yields the same records and then a clean end |
| `WalReplay.PrefixReplaysExactly` | src/log.cpp:175-235 | for every list of payloads and every byte prefix of their encoding the reader returns exactly the records wholly inside, and the last good end is the end of the last of them |
| `WalReplay.ReadPhysicalIsExact` | src/log.cpp:107-173 | for every byte string: past blank ends of blocks the reader returns the record that stands there whole and with a right checksum, reports damage exactly if none does, and finds nothing exactly at the end of the file |
| `WalReplay.ReadRecordIff` | src/log.cpp:175-235 | for every byte string: a record is returned exactly where intact fragments tagged whole, or first, middle, last, follow one another with only blanks between, and it is their concatenation |
| `WalReplay.AppendAfterCut` | src/log.cpp:90-103 | for every byte string, records appended at the last good end after a cut read back behind the old ones |
| `WalAppend.AppendsReadBackIff` | src/db.cpp:433-467 | for every byte string as log: after opening, appended entries replay behind the old ones if and only if the log was cut, or nothing is left behind its last record, or no header fits in the last block and what is left is skipped as padding |
| `WalReplay.TornHeaderIsSilent` | src/log.cpp:110-113 | a tail shorter than a header reads as a clean end, so nothing is cut |
| `WalAppend.OneByteTailLosesRecord` | src/log.cpp:110-113 | a log of one leftover byte reads as a clean end; whatever non-empty record is appended behind it, the next opening finds damage and cuts the log to nothing |
| `WalIo.EncodeRecord` | src/log.cpp:39-88 | the fragmentation loop produces the record encoding for any offset |
| `WalIo.Writer.AddRecord` | src/log.cpp:90-103 | the file grows by the encoding at the current offset |
| `WalIo.Reader.ReadPhysicalRecord` | src/log.cpp:107-173 | the block-buffered reader returns the fragment, end or damage found at its position in the file |
| `WalIo.Reader.ReadNext` | src/log.cpp:175-235 | the record loop returns the record, end or damage at its position and moves its last good end only past whole records |
| `WalIo.ReplayFile` | src/db.cpp:433-452 | reading to the first non-ok result collects exactly the replayed records and their end |
| `WalRecords.PayloadRoundTrip` | src/db.cpp:698-706 | every recorded write parses back to itself |
| `WalRecords.ParseIsExact` | src/db.cpp:164-194 | a payload is accepted only if it is the encoding of the entry it yields |
| `WalRecords.CutIsClosed` | src/db.cpp:439-467 | for every byte string: cut behind the last entry applied, at damage or at a record that cannot be parsed, the log replays to the same entries and then ends cleanly |
| `WalRecords.CrashedAppendReplays` | src/db.cpp:748-764 | a crash at any byte of an append leaves a log that replays to the acknowledged entries, and to the one in flight exactly if its record is whole; after a cut, or with nothing left over, it can be appended to again |
| `WalRecords.LogBytesIsClosed` | src/db.cpp:698-706 | the log that writing a list of entries produces replays to exactly that list and ends cleanly |
| `WalRecords.AppendKeepsClosed` | src/db.cpp:698-764 | entries appended to a log that ends cleanly replay behind those it held |
| `AsyncWal.AnyOrderIsAppend` | src/db.cpp:708-749 | for every completion order of the explicit-offset writes the file equals what appending the same payloads produces |
| `AsyncWal.PartialCompletionIsInPlace` | src/db.cpp:721-726 | every completed write's bytes are already in their final place, whatever else is outstanding |
| `VLog.PointerRoundTrip` | src/vlog.cpp:21-41 | an encoded pointer decodes to itself |
| `VLog.PointerDecodeIsExact` | src/vlog.cpp:31-41 | a slot of pointer shape is the encoding of the pointer it decodes to |
| `VLog.ReadsBack` | src/vlog.cpp:122-172 | a value is read back from wherever its entry lies in the file |
| `VLog.AppendKeepsRead` | src/vlog.cpp:122-172 | a value that can be read stays readable, unchanged, whatever is appended |
| `VLog.ReadValueIff` | src/vlog.cpp:122-172 | for every byte string: a value is returned exactly where an entry with it stands whole and with a right checksum |
| `VLog.ScanIsLongest` | src/vlog.cpp:182-226 | for every byte string: a scan visits a list of intact entries that fills the file up to where it stops, and no intact entry stands there |
| `VLog.ScanFindsAll` | src/vlog.cpp:182-226 | scanning a file of intact entries visits every entry once, at its offset, in order |
| `VLog.AppendedIsScannedIff` | src/vlog.cpp:182-226 | for every file: an entry appended to it is found by a scan if and only if the scan of the file before came to its end; its pointer reads the value in any case |
| `VLog.TornTailHidesEntries` | src/vlog.cpp:205-220 | behind one leftover byte no appended entry is scanned, though its pointer still reads its value |
| `VLog.TornTailScansNothing` | src/vlog.cpp:197-210 | unless the key is very short for its value, the scan behind such a byte finds nothing at all |
| `VLogIo.VLogFile.Append` | src/vlog.cpp:74-120 | the file grows by the encoded entry and the returned offset is its start, however the write calls split the buffer |
| `VLogIo.VLogFile.Read` | src/vlog.cpp:122-172 | the read with its range, size and checksum checks in order |
| `VLogIo.VLogFile.ScanEntries` | src/vlog.cpp:182-226 | the loop yields the scan of the file below the limit |
| `Values.PointerIffSeparated` | src/db.cpp:665-684 | a stored slot decodes as a pointer exactly when the write put its value in the value log |
| `Values.SlotHolds` | src/db.cpp:665-697 | what a write stores stands for the value written, 21-byte values starting 0xFF included |
| `Values.HoldsResolves` | src/db.cpp:1298-1336 | such a slot resolves to the value byte for byte |
| `Values.AppendKeepsCached` | src/db.cpp:1316-1334 | a cached answer stays what the value log reads, whatever is appended |
| `GcSteps.WrittenKeepsInv` | src/db.cpp:652-779 | a separated write keeps the agreement of slots and values and passes no scanned entry |
| `GcSteps.RewriteIsInvisible` | src/db.cpp:1475-1491 | a live entry holds the user's current value, so rewriting it changes nothing the user sees |
| `GcSteps.LiveVisitKeepsInv` | src/db.cpp:1475-1491 | visiting a live entry and rewriting it under one mutex hold keeps the invariant |
| `GcSteps.DeadVisitKeepsInv` | src/db.cpp:1479-1485 | skipping a dead entry keeps the invariant |
| `GcSteps.NothingVisitedPointsBack` | src/db.cpp:1462-1499 | once every entry a scan visits is visited, no latest pointer selects a visited entry of a retired generation |
| `GcSteps.RetireKeepsInv` | src/db.cpp:1514-1553 | retiring generations whose scans visit what every latest pointer into them selects keeps every read |
| `GcSteps.StartKeepsInv` | src/db.cpp:1382-1420 | rotating to a fresh published generation keeps every read |
| `GcSteps.CrashKeepsInv` | src/db.cpp:329-388 | a crash that leaves any part of a value-log entry, torn or whole, keeps the latest values |
| `GcRuns.LifeKeepsInv` | src/db.cpp:652-1560 | every state of every life with collection passes interleaved and safe retirements satisfies the invariant, over value logs of arbitrary bytes |
| `GcRuns.ReadsReturnWhatWasPut` | src/db.cpp:1377-1560 | in every life with safe retirements, torn value-log appends included, latest reads return the newest Put byte for byte and snapshot reads the newest before the snapshot, and none fails to resolve |
| `GcRuns.ScannedEntriesStayDead` | src/db.cpp:1446-1500 | an entry a running pass is done with is never again what the latest version of a key points at |
| `GcSafety.RetirementIsSafeIff` | src/db.cpp:1514-1556 | whatever the files hold and whatever ran during the pass: retirement keeps every latest read if and only if scans visit what every latest pointer into the retired generations selects; a key for which this fails can be read before and not after |
| `GcSafety.NextRetirementIsSafeIff` | src/db.cpp:1514-1556 | the same for the next retirement of every life so far safe |
| `GcSafety.SafeStartsSuffice` | src/db.cpp:1381-1436 | checking that condition when a pass starts is enough, whatever is written while it runs |
| `GcSafety.UntornLivesAreSafe` | src/vlog.cpp:74-120 | in every life whose crashes leave value-log entries whole or not at all, every retirement is safe |
| `LostValue.TornTailLosesLiveValue` | src/vlog.cpp:205-220 | a life that survives a crash after one byte of a value-log append, puts a value behind that byte and then collects: the value is acknowledged and the newest, and reading it fails |
| `GcPass.RunVlogGC` | src/db.cpp:1377-1560 | a pass alone, over files of arbitrary bytes, leaves one generation holding just the rewritten entries, each the user's current value, and twice their value bytes as the next floor; it keeps the user's view if before it scans visit what every latest pointer selects, and makes some key unreadable if not; it changes nothing exactly if a snapshot is alive |
| `GcPass.VlogGcNeeded` | src/db.cpp:1344-1375 | true exactly if separation is on, a value log is open, no snapshot is alive, and an older generation is left or the file reached both trigger and floor; on an idle database the pass can then start |
| `GcPass.CollectIfNeeded` | src/db.cpp:1614-1617 | the background thread's turn runs a pass exactly if the trigger says so, and a pass it runs never ends in the state it began in |
| `GcPass.NoLivelock` | src/db.cpp:1344-1375 | a pass is not followed by another when rewritten values outweigh keys and headers or all stays below the trigger; if everything is separated again, exactly then |
| `Lru.FitIsLongestPrefix` | include/bedrockkv/lru_cache.h:90-95 | eviction keeps the longest run of most recently used pairs within the cap |
| `Lru.OversizeEmptiesShard` | include/bedrockkv/lru_cache.h:72-95 | a value above the shard's share but within the total empties the shard |
| `Lru.Shard.Get` | include/bedrockkv/lru_cache.h:57-67 | a hit returns the stored value and moves the pair to the front; a miss changes nothing |
| `Lru.Shard.Put` | include/bedrockkv/lru_cache.h:71-95 | the pair goes to the front of what was there, the rest evicted from the back to fit, weight kept exact |
| `Lru.Cache.Get` | include/bedrockkv/lru_cache.h:57-67 | a hit is a pair the cache held, a miss means none, and what it holds does not change |
| `Lru.Cache.Put` | include/bedrockkv/lru_cache.h:71-95 | afterwards a hit for the key can only be the new value and every other hit was one before; a value heavier than the cache changes nothing, any other goes to the front of its shard and no other shard changes |
| `Database.Db.constructor` | src/db.cpp:261-388 | a fresh database stands for the empty map; the separation threshold is at least 64 |
| `Database.Db.MaybeResolvePointer` | src/db.cpp:1298-1336 | through the cache the result is what reading the value log gives; a pointer into a generation that is gone fails, or answers from the cache if the cache still holds it |
| `Database.Db.Get` | src/db.cpp:1117-1155 | a read of the latest state or of a live snapshot returns the value the user's map there has for the key, or not found if it has none |
| `Database.Db.Scan` | src/db.cpp:1163-1253 | exactly the pairs of the user's map with begin at or before and end after the key, in key order, values resolved |
| `Database.Db.WriteValue` | src/db.cpp:652-779 | the state after a value write, value log first, and the user's map updated |
| `Database.Db.RotateForFlush` | src/db.cpp:933-989 | the state after a rotation; the user's view unchanged |
| `Database.Db.FlushImm` | src/db.cpp:1634-1684 | the immutable memtable becomes the newest L0 table and its log is dropped; the user's view unchanged |
| `Database.Db.MakeRoom` | src/db.cpp:995-1004 | a pending flush is waited for, and the memtable is rotated out exactly if it reached the write buffer size; the user's view unchanged |
| `Database.Db.Put` | src/db.cpp:991-1006 | whatever room had to be made, the user's map afterwards is the old one with the value set |
| `Database.Db.Delete` | src/db.cpp:1008-1023 | the user's map afterwards is the old one without the key |
| `Database.Db.GetSnapshot` | src/db.cpp:1257-1267 | the user's map is frozen as it stands |
| `Database.Db.ReleaseSnapshot` | src/db.cpp:1269-1278 | that frozen map and no other is dropped |
| `Database.Db.SmallestSnapshotSeq` | src/db.cpp:1286-1294 | the loop returns a live read point that none is below, or the highest number there is when none is live |
| `SkipList.LoadKeepsReader` | include/bedrockkv/skiplist.h:146-165 | each load keeps a search on track, and the last one returns the least node at or past the target on level 0 |
| `SkipList.PresentIsFound` | include/bedrockkv/skiplist.h:146-165 | a node on level 0 when the search began and equivalent to its target makes the result equivalent to the target |
| `SkipList.AdvanceKeepsWalk` | include/bedrockkv/skiplist.h:105-122 | each load of an iterator keeps its order and leaves out nothing that was linked when it began |
| `SkipList.SearchStep` | include/bedrockkv/skiplist.h:179-187 | the inserter's search records the last node before the key on each level and stops at a duplicate |
| `SkipList.StoreStep` | include/bedrockkv/skiplist.h:201 | storing the unlinked node's own pointer disturbs no level and no search |
| `SkipList.LinkKeepsChain` | include/bedrockkv/skiplist.h:200-203 | linking puts the node right behind its predecessor and moves nothing else |
| `SkipList.LinkStep` | include/bedrockkv/skiplist.h:202 | a link store keeps every level in order, each level within the one below, and every running search on track |
| `SkipListRuns.RunKeepsInv` | include/bedrockkv/skiplist.h:146-207 | every interleaving of one inserter's loads and stores with any number of searches keeps the invariant |
| `SkipListRuns.LastLoadDecides` | include/bedrockkv/skiplist.h:146-165 | a search returns the least level-0 node at or past its target at the moment of its last load |
| `SkipListRuns.LinkedKeysAreFound` | include/bedrockkv/skiplist.h:178-207 | a key linked before a search began is found by it in every interleaving |
| `SkipListRuns.InsertsAreLinked` | include/bedrockkv/skiplist.h:178-207 | in every interleaving an insertion the inserter is done with has left its entry on level 0, or an equivalent one was there, and it stays |
| `SkipListRuns.WalksMissNothing` | include/bedrockkv/skiplist.h:105-122 | an iterator that runs while the inserter inserts yields strictly increasing keys of linked nodes, and once at the end it has visited every node past its start that was linked when it began |
| `SkipListProgress.SearchIsBounded` | include/bedrockkv/skiplist.h:146-165 | in every interleaving a search has taken and still needs together no more loads than there are levels and nodes, so only insertions can lengthen it |
| `SkipListProgress.WalkIsBounded` | include/bedrockkv/skiplist.h:105-122 | in every interleaving an iterator has taken and still needs together no more loads than there are nodes and one |
| `SkipListProgress.InsertProgresses` | include/bedrockkv/skiplist.h:178-207 | every step of an insertion lowers the number it still needs, at first at most three per level and one per node, and no other step changes it |
| `SkipListProgress.NothingWaits` | include/bedrockkv/skiplist.h:103-207 | in every interleaving searches and iterators may begin, each running one may load and the inserter may take its next step: none waits for another |
| `MemTable.ComparatorIsEntryOrder` | src/memtable.cpp:62-75 | the comparator on encoded entries is the entry order, a value before a deletion of the same version, and puts a lookup target where its read point is |
| `MemTable.EntryRoundTrip` | src/memtable.cpp:7-25 | an encoded entry decodes to itself |
| `MemTable.SkipListTable.FindGreaterOrEqual` | include/bedrockkv/skiplist.h:146-165 | the loop returns the least node at or past the target and the last node before it on every level |
| `MemTable.SkipListTable.Insert` | include/bedrockkv/skiplist.h:178-207 | the entry is added unless an equivalent one is there, and the result says which |
| `MemTable.SkipListTable.Contains` | include/bedrockkv/skiplist.h:209-213 | true exactly when an equivalent entry is in the list |
| `MemTable.SkipListTable.Get` | src/memtable.cpp:27-60 | the newest version visible at the read point, or there is none |
| `MemTable.SkipListTable.ForEach` | include/bedrockkv/memtable.h:69-81 | every entry once, in internal-key order |
| `Block.ParseItem` | src/block.cpp:162-191 | parsing where an item starts, with the previous key at hand, yields the item |
| `Block.PastLowerBound` | src/block.cpp:119-152 | in an ascending block an item is before the target exactly when it lies before the lower bound |
| `BlockIo.BlockBuilder.Add` | src/block.cpp:36-59 | the block then stands for one item more, prefix-compressed by all it shares with the previous key or at a restart point, and grows by no more than header, key and value |
| `BlockIo.BlockBuilder.Finish` | src/block.cpp:61-70 | the result is a finished block of the added items with restart points every interval items and maximal sharing between them; the builder is empty again |
| `BlockIo.BlockCursor.constructor` | src/block.cpp:74-95 | every finished block opens; any bytes open exactly if the trailer names restart points that all lie before it |
| `BlockIo.BlockCursor.ParseEntry` | src/block.cpp:162-191 | the cursor's fields after parsing at an offset, on any bytes |
| `BlockIo.BlockCursor.Seek` | src/block.cpp:119-152 | restart search plus scan lands on the first item at or past the target |
| `BlockIo.BlockCursor.Next` | src/block.cpp:154-160 | the next item, or past the end; on any bytes, what parsing the next entry yields |
| `BlockIo.Decode` | src/block.cpp:111-160 | decoding a finished block yields exactly the added items |
| `Bloom.BuildFilter` | include/bedrockkv/bloom.h:31-62 | for any hash the filter matches every key it was built from, and its bits are exactly those keys' probes |
| `Bloom.Probes` | include/bedrockkv/bloom.h:43-45 | the number of probes is 0.69 times the bits per key rounded down, within 1 and 30 |
| `Bloom.FilterSize` | include/bedrockkv/bloom.h:37-42 | the filter has at least 64 bits and at least the bits asked for, by less than a byte more, and one byte for the probes |
| `Bloom.DeltaRotates` | include/bedrockkv/bloom.h:52-54 | the step between probes is the hash rotated right by 17 bits |
| `Bloom.KeyMayMatch` | include/bedrockkv/bloom.h:66-82 | true exactly when the filter is too short to read or all probes of the key find their bit set |
| `Sst.FirstPastIsNewest` | src/sstable.cpp:280-325 | the first entry at or past the search key decides the lookup: it is the newest visible version of the key, or there is none |
| `SstBuild.Builder.FlushDataBlock` | src/sstable.cpp:42-62 | the open block is sealed with its filter and index entry; the entries added stay the same |
| `SstBuild.Builder.Add` | src/sstable.cpp:64-92 | an entry is accepted exactly when its internal key comes after the last one; a block is sealed once it has reached its target size and not before |
| `SstBuild.Builder.Finish` | src/sstable.cpp:94-136 | the bytes are a table of everything added, with its key and sequence ranges |
| `SstBuild.WriteTable` | src/db.cpp:1638-1651 | a sorted list of entries is written to a table of exactly these entries, every data block but the last at least as large as asked |
| `SstRead.KeyMayMatchInBlock` | src/sstable.cpp:244-268 | in the filter block of a built table the answer is that of the data block's own filter |
| `SstRead.FindBlock` | src/sstable.cpp:293-300 | the binary search returns the first block whose last key is not before the target |
| `SstRead.BlockSplits` | src/sstable.cpp:293-313 | that block holds the first entry of the whole table that is not before the target, version runs spanning blocks included |
| `SstRead.Get` | src/sstable.cpp:270-329 | through index, filter and block the lookup finds the newest version visible at the read point, or a deletion, or nothing, as searching the list would, and reports no damage; a block that does not parse is reported as unreadable |
| `SstRead.Open` | src/sstable.cpp:140-242 | any bytes open exactly if magic, checksum and ranges of the footer, every entry of the index and the first entry of the first block are in order, and then with the index they hold; a table that was built opens with its index, filter block and key range |
| `SstRead.ReadIndex` | src/sstable.cpp:190-216 | any bytes pass for an index exactly if every entry parses, there is one, and each is a handle of a block below the limit; the entries are theirs |
| `SstIterator.TableIterator.Seek` | src/sstable.cpp:365-388 | the iterator stands where the entries at or past the target begin |
| `SstIterator.TableIterator.Next` | src/sstable.cpp:390-409 | one entry on, across block boundaries |
| `Tables.WrittenTableAnswers` | src/sstable.cpp:270-329 | for any strictly increasing entries, block size, restart interval, filter density and hash, a lookup in the written and reopened table equals list search |
| `Tables.WrittenTableLists` | src/sstable.cpp:333-409 | walking the written and reopened table yields every entry once, in order |
| `Manifest.MetaRoundTrip` | src/db.cpp:51-76 | a table record parses back to itself |
| `Manifest.ManifestRoundTrip` | src/db.cpp:80-135 | parsing the written bytes yields exactly the tables, value logs and replay floor written |
| `ManifestParse.ParseIff` | src/db.cpp:76-135 | any bytes pass for a MANIFEST exactly if they read cleanly as a log of well-formed records in which table numbers ascend, value log numbers ascend, levels exist and a floor is named, and they parse to what the records list |
| `Publishing.OpenRebuildsVersion` | src/db.cpp:297-327 | regrouping and sorting the published tables rebuilds the published version, levels and orders included |
| `Opening.WriteManifest` | src/db.cpp:566-631 | the bytes are the log encoding of every table by number, every value log and the floor; each table has a record with its level, size and number of entries, its first and last key and the lowest and highest sequence number in it, and parsing gives these records back |
| `Opening.ManifestDescribesVersion` | src/db.cpp:591-609 | every record parsed from the published bytes describes a table of the version: level, size, number of entries, first and last key, attained bounds of the sequence numbers; and every table has one |
| `Opening.ParseManifest` | src/db.cpp:80-135 | the record loop computes the parse function |
| `Opening.AssembleVersion` | src/db.cpp:297-327 | the loop builds the regrouped version, or fails if a table cannot be opened |
| `Opening.ReadLog` | src/db.cpp:439-477 | the loop over one log applies the entries up to its end, damage or a record it cannot parse, and cuts there |
| `Opening.ReplayLogs` | src/db.cpp:423-478 | from log files of arbitrary bytes the replay loops build the replayed memtable, find the highest sequence number and leave every file cut where it could not be replayed |
| `Opening.MaxOverRecords` | src/db.cpp:482-491 | the loop returns the highest of the starting number and the table records' largest sequence numbers |
| `Opening.Open` | src/db.cpp:261-492 | from the bytes a crashed engine left, MANIFEST and log files, opening returns the store that recovery is to reach; its next sequence number, one past the highest in the table records and the logs, is one past the highest stored |
| `Resp.DecimalRoundTrip` | src/resp.cpp:12-23 | a printed number parses back to itself |
| `Resp.ParseDigitsIff` | src/resp.cpp:12-23 | accepted are exactly the decimal numerals of signed 64-bit numbers, leading zeros allowed |
| `Resp.PingOnTheWire` | src/resp.cpp:196-206 | the bytes of one command as an array of bulk strings |
| `Resp.LineAt` | src/resp.cpp:50-66 | in a buffer holding a prefix of a stream with a number line, the whole line is found or the buffer ends inside it within the length limit |
| `Resp.ErrorReply` | src/resp.cpp:180-190 | an error reply is one line: line ends in the message become spaces, every other byte stays |
| `RespParser.Parser.Feed` | include/bedrockkv/resp.h:57 | bytes fed equal bytes erased plus bytes pending, and the pending bytes are the unerased end of the input |
| `RespParser.Parser.Header` | src/resp.cpp:47-81 | on any bytes: a whole header line with a number within the limit is read, a missing line end is waited for within 32 bytes, everything else is an error that changes nothing |
| `RespParser.Parser.Argument` | src/resp.cpp:86-134 | on any bytes: a whole bulk string within the limit is read, what may still become one is waited for, everything else is an error; the last one returns the whole command and erases it |
| `RespParser.Parser.NextInline` | src/resp.cpp:138-172 | on any bytes: without a newline the line is waited for up to its limit; else it is erased and its words, the maximal runs of bytes that are neither space nor tab, come out in order, all of them |
| `RespParser.Parser.Next` | src/resp.cpp:27-136 | on any bytes, resuming anywhere: past line ends and empty arrays it reads a line of words or an array of bulk strings, returns it whole, waits or reports an error as the bytes say; it asks for more only if a proper prefix of a request is left, or after a line of spaces; on a stream of commands it returns the next one |
| `RespParser.SpacesHoldBack` | src/resp.cpp:166-169 | a line of spaces in front of any command makes the parser ask for more although the whole command is in the buffer |
| `RespParser.ReadAll` | src/resp.cpp:27-136 | however the encoding of any commands within the limits is cut into chunks, draining after each chunk yields exactly those commands in order, no error and an empty buffer |

## Left out

- I/O errors and retries: every call succeeds. A failed MANIFEST write or sync leads to states outside the model.
- Files and directories: a file is a byte sequence, publication of a MANIFEST is atomic, file descriptors, fsync and unlinking are not modelled.
- Sequence numbers reach at most 2^56 - 1, the width the tag leaves them; wrap-around beyond that is not modelled.
- Widths: keys, values and single blocks stay below 4 GiB, as the 32-bit length fields assume; an entry of a value log that claims 4 GiB or more ends a scan.
- Threads: condition variables, wake-ups, back-pressure timing and memory ordering; atomic steps are sequentially consistent.
- A Get or Scan is one step. A reader that copied a Version before a collection retired a generation, and reads afterwards, is not modelled (docs/vlog-format.md:91-97).
- io_uring: only "explicit-offset writes complete in any order" is kept.
- The epoll server, command dispatch, statistics, benchmarks, Status texts and size estimates (arbitrary functions here).
- Checksum strength: damage that happens to keep its checksum is read as data.
- The Bloom hash, the tower height and the output split sizes are arbitrary.
- Skiplist keys are entries; `MemTable.ComparatorIsEntryOrder` ties the comparator on encoded bytes to their order. Other comparators are not modelled.
- Parser inputs whose outcome depends on how they were cut (length lines over the limit, oversize or blank inline lines): what each call makes of them is stated, but not that draining is independent of the chunks.
- Database.Db.Put: models one thread; the interleavings with background work are in Engine, Gc and SkipList. The class flushes when room is needed and does not hold the compaction job, which is in Termination.
- Database.Db.Get: searches sorted entry lists; that tables and memtables in their byte and node form answer alike is Tables.WrittenTableAnswers and MemTable.SkipListTable.Get.
- Termination.CompactAll: works on store values, since the source spreads the job over steps of a background thread.
- Opening.Open: tables are entry lists, which Tables.WrittenTableLists ties to bytes; removal of orphaned files is not modelled.
- EngineRuns.ReadsAreNewestWrites: a run may contain crashes only where the logs cover the unflushed records, because elsewhere a crash loses them.
- EngineRuns.RecoveryRestoresView: has the publication condition above as a hypothesis, because without it the property is false.
- CrashRecovery.OpenAfterCrash: has that hypothesis too, and the current log ended cleanly before the append in flight; a log opened with a torn header left in it is the subject of WalAppend.AppendsReadBackIff.
- WalRecords.CrashedAppendReplays: that the opened file can be appended to again is stated for logs that were cut or end with a record, because a torn header is not cut.
- GcRuns.ReadsReturnWhatWasPut: has safe retirements as a hypothesis, because without it the property is false.
- GcPass.RunVlogGC: no concurrent writers; those are in GcRuns.ReadsReturnWhatWasPut and GcSafety.SafeStartsSuffice.
- SstRead.KeyMayMatchInBlock: says nothing about bytes that are not a filter block; there the 32-bit sum of an offset and 4 can wrap around in the source.
- The reply encoders for simple strings and integers and the public wrappers of Open options would only add easy members. MemTableIterator is the level-0 iterator of SkipListRuns with MemTable.EntryRoundTrip applied to each node.
