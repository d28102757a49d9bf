# A verified model of the BDR key/value store

BDR keeps a map from byte strings to byte strings. This project models its three cores and a Python engine with the
same design, and proves what each of them is for. Nothing here executes the original programs.

**The Robin Hood index.** Two versions: slots with owned strings (`resolutive_index.cpp`) and slots with offsets
into a byte arena (`compact_index.hpp`), which the v1 engine uses. `RobinHood` holds the theory of the table: every
used slot records its cyclic distance from home, every displaced slot follows one that is displaced at most one step
less, no key occurs twice. Displacement, early exit, backward shift and rehash keep this, and the overflow error is
unreachable for every load limit the constructors accept. `ResolutivePartition` and `CompactPartition` are the loops
over arrays; the latter also accounts for every arena byte as live, carried or garbage and bounds the garbage.
`ResolutiveIndex` and `CompactIndex` route keys to partitions and list the whole map in key order; `LiveBytes` says
how much room the latter needs. Hash functions are arbitrary parameters.

**The BDW4 batch log and the durable database.** `AtomicWal` and `AtomicReplay` print and parse frames and prove the
format canonical in both directions and every truncation all-or-nothing. `AtomicRecovery` is the replay loop and the
exact sequence rule. `LogFile` adds tail repair and the crash points of one commit; `DurableModel` and
`DurableDatabase` the two watermarks over whole runs with reopenings, kills, and crashes, which may lose a file
whose directory entry was never synced.

**The v1 engine.** `SegmentWal`, `SegmentReplay` and `Snapshot` are the BDW3 and BDR3 formats with their two
independent readers, `DirectoryRecovery` the recovery of a whole directory by either, and `IndexRecovery` the
engine's own, which streams into the index. `EngineModel` is the engine as a state machine: submitters, writer,
failure, close, the steps of a checkpoint, and a crash that keeps any subset of the directory changes since the last
directory sync and any part of the active file after its synced bytes. `EngineHistory`, `EngineSteps`,
`EngineCrash`, `EngineRuns` and `EngineProgress` prove the invariant of all runs and what follows for callers,
`EngineLegible` which crashes can be read, `EngineKill` and `EngineKillRuns` what holds when a killed process is
followed by another while the operating system still holds unsynced bytes and names. `EngineObject` is the engine as
an object over the compact index; each method is one mutex-protected block or file call and equals one step of the
machine, and `Checkpoint` waits and then runs them in the source's order up to any failpoint.

**The Python engine.** `PythonWal` and `PythonSnapshot` are its formats, `PythonModel` its file steps with rejected
calls and clean reopenings, `PythonCrash` one crash at any of them, `PythonEngine` the object whose methods are
sequences of those steps.

`DiskModel` and `SegmentNames` describe what a crash may leave of a directory; `Bytes`, `KeyOrder`, `Store`,
`Options` and `Sharding` are shared. CRC-32 (section 8 of RFC 1952) is a fold over bytes with an arbitrary step. The
readers of logs and snapshots accept exactly what the writers print (of a segment header any flags, of the Python
snapshots also the older format, which has no checksum). With a checksum whose steps keep different sums and bytes
apart, as those of CRC-32 do, one changed byte of a record, behind its length field, or of a snapshot is refused.

## Where the promised properties do not hold as stated

* Values of up to 2^24 bytes are accepted by the v1 engine, but recovery refuses records over 2^24 bytes. An
  operation reads back exactly when 29 + key + value is at most 2^24 (`SegmentWal.SubmittedReadsBack`). A longer one
  is accepted, logged and acknowledged, and then neither reader accepts the directory after a crash
  (`EngineLegible.OversizeStops`). After any run, every crash can be read exactly when no segment file still holds
  such an operation (`EngineLegible.ReadsIff`); a finished checkpoint drops them (`EngineLegible.CheckpointHeals`).
* A killed v1 process leaves names and bytes that the operating system still holds. The next process counts what it
  reads as durable and syncs neither (`database_v1.cpp:205-213`, unless the tail is torn). What counts as durable
  afterwards survives every later run and readable crash exactly when the entry of the active segment was on disk
  and its whole records were synced, or synced by the repair of a torn tail (`EngineKillRuns.KillExact`; which kills
  these are, `EngineKillRuns.SettledIff`). Otherwise the next acknowledged put can be lost
  (`EngineKillRuns.UnnamedLoses`, `EngineKillRuns.FirstPutLost`), or operations that were never acknowledged count
  as durable and can be lost (`EngineKillRuns.UnsyncedOverclaims`).
* `experimental/api_v101/test_atomic_wal.cpp:136-149` describes the tolerated duplicate sequence as head-only. The
  code accepts one adjacent duplicate at any position when replay starts at 0 (`AtomicRecovery.SequenceDiscipline`,
  `AtomicRecovery.LaterDuplicateAccepted`).
* A durable database that creates its own log syncs the file but never the directory. A crash can then lose the
  whole log, acknowledged batches included (`DurableModel.NewLogLost`), also when the file was created, synced and
  closed by an earlier process and found at the opening (`DurableModel.FoundLogLost`). Over all runs what counts as
  durable survives every crash exactly when it is synced, and the directory was synced by the caller, or the file
  was found by an opening that followed the last crash, or nothing is durable beyond the legacy state
  (`DurableModel.DurableOverRuns`).
* Reopening a durable database counts everything it read as durable without a sync. That is true of the file exactly
  when the whole frames were synced before (`DurableModel.ReopenClaims`, with the failing case in
  `DurableModel.ReopenOverclaims`).
* The migration reader tolerates a torn segment that is not the last and any snapshot count; the engine does not.
  They agree exactly where the engine's demands hold (`DirectoryRecovery.DirectoryReadersAgree`).
* The Python engine creates its first segment without syncing the directory, so until the first directory sync a
  crash can lose synced operations (`PythonCrash.FirstEntryLost`). And a `put` of a number outside 0..2^64-1 raises
  after the sequence number was taken: a record logged after it does not load (`PythonCrash.RejectedPutBreaks`),
  until a checkpoint covers the gap. `PythonCrash.EveryCrash` gives the exact condition over all runs.

## Model

| member | source | states |
|---|---|---|
| `Bytes.GetPutBE` | experimental/api_v101/atomic_wal.cpp:24-41 | reading back a big-endian number gives the number, when it fits its width |
| `Bytes.PutBEDigit` | experimental/api_v101/atomic_wal.cpp:24-41 | each byte written is its base-256 digit, the most significant first |
| `Bytes.PutGetBE` | experimental/api_v101/atomic_wal.cpp:24-41 | writing the number that was read gives the same bytes: the encoding is canonical |
| `Bytes.LittleEndianRoundTrip` | experimental/api_v86/src/database_v1.cpp:57-60 | a packed little-endian header field reads back as the number stored |
| `Bytes.Crc.FoldConcat` | experimental/api_v86/src/database_v1.cpp:80-86 | a checksum continued over a second chunk is the checksum of the concatenation |
| `Bytes.Crc.FoldByte` | experimental/api_v101/atomic_wal.cpp:118-120 | the empty string leaves the seed and each byte is one step of the checksum, which determines it |
| `Bytes.Crc.OneByteChanges` | experimental/api_v101/atomic_wal.cpp:118-120 | when steps keep different sums and bytes apart, as those of CRC-32 do, one changed byte changes the sum |
| `Bytes.ChangedSum` | experimental/api_v101/atomic_wal.cpp:118-120 | then one byte changed in a text and its trailing checksum, in either, makes them disagree |
| `KeyOrder.LessTotal` | experimental/api_v86/src/resolutive_index.cpp:189 | byte-string order is total and irreflexive |
| `KeyOrder.LessIff` | experimental/api_v86/src/resolutive_index.cpp:189 | one string is below another exactly when it ends, or has the smaller byte, at their first difference |
| `KeyOrder.ListedInOrder` | experimental/api_v86/src/resolutive_index.cpp:189 | in a listing each key stands before every later one at their first difference |
| `KeyOrder.ListingUnique` | experimental/api_v86/include/bdr/compact_index.hpp:50 | a map has only one strictly key-sorted listing, so equal maps give equal snapshot items whatever history or index version produced them |
| `KeyOrder.SortItemsLists` | experimental/api_v86/src/resolutive_index.cpp:189 | sorting any collection of the bindings gives that listing |
| `KeyOrder.SortedItems` | bdr/persistent_engine.py:252 | sorting the items of a dictionary yields its unique sorted listing, each key before the later ones at their first difference |
| `KeyOrder.ListingLists` | experimental/api_v86/include/bdr/compact_index.hpp:50 | every map has such a listing, of its size |
| `Store.ApplyConcat` | experimental/api_v110/durable_database.cpp:72-78 | applying a concatenation of operation lists is applying one after the other |
| `RobinHood.EarlyExit` | experimental/api_v86/src/resolutive_index.cpp:104-107 | a free or richer slot at probe k means the key is nowhere in the table |
| `RobinHood.FullCircle` | experimental/api_v86/src/resolutive_index.cpp:109-111 | a full circle of misses means the key is nowhere |
| `RobinHood.LookupMiss` | experimental/api_v86/src/resolutive_index.cpp:100-113 | wherever a lookup stops without a hit, the map has no binding for the key |
| `RobinHood.Hit` | experimental/api_v86/src/resolutive_index.cpp:108 | the slot of a hit holds exactly the binding of the map |
| `RobinHood.NoOverflow` | experimental/api_v86/src/resolutive_index.cpp:88-90 | while one slot is free a carried slot never reaches the capacity, so the overflow throw is unreachable |
| `RobinHood.Place` | experimental/api_v86/src/resolutive_index.cpp:78-82 | dropping the carried slot into a free one keeps order and uniqueness and adds its binding |
| `RobinHood.Displace` | experimental/api_v86/src/resolutive_index.cpp:87-89 | a swap with a richer slot keeps the order, and what is carried on is still rightly placed |
| `RobinHood.Exchange` | experimental/api_v86/src/resolutive_index.cpp:87 | a swap loses nothing: table and carried slot together hold the same bindings |
| `RobinHood.Overwrite` | experimental/api_v86/src/resolutive_index.cpp:83-86 | an update keeps order and distance and changes one binding |
| `RobinHood.NoSwapBeforeHit` | experimental/api_v86/src/resolutive_index.cpp:76-92 | when the key is present, every slot probed before it is at least as displaced as the probe, so no swap comes first |
| `RobinHood.HitBeforeSwap` | experimental/api_v86/src/resolutive_index.cpp:83-86 | a hit in the insertion loop finds the table unchanged and the new slot with the same distance: no second copy arises |
| `RobinHood.InsertPlace` | experimental/api_v86/src/resolutive_index.cpp:78-82 | when the loop meets a free slot the key was new, and the result is the map with it added |
| `RobinHood.InsertAdvance` | experimental/api_v86/src/resolutive_index.cpp:76-91 | each turn of the insertion loop keeps its invariant and the distance stays below the capacity |
| `RobinHood.ShiftBack` | experimental/api_v86/src/resolutive_index.cpp:131-135 | moving the next slot back into the hole keeps the order |
| `RobinHood.ShiftContents` | experimental/api_v86/src/resolutive_index.cpp:131-135 | the backward shift moves the hole and loses no binding |
| `RobinHood.ShiftStep` | experimental/api_v86/src/resolutive_index.cpp:129-136 | each turn of the backward-shift loop keeps its invariant |
| `RobinHood.ShiftEnd` | experimental/api_v86/src/resolutive_index.cpp:137-139 | clearing the last hole leaves a sound table without the erased key |
| `RobinHood.Clear` | experimental/api_v86/src/resolutive_index.cpp:131-137 | emptying a slot that nothing leans on keeps the order |
| `RobinHood.FreeSlot` | experimental/api_v86/src/resolutive_index.cpp:94-98 | fewer records than slots leaves a free slot |
| `RobinHood.LoadCheck` | experimental/api_v86/src/resolutive_index.cpp:96 | the load check passes exactly when one more record stays within the load, and then a slot stays free |
| `RobinHood.GrowLoad` | experimental/api_v86/src/resolutive_index.cpp:94-98 | after one doubling the new record is within the load |
| `RobinHood.NextPow2` | experimental/api_v86/src/resolutive_index.cpp:28-32 | the smallest power of two that is at least n and at least 8 |
| `RobinHood.PrefixRoom` | experimental/api_v86/src/resolutive_index.cpp:55-64 | during a rehash the new table never holds more records than the old one, and all of them at the end |
| `ResolutivePartition.Partition.InsertNolock` | experimental/api_v86/src/resolutive_index.cpp:66-92 | updates or adds exactly the given binding, tells which, and never overflows while a slot is free |
| `ResolutivePartition.Partition.Rehash` | experimental/api_v86/src/resolutive_index.cpp:55-64 | moves every binding to a larger table, keeping map and record count |
| `ResolutivePartition.Partition.Put` | experimental/api_v86/src/resolutive_index.cpp:94-98 | the map with the key set to the value; the capacity doubles exactly when one more record would exceed the load; true exactly when the key was new |
| `ResolutivePartition.Partition.Locate` | experimental/api_v86/src/resolutive_index.cpp:117-127 | finds the index of the key if and only if the map binds it |
| `ResolutivePartition.Partition.Get` | experimental/api_v86/src/resolutive_index.cpp:100-113 | exactly the map's value, or none |
| `ResolutivePartition.Partition.CloseGap` | experimental/api_v86/src/resolutive_index.cpp:129-139 | closes the hole in place; the map loses that key and nothing else |
| `ResolutivePartition.Partition.Erase` | experimental/api_v86/src/resolutive_index.cpp:115-140 | the map without the key; true exactly when it was there |
| `CompactPartition.LiveUpdate` | experimental/api_v86/include/bdr/compact_index.hpp:32-39 | the live bytes change by the weight of the cell replaced |
| `CompactPartition.AccountedUpdate` | experimental/api_v86/include/bdr/compact_index.hpp:35 | replacing a cell keeps arena = live + carried + garbage |
| `CompactPartition.DecodeGrown` | experimental/api_v86/include/bdr/compact_index.hpp:32 | appending to the arena changes no slot that is read through offsets |
| `CompactPartition.GapStep` | experimental/api_v86/include/bdr/compact_index.hpp:39 | the shift of cells moves no bytes in or out of the account |
| `CompactPartition.RehashStep` | experimental/api_v86/include/bdr/compact_index.hpp:36 | cells still to be reinserted are accounted as carried |
| `CompactPartition.MovedView` | experimental/api_v86/include/bdr/compact_index.hpp:33 | a compacted cell stands for the same key, value and distance |
| `CompactPartition.CompactStep` | experimental/api_v86/include/bdr/compact_index.hpp:33 | each turn of compaction copies one cell and changes no slot that is read |
| `CompactPartition.CompactDone` | experimental/api_v86/include/bdr/compact_index.hpp:33 | after compaction the table reads the same and the arena has shrunk by exactly the garbage |
| `CompactPartition.Partition.Append` | experimental/api_v86/include/bdr/compact_index.hpp:32 | key and value are at the end of the arena, or nothing changed because 32-bit offsets no longer reach |
| `CompactPartition.Partition.CompactArena` | experimental/api_v86/include/bdr/compact_index.hpp:33 | same table, no garbage, arena shorter by the garbage |
| `CompactPartition.Partition.MaybeCompact` | experimental/api_v86/include/bdr/compact_index.hpp:34 | same table, and garbage below 8192 or below half of the arena when reclaiming is on; nothing changes when that held before |
| `CompactPartition.Partition.ArenaBound` | experimental/api_v86/include/bdr/compact_index.hpp:34 | with reclaiming on, the arena is below live + 8192 or below twice the live bytes |
| `CompactPartition.Partition.InsertCell` | experimental/api_v86/include/bdr/compact_index.hpp:35 | the displacement loop on cells: the map with the binding set, and every byte accounted for |
| `CompactPartition.Partition.InsertNolock` | experimental/api_v86/include/bdr/compact_index.hpp:35 | the map with the binding set, or unchanged on arena overflow; tells added from updated |
| `CompactPartition.Partition.Reinsert` | experimental/api_v86/include/bdr/compact_index.hpp:36 | puts one cell of the old table into the new one |
| `CompactPartition.Partition.Rehash` | experimental/api_v86/include/bdr/compact_index.hpp:36 | doubles the table, keeping map, arena and account |
| `CompactPartition.Partition.Put` | experimental/api_v86/include/bdr/compact_index.hpp:37 | the map with the binding set, or unchanged on arena overflow, which happens exactly when offsets do not reach; doubles exactly when one more record would exceed the load; keeps load, account and reclaim bound |
| `CompactPartition.Partition.Locate` | experimental/api_v86/include/bdr/compact_index.hpp:38 | finds the index of the key if and only if the map binds it |
| `CompactPartition.Partition.Get` | experimental/api_v86/include/bdr/compact_index.hpp:38 | exactly the map's value, or none |
| `CompactPartition.Partition.CloseGap` | experimental/api_v86/include/bdr/compact_index.hpp:39 | closes the hole in place and turns the erased bytes into garbage |
| `CompactPartition.Partition.Erase` | experimental/api_v86/include/bdr/compact_index.hpp:39 | the map without the key, the record count with it, and the garbage bound |
| `Sharding.StandsPut` | experimental/api_v86/include/bdr/compact_index.hpp:45 | a put in the key's own partition is a put in the whole map |
| `Sharding.StandsErase` | experimental/api_v86/include/bdr/compact_index.hpp:46 | an erase in the key's own partition is an erase in the whole map |
| `Sharding.SeenSlot` | experimental/api_v86/include/bdr/compact_index.hpp:50 | listing one more slot adds its binding and never one listed before |
| `Sharding.SeenPartition` | experimental/api_v86/include/bdr/compact_index.hpp:50 | when all slots of a partition are listed, all its keys are |
| `CompactIndex.Index.Create` | experimental/api_v86/include/bdr/compact_index.hpp:44 | an empty index exactly when the partition count is positive and the load lies between 0.40 and 0.95 |
| `CompactIndex.Index.Put` | experimental/api_v86/include/bdr/compact_index.hpp:45 | the model map with the binding set, in the partition of its route alone; refused, and then unchanged, exactly when the arena of the key's partition has no room for one more copy |
| `CompactIndex.Index.Erase` | experimental/api_v86/include/bdr/compact_index.hpp:46 | the model map without the key; true exactly when it was there; size stays the cardinality |
| `CompactIndex.Index.Get` | experimental/api_v86/include/bdr/compact_index.hpp:47 | exactly the model's value, or none |
| `CompactIndex.Index.SnapshotItems` | experimental/api_v86/include/bdr/compact_index.hpp:50 | exactly the bindings of the model map, each key before the later ones at their first difference |
| `ResolutiveIndex.Index.Create` | experimental/api_v86/src/resolutive_index.cpp:143-151 | an empty index exactly when the partition count is positive and the load lies between 0.40 and 0.95 |
| `ResolutiveIndex.Index.Put` | experimental/api_v86/src/resolutive_index.cpp:161-165 | the model map with the binding set, in the partition of its route alone |
| `ResolutiveIndex.Index.Erase` | experimental/api_v86/src/resolutive_index.cpp:167-172 | the model map without the key; true exactly when it was there; size stays the cardinality |
| `ResolutiveIndex.Index.Get` | experimental/api_v86/src/resolutive_index.cpp:174-177 | exactly the model's value, or none |
| `ResolutiveIndex.Index.SnapshotItems` | experimental/api_v86/src/resolutive_index.cpp:182-191 | exactly the bindings of the model map, each key before the later ones at their first difference |
| `CompactIndex.Index.RoomToPut` | experimental/api_v86/include/bdr/compact_index.hpp:32-34 | with reclaiming on, no put is refused while twice the bytes of the map, the reclaim floor and the new copy stay within 32-bit offsets |
| `LiveBytes.MapBytesWithout` | experimental/api_v86/include/bdr/compact_index.hpp:32-39 | the bytes of a map are those of any binding and of the rest; none for the empty map |
| `LiveBytes.LiveIsBytes` | experimental/api_v86/include/bdr/compact_index.hpp:32-39 | the live arena bytes of a partition are the key and value bytes of its bindings |
| `LiveBytes.ArenaNearLive` | experimental/api_v86/include/bdr/compact_index.hpp:34 | an arena with bounded garbage is at most twice the bytes of the whole map and the reclaim floor |
| `AtomicWal.EncodeBatch` | experimental/api_v101/atomic_wal.cpp:54-85 | prints the frame, or names the check that is the first to fail: number, count, each operation in turn, whole size |
| `AtomicWal.FirstErrorUnique` | experimental/api_v101/atomic_wal.cpp:56-77 | only one check can be the first to fail, and none when the batch can be printed |
| `AtomicWal.ParseOpIff` | experimental/api_v101/atomic_wal.cpp:146-173 | an operation is read exactly when the bytes start with the print of a valid one |
| `AtomicWal.ParsePrintedOps` | experimental/api_v101/atomic_wal.cpp:141-175 | printed operations parse back, all of them and nothing else |
| `AtomicWal.PrintParsedOps` | experimental/api_v101/atomic_wal.cpp:141-175 | what parses is the print of what it parses to |
| `AtomicWal.ReadFrameIff` | experimental/api_v101/atomic_wal.cpp:95-175 | a frame is accepted exactly when the bytes start with the print of an encodable batch whose sequence is admitted |
| `AtomicWal.FrameTornIff` | experimental/api_v101/atomic_wal.cpp:101-108 | a tail is torn exactly when it is shorter than four bytes, or than an admissible length announced there |
| `AtomicWal.WrongFrameSum` | experimental/api_v101/atomic_wal.cpp:110-120 | a whole frame whose last four bytes are not the sum of the others is refused: for its magic, its version, or its checksum |
| `AtomicWal.DamagedFrame` | experimental/api_v101/atomic_wal.cpp:110-120 | with a checksum like CRC-32, a frame with one byte changed behind its length is corrupt, not torn |
| `AtomicWal.WrongNumber` | experimental/api_v101/atomic_wal.cpp:124-136 | a printed frame whose number is not admitted is refused as a gap |
| `AtomicReplay.ScanIff` | experimental/api_v101/atomic_wal.cpp:87-194 | replay is canonical both ways: a result is right if and only if the log is the print of its batches followed by the tail it reports |
| `AtomicReplay.RoundTrip` | experimental/api_v101/atomic_wal.cpp:54-194 | an uncut log replays to exactly its batches if and only if they can be printed and follow in sequence |
| `AtomicReplay.TruncatedLog` | experimental/api_v101/atomic_wal.cpp:95-108 | for every cut, replay yields the batches wholly before it, last_good is that boundary, torn exactly when the cut is none; no checksum property is used |
| `AtomicReplay.WholeFramesFit` | experimental/api_v101/atomic_wal.cpp:105-108 | the batches kept are the largest number of leading frames that fit |
| `AtomicReplay.CleanLog` | experimental/api_v101/atomic_wal.cpp:87-194 | a log without corruption is its batches' frames and at most one unfinished one |
| `AtomicReplay.RepairedLogAppends` | experimental/api_v102/file_wal.cpp:67-73 | a repaired log scans clean to the same batches, and the next batch can be appended and found, also after a legacy duplicate |
| `AtomicReplay.AdmissibleConcat` | experimental/api_v101/atomic_wal.cpp:124-136 | sequence checks compose over concatenation |
| `AtomicRecovery.Replay` | experimental/api_v101/atomic_wal.cpp:87-194 | the loop equals the scan; the map is the fold of exactly the accepted batches, also when a later frame is corrupt |
| `AtomicRecovery.ReadFrameAt` | experimental/api_v101/atomic_wal.cpp:101-175 | the checks of one frame in the source's order give the frame reader's verdict |
| `AtomicRecovery.DecodeOps` | experimental/api_v101/atomic_wal.cpp:141-173 | the decoding loop equals the operation parser |
| `AtomicRecovery.SequenceDiscipline` | experimental/api_v101/atomic_wal.cpp:124-136 | accepted sequences are q+1, q+2, ... with at most one adjacent repeat, only for q = 0: if and only if |
| `AtomicRecovery.CommittedBatches` | experimental/api_v101/atomic_wal.cpp:186-190 | the count is last - q, or one more exactly after a repeat |
| `AtomicRecovery.LaterDuplicateAccepted` | experimental/api_v101/atomic_wal.cpp:126-136 | 1, 2, 2 is accepted and 1, 2, 2, 2 is not: the repeat need not be at the head |
| `LogFile.AppendBatch` | experimental/api_v102/file_wal.cpp:33-48 | the frame at the end of the file and synced if durable, or an untouched file |
| `LogFile.RecoverFile` | experimental/api_v102/file_wal.cpp:50-83 | map, counts and repaired file as the scan says; a corrupt file is left alone |
| `LogFile.RepairIdempotent` | experimental/api_v102/file_wal.cpp:67-73 | recovering the repaired file finds the same batches, no torn tail, and changes nothing |
| `LogFile.CommitBatch` | experimental/api_v103/commit_boundary.cpp:20-59 | what is written and synced at each failpoint; amid the append as many bytes as asked for, or half the frame, but never all of it |
| `LogFile.CommitAllOrNothing` | experimental/api_v103/commit_boundary.cpp:20-59 | whatever survives of an interrupted commit, recovery finds the earlier batches, with the new one exactly when its whole frame survived |
| `DurableModel.WrittenKeeps` | experimental/api_v110/durable_database.cpp:80-101 | a write extends the logged history by one batch and moves the durable mark only with a sync |
| `DurableModel.SyncedKeeps` | experimental/api_v110/durable_database.cpp:164-180 | a sync makes the whole history durable |
| `DurableModel.CrashKeeps` | experimental/api_v110/durable_database.cpp:21-54 | a crash that leaves the file reopens to a prefix of the history with every batch whose frame was synced, never part of one |
| `DurableModel.CrashLosesEntry` | experimental/api_v110/durable_database.cpp:36-49 | a crash that loses the entry of the file reopens to the legacy state alone |
| `DurableModel.DurableSurvives` | experimental/api_v102/file_wal.cpp:38-43 | what counts as durable survives every crash if and only if it is synced, and the entry of the file is on disk or nothing counts as durable beyond the legacy state |
| `DurableModel.EntryOverRun` | experimental/api_v102/file_wal.cpp:38 | no call and no reopening puts the entry of a file on disk |
| `DurableModel.DurableOverRuns` | experimental/api_v110/durable_database.cpp:80-180 | after any run of calls, clean reopenings and killed processes, what counts as durable survives every crash if and only if it is synced, and the entry was on disk at the beginning or nothing counts as durable beyond the legacy state; with clean reopenings of synced files only, it is synced |
| `DurableModel.BackedIff` | experimental/api_v110/durable_database.cpp:21-54 | the durable batches lie within the synced bytes exactly when no fewer whole frames do |
| `DurableModel.SyncedForever` | experimental/api_v110/durable_database.cpp:21-180 | once the entry is on disk, synced batches stay through any run with any number of crashes, kills and reopenings |
| `DurableModel.ReopensBack` | experimental/api_v110/durable_database.cpp:21-54 | when every process ends between calls with all that it wrote synced, what counts as durable is always synced |
| `DurableModel.RestartRefines` | experimental/api_v110/durable_database.cpp:21-54 | a process that ends anywhere, even within a write, and a reopening of the same file are a step of the simple form: nothing is lost, and all that is read counts as durable |
| `DurableModel.NewLogLost` | experimental/api_v102/file_wal.cpp:38-43 | a batch acknowledged as durable in a newly created log that a crash loses |
| `DurableModel.FoundLogLost` | experimental/api_v110/durable_database.cpp:36-41 | the same with a file that was found at the opening: created, synced and closed before, and reopened; both acknowledged batches are lost |
| `DurableModel.ReopenClaims` | experimental/api_v110/durable_database.cpp:36-41 | taking everything read as durable is true of the file exactly when all whole frames were synced before |
| `DurableModel.ReopenOverclaims` | experimental/api_v110/durable_database.cpp:36-41 | a batch written without a sync, counted as durable by a reopening, and lost by the next crash |
| `DurableModel.ClearEmpties` | experimental/api_v110/durable_database.cpp:132-151 | replaying the batch of a clear leaves the empty map |
| `DurableModel.ClearFits` | experimental/api_v110/durable_database.cpp:138-148 | the batch of a clear can be logged exactly when number and total length of the keys fit |
| `DurableModel.ClearFacts` | experimental/api_v110/durable_database.cpp:132-151 | for a database in a consistent state: which batch a clear logs, and when it fits |
| `DurableModel.BatchKeysValid` | experimental/api_v110/durable_database.cpp:56-70 | every key a log can produce is non-empty and at most 2^20 bytes |
| `DurableModel.NextRefines` | experimental/api_v110/durable_database.cpp:80-180 | each event is a step of the simple form: append whole batches; a crash loses only unsynced ones, or all of them with the entry of the file; a reopening loses none |
| `DurableModel.RunRefines` | experimental/api_v110/durable_database.cpp:21-180 | every run of writes, clears, syncs, crashes, kills and reopenings refines the simple form |
| `DurableModel.Watermarks` | experimental/api_v110/durable_database.cpp:189-197 | durable never passes last |
| `DurableDatabase.Database.Open` | experimental/api_v110/durable_database.cpp:21-54 | the value the model opens to, always consistent; what was read counts as durable whether or not it is synced; a corrupt log is refused |
| `DurableDatabase.Database.WriteBatch` | experimental/api_v110/durable_database.cpp:80-101 | the new value is the model's, results agree, and a batch that cannot be logged changes nothing |
| `DurableDatabase.Database.Clear` | experimental/api_v110/durable_database.cpp:132-162 | the model's value; succeeds exactly when the keys fit one frame; then the map is empty, and the result says the next number, as many operations as there were keys, and durable exactly with a sync |
| `DurableDatabase.Database.Sync` | experimental/api_v110/durable_database.cpp:164-180 | the model's value: everything synced and both watermarks equal, or nothing done when they were |
| `DurableDatabase.Database.Get` | experimental/api_v110/durable_database.cpp:182-187 | the answer of a replay of the log file after the legacy state |
| `SegmentWal.MakeRecord` | experimental/api_v86/src/database_v1.cpp:62-70 | prints the record |
| `SegmentWal.ReadRecordIff` | experimental/api_v86/src/database_v1.cpp:150-162 | a record is accepted exactly when the bytes start with the print of a readable one: the format is canonical |
| `SegmentWal.RecordNumbers` | experimental/api_v86/src/database_v1.cpp:62-70 | the printed numbers: total length, sequence, 1 for a put and 2 for a delete, key and value length |
| `SegmentWal.DamagedRecord` | experimental/api_v86/src/database_v1.cpp:150-162 | with a checksum like CRC-32, a record with one byte changed behind its length is refused by both readers |
| `SegmentWal.ReadersAgree` | experimental/api_v106/migration.cpp:95-125 | engine and migration reader accept the same records and torn tails, whatever the order of their checks |
| `SegmentWal.SubmittedReadsBack` | experimental/api_v86/src/database_v1.cpp:153 | an accepted operation reads back if and only if framing, key and value stay within 2^24 bytes; otherwise it is refused as a bad length |
| `SegmentWal.AcceptedButUnreadable` | experimental/api_v86/src/database_v1.cpp:217 | a submitted value of 2^24 bytes cannot be read back |
| `SegmentWal.HeaderRoundTrip` | experimental/api_v86/src/database_v1.cpp:192-195 | a segment header reads back |
| `SegmentWal.ReadHeaderIff` | experimental/api_v86/src/database_v1.cpp:145-147 | a header is read exactly when the first 32 bytes are "BDW3", version 3, size 32, any flags, the two numbers, and the checksum of the first 28 |
| `SegmentWal.HeaderLayout` | experimental/api_v86/src/database_v1.cpp:192-195 | a printed header is one, with flags zero |
| `SegmentReplay.ReadAllAgree` | experimental/api_v106/migration.cpp:85-135 | both readers come to the same end of every segment |
| `SegmentReplay.ReadAllIff` | experimental/api_v86/src/database_v1.cpp:149-165 | reading is canonical: a result is right exactly when the bytes are the print of the records it applied and the tail it reports |
| `SegmentReplay.ReplayWalIff` | experimental/api_v86/src/database_v1.cpp:143-167 | a segment is accepted exactly when it is a header, readable records in sequence, and at most one unfinished record; with the result they give |
| `SegmentReplay.ReadRecords` | experimental/api_v86/src/database_v1.cpp:150-165 | printed records in sequence are read and applied one by one |
| `SegmentReplay.TruncatedRecords` | experimental/api_v86/src/database_v1.cpp:151-154 | for every cut that leaves no length field of an oversize record: exactly the records wholly before it, last_good there, torn exactly when the cut is no boundary |
| `SegmentReplay.IllegibleRecords` | experimental/api_v86/src/database_v1.cpp:153 | for every other cut both readers refuse the log with a bad length |
| `SegmentReplay.WholeRecordsFit` | experimental/api_v86/src/database_v1.cpp:164 | the records kept are the largest number that fit |
| `SegmentReplay.EngineRecordAt` | experimental/api_v86/src/database_v1.cpp:151-162 | the engine's checks of one record in its order |
| `SegmentReplay.MigrationRecordAt` | experimental/api_v106/migration.cpp:96-125 | the migration reader's checks of one record in its order |
| `SegmentReplay.ReplaySegment` | experimental/api_v106/migration.cpp:85-135 | the migration reader's loop over a file equals the segment replay |
| `Snapshot.EncodeSnapshot` | experimental/api_v86/src/database.cpp:64-68 | the one-shot form is the snapshot print |
| `Snapshot.WriteStreaming` | experimental/api_v86/src/database_v1.cpp:80-99 | the streaming writer with its incremental checksum emits byte for byte the one-shot form |
| `Snapshot.ChunkedSum` | experimental/api_v86/src/database_v1.cpp:107-113 | the chunked checksum pass equals the one-shot checksum |
| `Snapshot.CheckHeader` | experimental/api_v86/src/database_v1.cpp:101-125 | the first pass and the header checks: the announced count, or the first error |
| `Snapshot.LoadWhole` | experimental/api_v106/migration.cpp:54-83 | the whole-file reader equals the migration reader's snapshot reading |
| `Snapshot.SnapshotReadersAgree` | experimental/api_v86/src/database_v1.cpp:101-140 | the engine loads exactly what the migration reader loads whenever the count is at most 50,000,000 |
| `Snapshot.SnapshotRoundTrip` | experimental/api_v86/src/database_v1.cpp:80-140 | what is written loads back as the same map and sequence, for both readers, up to the engine's count limit and exactly not beyond |
| `Snapshot.ReadSnapshotIff` | experimental/api_v86/src/database_v1.cpp:101-140 | a snapshot loads exactly when the file is, to the last byte, the print of valid items with the right checksum, for the engine at most 50,000,000 of them; and then as those items |
| `Snapshot.WrongSum` | experimental/api_v86/src/database_v1.cpp:116 | a file whose stored checksum is not that of the rest is refused, by the engine for that reason |
| `Snapshot.DamagedSnapshot` | experimental/api_v86/src/database_v1.cpp:101-116 | with a checksum like CRC-32, a snapshot with one byte changed anywhere is refused by both readers |
| `Snapshot.PutAllLists` | experimental/api_v86/src/database_v1.cpp:127-137 | putting a sorted listing item by item gives the map it lists |
| `DirectoryRecovery.ReadDirectory` | experimental/api_v106/migration.cpp:146-157 | the migration reader's loop over a directory equals its recovery |
| `DirectoryRecovery.DirectoryReadersAgree` | experimental/api_v106/migration.cpp:146-157 | the engine accepts an image with a result if and only if the migration reader gives that result and the image meets the engine's two extra demands |
| `DirectoryRecovery.DamagedDirectory` | experimental/api_v86/src/database_v1.cpp:200-205 | one refused snapshot, or one segment without a valid header, refuses the directory, for either reader |
| `DirectoryRecovery.RecoveredKeysValid` | experimental/api_v106/migration.cpp:146-157 | every recovered key is non-empty and at most 2^20 bytes |
| `IndexRecovery.ApplyTo` | experimental/api_v86/src/database_v1.cpp:221 | applies an operation to the index; refused exactly when it is a put without room |
| `IndexRecovery.LoadSnapshotInto` | experimental/api_v86/src/database_v1.cpp:101-140 | streams the items into the index; same map, sequence and errors as the snapshot reading, or no room, which needs a file longer than 32-bit offsets |
| `IndexRecovery.ReplayInto` | experimental/api_v86/src/database_v1.cpp:143-167 | streams the records into the index; same result and errors as the segment replay, or no room |
| `IndexRecovery.RecoverInto` | experimental/api_v86/src/database_v1.cpp:200-205 | recovers a directory into the index; same result and errors, or no room, which needs files that together are longer than 32-bit offsets |
| `EngineHistory.AcceptSpan` | experimental/api_v86/src/database_v1.cpp:163 | reading operations a+1..b at sequence k skips those up to k and applies the others |
| `EngineHistory.ReplaySegBytes` | experimental/api_v86/src/database_v1.cpp:143-167 | a segment cut anywhere replays to the fold of the operations it still covers, if each of which the length field is left can be read back |
| `EngineHistory.ChainLater` | experimental/api_v86/src/database_v1.cpp:163 | a later snapshot does not break a chain of segments |
| `EngineHistory.RecoverChain` | experimental/api_v86/src/database_v1.cpp:202-205 | a chain of segments, the last one cut, recovers to the fold of what it covers, if all it holds can be read back |
| `EngineHistory.LoadsFold` | experimental/api_v86/src/database_v1.cpp:201 | a snapshot of the first k operations loads as their fold |
| `EngineHistory.ImageFails` | experimental/api_v86/src/database_v1.cpp:153 | otherwise neither reader recovers anything from them |
| `EngineHistory.RecoverImage` | experimental/api_v86/src/database_v1.cpp:200-205 | snapshot and chain together recover to the fold of what they cover, if all the chain holds can be read back |
| `EngineSteps.SubmitKeeps` | experimental/api_v86/src/database_v1.cpp:216-225 | issuing a ticket keeps the invariant |
| `EngineSteps.TakeKeeps` | experimental/api_v86/src/database_v1.cpp:232 | taking a batch from the queue keeps it |
| `EngineSteps.WriteKeeps` | experimental/api_v86/src/database_v1.cpp:234 | any partial write of the batch keeps it |
| `EngineSteps.FlushKeeps` | experimental/api_v86/src/database_v1.cpp:234 | the sync of the batch keeps it |
| `EngineSteps.PublishKeeps` | experimental/api_v86/src/database_v1.cpp:235 | publishing the batch keeps it, the active segment now holding the batch |
| `EngineSteps.ClosingKeeps` | experimental/api_v86/src/database_v1.cpp:237-265 | writer failure, close, stop and writer exit keep it |
| `EngineSteps.CheckpointBeginKeeps` | experimental/api_v86/src/database_v1.cpp:249-251 | a checkpoint begins with nothing queued or in flight |
| `EngineSteps.TmpKeeps` | experimental/api_v86/src/database_v1.cpp:252-253 | writing and syncing the temporary snapshot keep the invariant |
| `EngineSteps.RenameKeeps` | experimental/api_v86/src/database_v1.cpp:254 | the rename keeps it, synced or not |
| `EngineSteps.SyncDirKeeps` | experimental/api_v86/src/database_v1.cpp:254-258 | each sync of the directory keeps it |
| `EngineSteps.CloseOldKeeps` | experimental/api_v86/src/database_v1.cpp:255 | closing the old segment keeps it |
| `EngineSteps.RotateKeeps` | experimental/api_v86/src/database_v1.cpp:256 | starting a new segment keeps it |
| `EngineSteps.RemoveKeeps` | experimental/api_v86/src/database_v1.cpp:257 | removing any covered segment keeps it, in any order |
| `EngineCrash.Survivors` | experimental/api_v86/src/database_v1.cpp:249-259 | whichever unsynced directory changes survive, a snapshot and a chain of segments reaching durable_seq are left |
| `EngineCrash.FoundReaches` | experimental/api_v86/src/database_v1.cpp:200-205 | the segments found reach some point between durable_seq and the end of the batch in flight |
| `EngineCrash.CrashRecovers` | experimental/api_v86/src/database_v1.cpp:200-214 | after a crash at any point both readers recover if and only if all operations in the surviving files can be read back, and then the fold of operations 1..k, durable_seq <= k <= end of the batch |
| `EngineRuns.CrashKeeps` | experimental/api_v86/src/database_v1.cpp:200-214 | a readable crash and the recovery after it restore the invariant with the history cut to k: writing and checkpointing go on from there |
| `EngineRuns.StepKeeps` | experimental/api_v86/src/database_v1.cpp:216-267 | every step, crashes included, keeps the invariant and everything durable |
| `EngineRuns.RunKeeps` | experimental/api_v86/src/database_v1.cpp:216-267 | so does every run |
| `EngineRuns.Pipeline` | experimental/api_v86/src/database_v1.cpp:216-236 | after every run durable_seq+1..next_seq is exactly the batch in flight followed by the queue, and the index is the fold of 1..next_seq |
| `EngineRuns.CrashAnywhere` | experimental/api_v86/src/database_v1.cpp:143-214 | after every run, a crash is readable for the engine exactly when it is for the migration reader, and then recovers as stated for both |
| `EngineRuns.CheckpointCrash` | experimental/api_v86/src/database_v1.cpp:249-259 | a readable crash anywhere in a checkpoint recovers exactly the map and sequence from before it |
| `EngineRuns.CheckpointEnds` | experimental/api_v86/src/database_v1.cpp:256-258 | a finished checkpoint leaves the active segment alone, and a snapshot of everything |
| `EngineRuns.AcknowledgedSurvives` | experimental/api_v86/src/database_v1.cpp:242-246 | an operation whose wait returned is there, at its place, after any further run and any crashes, of which the last is readable |
| `EngineRuns.WaitMeans` | experimental/api_v86/src/database_v1.cpp:242-246 | a wait returns exactly for durable tickets and refuses exactly those never issued; otherwise the operation is in flight or queued, and it fails only with the writer and blocks only while the writer lives |
| `EngineRuns.EndedDurable` | experimental/api_v86/src/database_v1.cpp:261-265 | when the writer has ended, every ticket is durable if and only if it ended without an error |
| `EngineRuns.LiveRun` | experimental/api_v86/src/database_v1.cpp:216-267 | until a crash a run only adds operations, and none once closed or failed |
| `EngineRuns.ClosedIssuesNothing` | experimental/api_v86/src/database_v1.cpp:217-218 | no ticket is issued once close has set closed |
| `EngineLegible.ReadsIff` | experimental/api_v86/src/database_v1.cpp:143-167 | at every point of every run: every crash can be read if and only if each operation that the segment files hold, as far as its length field, is at most 2^24 bytes long as a record |
| `EngineLegible.WorstCrash` | experimental/api_v86/src/database_v1.cpp:143-167 | the crash that keeps all segments and bytes is read only if all of them can be |
| `EngineLegible.ShortReads` | experimental/api_v86/src/database_v1.cpp:216-217 | when a run submits no oversize operation, every crash after it can be read |
| `EngineLegible.CheckpointHeals` | experimental/api_v86/src/database_v1.cpp:257-258 | once a checkpoint has finished every crash can be read, whatever was logged before |
| `EngineLegible.OversizeStops` | experimental/api_v86/src/database_v1.cpp:216-246 | an oversize operation is accepted, logged and acknowledged, and a crash that loses nothing then leaves a directory that neither reader accepts |
| `EngineKill.KeptStale` | experimental/api_v86/src/database_v1.cpp:200-214 | whatever survives of the changes that a killed process left unsynced, a snapshot and a chain of segments are left |
| `EngineKill.SyncOver` | experimental/api_v86/src/database_v1.cpp:254 | the first directory sync of the next checkpoint settles all of them |
| `EngineKill.GoodCrash` | experimental/api_v86/src/database_v1.cpp:200-214 | a readable crash over such changes keeps everything durable |
| `EngineKill.KillSees` | experimental/api_v86/src/database_v1.cpp:200-205 | what the next process reads of the live directory: everything durable and every whole record, for either reader |
| `EngineKill.KillGood` | experimental/api_v86/src/database_v1.cpp:205-213 | when the opening finds the directory settled, the invariant holds again, with the stale changes still pending |
| `EngineKillRuns.ActsKeep` | experimental/api_v86/src/database_v1.cpp:200-267 | every run of steps, crashes and settled kills keeps the invariant and everything durable |
| `EngineKillRuns.AcknowledgedThroughKills` | experimental/api_v86/src/database_v1.cpp:242-246 | an operation whose wait returned is there, at its place, after any such run and one more readable crash |
| `EngineKillRuns.SettledIff` | experimental/api_v86/src/database_v1.cpp:205-258 | a kill is settled except between the creation of a segment and the next directory sync, or when the file ends with a whole record that is not synced |
| `EngineKillRuns.KillExact` | experimental/api_v86/src/database_v1.cpp:205-213 | after a kill at any point of a run and a reopening, everything that counts as durable survives every later run and readable crash if and only if the opening found the directory settled |
| `EngineKillRuns.UnnamedLoses` | experimental/api_v86/src/database_v1.cpp:205-213 | without the entry of the active segment on disk, the next acknowledged put can be lost |
| `EngineKillRuns.UnsyncedOverclaims` | experimental/api_v86/src/database_v1.cpp:206 | with whole records not synced, the opening counts as durable what a crash can lose |
| `EngineKillRuns.FirstPutLost` | experimental/api_v86/src/database_v1.cpp:207 | a kill within the first opening, a reopening, an acknowledged put, and a crash that leaves an empty directory |
| `EngineProgress.WriterDrains` | experimental/api_v86/src/database_v1.cpp:227-240 | a writer that has not ended can make every ticket durable, for every batch size |
| `EngineProgress.CloseFinishes` | experimental/api_v86/src/database_v1.cpp:261-267 | a close that begins with a living writer can end without an error, every ticket durable |
| `EngineProgress.CheckpointFinishes` | experimental/api_v86/src/database_v1.cpp:249-259 | from every point a checkpoint can go on to its end |
| `EngineProgress.CheckpointRuns` | experimental/api_v86/src/database_v1.cpp:249-259 | a checkpoint of an open, fully durable engine can begin and finish |
| `EngineObject.Database.Open` | experimental/api_v86/src/database_v1.cpp:182-214 | recovers into an empty index; the object is the model's opened state; it fails as the directory does, or for want of room, only when the files together are longer than 32-bit offsets |
| `EngineObject.Database.Submit` | experimental/api_v86/src/database_v1.cpp:216-225 | the model's step with the ticket, or an unchanged object; each error exactly in its case, want of room included |
| `EngineObject.Database.Accept` | experimental/api_v86/src/database_v1.cpp:219-223 | queues and applies a checked operation, or takes it back exactly when the index has no room |
| `EngineObject.Database.WaitFor` | experimental/api_v86/src/database_v1.cpp:242-246 | the outcome the model gives |
| `EngineObject.Database.Get` | experimental/api_v86/include/bdr/compact_index.hpp:47 | the answer of the fold of every accepted operation |
| `EngineObject.Database.TakeBatch` | experimental/api_v86/src/database_v1.cpp:232-233 | moves up to a batch from the queue, in order, and prints it |
| `EngineObject.Database.EndWriter` | experimental/api_v86/src/database_v1.cpp:232 | the writer ends, and nothing else changes |
| `EngineObject.Database.Wake` | experimental/api_v86/src/database_v1.cpp:229-233 | takes and encodes a batch, or ends once stopped with an empty queue |
| `EngineObject.Database.Encode` | experimental/api_v86/src/database_v1.cpp:233 | the buffer is the print of the batch's records |
| `EngineObject.Database.WritePart` | experimental/api_v86/src/database_v1.cpp:234 | a partial pwrite at the file offset extends the file by that part of the batch |
| `EngineObject.Database.FlushWal` | experimental/api_v86/src/database_v1.cpp:234 | the whole file is synced and the offset is past the batch |
| `EngineObject.Database.PublishBatch` | experimental/api_v86/src/database_v1.cpp:235 | durable_seq moves up to the end of the batch |
| `EngineObject.Database.FailWriter` | experimental/api_v86/src/database_v1.cpp:237-239 | the error is kept and the writer ends |
| `EngineObject.Database.SetClosed` | experimental/api_v86/src/database_v1.cpp:262 | closed is set, and nothing else |
| `EngineObject.Database.SetStop` | experimental/api_v86/src/database_v1.cpp:264 | stop is set, and nothing else |
| `EngineObject.Database.WriterTurn` | experimental/api_v86/src/database_v1.cpp:227-240 | one turn of a living writer is the step of the machine, or its failure |
| `EngineObject.Database.AwaitTickets` | experimental/api_v86/src/database_v1.cpp:242-251 | the wait of a checkpoint: every ticket is durable afterwards, or the writer failed, which needs a fault or an earlier failure; no name and no temporary file changes |
| `EngineObject.Database.BeginCheckpoint` | experimental/api_v86/src/database_v1.cpp:249-252 | the listing of the index is printed as the snapshot of this moment, whole and up to half of its items |
| `EngineObject.Database.SyncDirectory` | experimental/api_v86/src/database_v1.cpp:254-258 | the synced names become the live ones |
| `EngineObject.Database.CreateWal` | experimental/api_v86/src/database_v1.cpp:192-198 | a new synced segment with the next id and first sequence |
| `EngineObject.Database.RemoveCovered` | experimental/api_v86/src/database_v1.cpp:257 | only the active segment is left in the directory |
| `EngineObject.Database.WriteSnapshot` | experimental/api_v86/src/database_v1.cpp:250-253 | writes and syncs the temporary snapshot, or stops with it half written, at the item the source picks, or whole |
| `EngineObject.Database.SwitchSegment` | experimental/api_v86/src/database_v1.cpp:255-256 | closes the old segment and starts the next, or stops with the old one synced, or the new one made but not in the synced names |
| `EngineObject.Database.InstallSnapshot` | experimental/api_v86/src/database_v1.cpp:249-254 | writes, syncs, renames and syncs the directory, or stops at an early failpoint with the files as they are there |
| `EngineObject.Database.Checkpoint` | experimental/api_v86/src/database_v1.cpp:249-259 | waits, then finishes exactly when open, not failed and not stopped; without faults the writer does not fail; at a failpoint it is at that point: temporary half written, whole or synced, renamed, directory synced, old segment closed, new one made, its entry synced, old ones removed |
| `EngineObject.Database.CheckpointNow` | experimental/api_v86/src/database_v1.cpp:250-259 | the checkpoint once every ticket is durable, with phase, temporary file, names, pending changes and segment file as they are at the failpoint |
| `EngineObject.Database.RetireCovered` | experimental/api_v86/src/database_v1.cpp:257-258 | removes the covered segments and syncs the directory, or stops before or after the sync |
| `EngineObject.Database.CrashHere` | experimental/api_v86/src/database_v1.cpp:249-259 | a readable crash at the point where a checkpoint stopped recovers exactly the map and sequence of the engine, for either reader |
| `EngineObject.OpenEmpty` | experimental/api_v86/src/database_v1.cpp:207 | opening an empty directory gives the initial state of the machine |
| `EngineObject.OpenAfterCrash` | experimental/api_v86/src/database_v1.cpp:200-214 | opening what a readable crash left succeeds and is the machine's crash step |
| `PythonWal.Encode` | bdr/persistent_engine.py:104-107 | prints the record |
| `PythonWal.FoundIff` | bdr/persistent_engine.py:109-126 | the reader finds a record exactly when the bytes start with its print |
| `PythonWal.PartTorn` | bdr/persistent_engine.py:112-121 | every proper part of a record reads as a torn end |
| `PythonWal.TornIff` | bdr/persistent_engine.py:112-121 | the reader finds a torn end exactly when there are fewer bytes than the record they begin would have |
| `PythonWal.CrcFailureIff` | bdr/persistent_engine.py:124-125 | a whole record is refused exactly when its last four bytes are not the checksum of the others |
| `PythonWal.CorruptLoad` | bdr/persistent_engine.py:124-125 | printed records followed by one with a wrong checksum do not load, whatever follows |
| `PythonWal.UnknownLoad` | bdr/persistent_engine.py:196-201 | a next record with an unknown operation byte and a right checksum is refused |
| `PythonWal.DamagedRecord` | bdr/persistent_engine.py:124-125 | with a checksum like CRC-32, a record with one byte changed outside its length field is found corrupt |
| `PythonWal.LoadPrinted` | bdr/persistent_engine.py:190-203 | printed records load in order, or stop at the first gap |
| `PythonWal.LoadCut` | bdr/persistent_engine.py:109-126 | a cut file loads as the records that lie wholly before the cut |
| `PythonWal.ReplayFile` | bdr/persistent_engine.py:190-203 | the reading loop equals the file loading |
| `PythonSnapshot.EncodeSnapshot` | bdr/persistent_engine.py:254-261 | the checkpoint's bytes are the snapshot print |
| `PythonSnapshot.LoadSnapshot` | bdr/persistent_engine.py:177-186 | reads either format, with the errors of each |
| `PythonSnapshot.SnapshotBack` | bdr/persistent_engine.py:146-174 | what a checkpoint writes loads as the same map and sequence |
| `PythonSnapshot.ReadSnapshotIff` | bdr/persistent_engine.py:128-174 | a snapshot loads exactly when the file is, to the last byte, the print of items in the newer format with the right checksum, or begins with the print of items in the older one; and then as those items |
| `PythonSnapshot.DamagedSnapshot` | bdr/persistent_engine.py:146-174 | with a checksum like CRC-32, a newer snapshot with one byte changed behind its first four is refused for that reason |
| `PythonModel.TrimTrims` | bdr/persistent_engine.py:176-203 | a new start forgets exactly the numbers at the end that logged nothing, and no operation |
| `PythonModel.MoreKeeps` | bdr/persistent_engine.py:214-219 | writing a record, or taking a number without one, keeps the invariant |
| `PythonModel.ReopenKeeps` | bdr/persistent_engine.py:60-61 | a clean close and a new start keep it |
| `PythonModel.DamagedDirectory` | bdr/persistent_engine.py:176-203 | a snapshot that does not load, or a log file with a corrupt record, fails the whole directory |
| `PythonCrash.RunKeepsInv` | bdr/persistent_engine.py:205-288 | every run of file steps, rejected calls and reopenings included, keeps the invariant |
| `PythonCrash.AcceptLogged` | bdr/persistent_engine.py:190-203 | reading goes on exactly as long as no operation follows a number that logged nothing |
| `PythonCrash.JoinedLeft` | bdr/persistent_engine.py:109-126 | what is left of the segments after a cut holds what was logged up to some number, not below what is synced |
| `PythonCrash.KeptLoads` | bdr/persistent_engine.py:176-203 | with the first segment's entry in the directory, loading reads on from a snapshot to at least what is synced, or fails at a gap |
| `PythonCrash.LostLoads` | bdr/persistent_engine.py:77-82 | without it, loading finds nothing, or the snapshot just renamed |
| `PythonCrash.CrashOnce` | bdr/persistent_engine.py:176-288 | after every run, what one crash at any file step loads to |
| `PythonCrash.EveryCrash` | bdr/persistent_engine.py:176-288 | after every run, every crash loads with all synced operations if and only if the directory was synced or nothing was, and no operation was logged after a rejected one since the last installed snapshot |
| `PythonCrash.CheckpointLosesNothing` | bdr/persistent_engine.py:205-288 | inside a rotation or checkpoint of such a state a crash loses nothing at all |
| `PythonCrash.FirstEntryLost` | bdr/persistent_engine.py:77-82 | a synced first operation that a crash loses, because the directory was never synced |
| `PythonCrash.RejectedPutBreaks` | bdr/persistent_engine.py:217-218 | a rejected put, a put and an fsync: the directory does not load although nothing was lost |
| `PythonEngine.PersistentBDR.Put` | bdr/persistent_engine.py:231-235 | the operation is logged and applied, fewer than a group unsynced; a value that does not fit takes a number, changes nothing else, and the engine goes on |
| `PythonEngine.PersistentBDR.Delete` | bdr/persistent_engine.py:237-241 | the same for a removal, whether or not the key is there |
| `PythonEngine.PersistentBDR.Get` | bdr/persistent_engine.py:243-245 | the number that the last operation on the key stored, or none |
| `PythonEngine.PersistentBDR.AppendRecord` | bdr/persistent_engine.py:214-229 | logs one record, synced exactly when asked, when a group is full or when it rotates, which is exactly when the segment is full |
| `PythonEngine.PersistentBDR.RotateSegment` | bdr/persistent_engine.py:205-212 | everything is synced and a new empty segment is active |
| `PythonEngine.PersistentBDR.InstallSnapshot` | bdr/persistent_engine.py:249-272 | a complete synced snapshot of the state is in the directory |
| `PythonEngine.PersistentBDR.RetireLog` | bdr/persistent_engine.py:274-288 | one empty segment is left, and the snapshot holds every operation |
| `PythonEngine.PersistentBDR.Checkpoint` | bdr/persistent_engine.py:247-288 | same state, everything durable, the log retired, skipped numbers covered so that every crash loads; refused only for a count that does not fit |
| `PythonEngine.PersistentBDR.CloseAndReopen` | bdr/persistent_engine.py:60-85 | a new engine on the closed directory has the same map; it starts exactly when no operation was logged after a rejected one since the last installed snapshot |
| `PythonEngine.LoadDirectory` | bdr/persistent_engine.py:176-203 | the loading loops equal the loading function |

## Left out

- Real files and devices: a file is its bytes and a synced length, a directory its names and the changes since its
  last sync. Truncation during recovery, and the creation of a segment file with its header, are single steps; a
  crash between `database_v1.cpp:193` and `:195` can leave a file without a header, which recovery refuses.
- Failing calls: a failed write or sync of the v1 writer is modelled. Elsewhere, in `append_batch`, in a checkpoint
  and in the Python engine, an I/O failure is treated as a crash, because the source leaves a state it makes no
  promise about.
- The entry of the database directory itself is taken to be on disk: `create_directories` and `mkdir` never sync the
  parent.
- Reopening the Python engine while the operating system still holds unsynced data: it is reopened after a clean
  close.
- EngineRuns.AcknowledgedSurvives: every process but the last ends with a crash; a killed process that is followed
  by another is the subject of `EngineKillRuns.AcknowledgedThroughKills` and `EngineKillRuns.KillExact`.
- EngineKillRuns.KillExact: for kills whose directory the next process can open, and sequences below 2^64 - 2.
- Threads below the level of mutex-protected blocks, memory orders, and condition variables: `WaitFor` gives what a
  wait finds, and `EngineProgress` what the engine can still do, but no fairness or wake-up is claimed.
- Per-partition locking of the index, and the memory the index may run out of apart from arena offsets.
- Slot positions are taken modulo the capacity where the source masks with a power of two minus one, distances are
  unbounded naturals where it has 32 bits, and the load limit is compared over the reals.
- EngineObject.Database.Open: want of room is bounded by the total length of the files, not given exactly; each
  single put along the way is refused exactly when `CompactIndex.Index.Put` says.
- IndexRecovery.LoadSnapshotInto: want of room needs a file longer than 32-bit offsets reach; not given exactly.
- IndexRecovery.ReplayInto: the same.
- IndexRecovery.RecoverInto: the same, for the files together.
- EngineObject.OpenAfterCrash: the room that the opened index needs is no part of it.
- EngineObject.Database.Submit: covers sequences below 2^64 - 2.
- EngineObject.Database.Accept: covers sequences below 2^64 - 2.
- EngineObject.Database.Checkpoint: covers maps of at most 50,000,000 items, the most a snapshot may hold to be
  loaded.
- EngineObject.Database.RemoveCovered: removes files in the order of their names, where the directory order is
  arbitrary; the step lemma `EngineSteps.RemoveKeeps` holds for every order.
- Segment files are taken in the order of their ids, which is the order of their zero-padded names below 10^12 (v1)
  and 10^6 (Python).
- PythonCrash.EveryCrash: one crash only, after any number of clean reopenings. After a torn tail the Python engine
  appends behind the torn bytes, so a second recovery need not succeed.
- Python keys are the bytes of their encoding, and values the eight bytes stored for them; text that is not valid
  UTF-8, and calls after `close`, are not modelled.
- Statistics, diagnostics, timings, preallocation, the lock file, and what a checksum says about more than one
  changed byte.
- The C and ctypes interfaces, the other `api_v*` layers, the earlier engine in `database.cpp` except
  `encode_snapshot`, `bdr/core.py` and the benchmarks: they repeat these cores or only marshal.
