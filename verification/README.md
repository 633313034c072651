# dig-blockstore: a verified model of the canonical-chain index

dig-blockstore keeps L2 blocks in RocksDB and resolves a chain height to a block hash through three layers: a bounded
in-memory height cache, the memory-mapped file `canonical.bin`, and the CF_CANONICAL rows. Writers update these layers,
the tip and the pruning floor at different moments, so what a lookup answers, what a crash leaves behind and whether the
rows still form a chain are properties of whole runs. This project models that machine and proves them.

Layout:

- `Types`, `Encoding`: hashes, heights, blocks, error cases; big-endian keys and 32-bit length prefixes.
- `DenseFile`, `CanonicalBin`: `canonical.bin` as bytes with 64-bit offset arithmetic, the mapped file and the sidecar
  around it as objects, its rebuild from the canonical rows.
- `StoreModel`: the database, the open handle, and every operation as a function, error paths included.
- `BlockStore`: the same operations as methods of a class that owns a sidecar object, with the code's loops and write
  batches, each proved equal to its function.
- `Coherence`, `Runs`: the layers agree; whole runs with crashes at every durable point and reopens.
- `Reference`, `Lockstep`: the same index as one plain table, and the store refining it in every answer and every write;
  `canonical.bin` following the rows slot by slot.
- `ChainShape`, `CrashRuns`, `Recovery`, `ReorgLaws`, `Pruning`, `Ancestor`: chain shape, whole runs with a crash at every
  durable point, crash recovery, laws of rollback and reorg, pruning, common ancestors.
- `Scan`, `Pipeline`, `Compression`: ordered scans, the batching writer, the dictionary.
- `Payloads`: store and codec state together, over whole runs and as one object.
- `PipelineAcks`, `Snapshot`: what the pipeline acknowledges and the snapshot stream, both over store and codec state.

How the model reads the code:

- Store-level heights stay below 2^59 - 1. `DenseFile` covers all 64-bit heights and shows why: `write_hash` and
  `truncate` refuse larger ones, a read at exactly 2^59 - 1 panics, and a canonical row up there would overflow the rebuild.
- A block carries its hash as a field, so the results about the index hold for any digest. Pruning needs to know that
  genesis does not reuse the hash of another stored header (`Pruning.NoCollision`), and payloads give a block back only if
  it is genuine, its hash being the digest of its header: bincode leaves the hash out.
- CF_BLOCKS appears in the store model as decoded blocks; `Payloads` runs the store and its payload bytes side by side and
  shows that every payload decodes to the block the store model has there. `Snapshot` exports the raw payloads and imports
  frame by frame, each decoded in the codec state that the blocks put before it have left.
- zstd, SHA-256 and bincode are function-valued parameters; the laws they are assumed to obey are the `Lawful` predicates.
  A manifest layout over the source's field widths and a serializer that leaves the hash out are shown to obey them.
- How a dictionary training attempt ends is an input, one outcome per stored block; whether an attempt is made follows
  from the codec state. A failing one makes `put_block`, `extend_chain`, `init_genesis`, the pipeline acknowledgement and
  an import report an error after the block has been stored.
- A linking caller puts each new canonical row on top of the rows or in place of the top one, does not roll back
  underneath rows above the tip, reorgs with a linked fork that leaves nothing above it or ends on the block that was
  canonical there, prunes at a canonical height, and sets the tip as it likes (`CrashRuns.Disciplined`).
- A crash keeps the database at one of its commit points and any bytes at all in `canonical.bin`. Cache warming on open
  is a series of lookups, so runs of lookups cover it.

Where the code and its documentation disagree, the code is modelled:

- `get_hash_by_height` is described as consulting the mmap first (src/canonical/index.rs:32-36); the code checks the
  pruning floor and the height cache before it.
- `extend_chain` is described as safe to call again after a crash (src/canonical/index.rs:217-221); between its two writes
  it is not: the block is then a duplicate and the tip stays behind (`Recovery.ExtendIsRestartableExceptBetweenWrites`).
  A training failure leaves the same state without any crash, and a rollback made in it leaves a gap in the rows
  (`CrashRuns.RollbackKeepsRowsLinkedExactlyWithNoRowAboveTip`).
- `canonical.bin` and the caches are described as kept in lockstep with CF_CANONICAL; genesis, batch promotion and the
  pipeline flush never refresh the height cache, and a reorg ignores its capacity. The exact conditions under which
  lookups stay right are `Coherence.SkippedRefreshIsSafeExactlyWhenStaleFree`, `Coherence.GenesisCoherent`,
  `Coherence.FlushCoherent` and `Runs.LookupsAreAlwaysRightExactlyAboveZero`.
- `put_pipelined` is described as answering like `put_block` (src/pipeline.rs:135-137); where a batch crosses the training
  threshold a failing training is reported for other jobs than `put_block` in order would report
  (`PipelineAcks.AcksDifferAtTheThreshold`; exactly when: `PipelineAcks.FlushAcksArePutAcksExactly`).
- `extend_chain` is described as an error on read-only handles (src/canonical/index.rs:228-230); a stored block is answered
  as a duplicate before the handle is checked (`Reference.ReadOnlyHandlesNeverWrite`).
- The manifest's block count is described as required to match the range (src/snapshot.rs:43); import never compares it
  (`Snapshot.BlockCountIsNotChecked`). Export writes payloads of 2^32 bytes or more with a truncated length
  (`Snapshot.FrameReadsBackExactlyBelow32Bits`).

## Model

| member | source | states |
|---|---|---|
| Runs.EveryLookupIsTheCanonicalRow | src/canonical/index.rs:53-102 | in every run from any database and any sidecar file, with crashes, reopens and mmap-disable, a lookup answers the canonical row at or above the floor and nothing below it; needs cache capacity above 0 and no stale cached height on the three write paths that skip the cache |
| Runs.LookupsAreAlwaysRightExactlyAboveZero | src/canonical/index.rs:88-102 | lookups are right in all admissible runs if and only if the height cache capacity is above zero |
| Runs.CapacityZeroGoesStale | src/store.rs:1283-1292 | with capacity 0 a reorg followed by `set_canonical` leaves the lookup on the replaced hash |
| Runs.BatchPromotionGoesStale | src/canonical/index.rs:185-196 | promoting a batch over a cached height leaves the lookup on the old hash |
| Runs.GenesisGoesStale | src/store.rs:464-470 | genesis over a cached height 0 leaves the lookup on the block put there before |
| Runs.FlushGoesStale | src/pipeline.rs:402-428 | flushing a canonical job over a cached height leaves the lookup on the old hash |
| Runs.FloorNeverFalls | src/store.rs:1531-1615 | the pruning floor never decreases and memory agrees with META_MIN_HEIGHT, in any run at all |
| Runs.GenesisSucceedsOnce | src/store.rs:428-477 | genesis stores body, header, row 0, tip and genesis hash, and every later call in any run is refused without change |
| Runs.TipNeverDisappears | src/store.rs:1813-1822 | once a tip is persisted, every reachable database has one |
| Runs.RunCoherent | src/canonical/index.rs:53-102 | layer agreement is preserved by every admissible step of a run |
| Reference.EveryOperationBehavesLikeTheTable | src/store.rs:428-1615 | wherever the layers agree, each of the fifteen operations answers and stores what an index without cache, sidecar and in-memory tip does, whose operations are told from the rows alone: every refusal with its values and in the order of the checks, every list, count and tip, and the whole database |
| Reference.RunsBehaveLikeTheTable | src/store.rs:428-1615 | so it is over every admissible run from any database and sidecar file, with a crash at every durable point and reopens: same database, and whatever comes next answers and stores the same |
| Reference.LayersDoNotShow | src/canonical/index.rs:53-102 | two stores over one database with different sidecar files and cache capacities answer alike |
| Reference.OpenedAsAsked | src/store.rs:263-421 | a handle can write if and only if it was opened for writing; it starts on the database as it is, with its tip and floor and an empty height cache, and maps a read-only sidecar if and only if the file is exactly right |
| Reference.ReadOnlyHandlesNeverWrite | src/store.rs:351-421 | whatever the sidecar file held, through any sequence of operations on a read-only handle database, tip, floor and sidecar bytes stay, and every writing operation is refused as read-only, but for an extension with a block that is already stored |
| Reference.RollbackIsRefusedExactly | src/store.rs:1104-1127 | a rollback is accepted if and only if the handle is writable, there is a tip and the target lies between floor and tip; which error each refusal gives, with its heights, and that it changes nothing |
| Reference.ReorgIsRefusedExactly | src/store.rs:1200-1225 | a reorg is accepted if and only if the handle is writable, there is a tip and a non-empty list of stored hashes; otherwise which error, the first unstored hash by name, and no change |
| Reference.FailedTrainingOnlyTurnsTheAnswer | src/store.rs:1018-1031 | a failing training attempt turns the answer of a put or of genesis into an error exactly when a block was stored, and takes nothing back |
| Reference.RangeReadsTheRows | src/store.rs:813-829 | a range read returns the stored bodies of the rows from the floor up, ascending, gaps omitted, in any coherent state |
| Lockstep.SidecarStaysInStep | src/canonical/mmap.rs:378-412 | over every admissible run, with crashes, pruning and flushes, in which no rollback or reorg cuts off rows above the tip, a writable `canonical.bin` reads at every height from the floor up as the row there, zero hashes as gaps, and nothing where there is no row |
| Lockstep.RollbackInStepExactly | src/store.rs:1144-1155 | a rollback keeps that agreement if and only if no row with a nonzero hash lies above the tip |
| Lockstep.ReorgInStepExactly | src/store.rs:1227-1264 | a reorg keeps it if and only if every row with a nonzero hash above ancestor, tip and floor is rewritten by the fork |
| Coherence.SkippedRefreshIsSafeExactlyWhenStaleFree | src/canonical/index.rs:178-198 | for the write paths that skip the height cache, all lookups stay right if and only if no rewritten height is cached with another hash |
| Coherence.LookupIsVisible | src/canonical/index.rs:53-83 | in a coherent store the three-tier answer is the canonical row under the floor guard |
| Coherence.ShrinkKeepsHighest | src/canonical/index.rs:94-101 | eviction keeps exactly as many entries as fit, with their values, and every evicted height is below every kept one |
| Coherence.RememberKeepsTheNewEntry | src/canonical/index.rs:88-102 | an insertion is remembered if and only if the cache has room or a height no higher than the new one, and drops nothing but the lowest |
| Coherence.WhatTheCacheHolds | src/canonical/index.rs:53-142 | a lookup that finds a row, a canonical put and a promotion leave their height in the cache if there is room |
| Coherence.WhatTheCacheDrops | src/store.rs:1168-1292 | rollback and prune leave none of the heights they delete in the cache; a reorg leaves exactly the fork there |
| Coherence.PruneKeepsTheRest | src/store.rs:1600-1608 | a prune keeps every cached height from its bound up |
| Coherence.RollbackKeepsTheRest | src/store.rs:1130-1176 | a rollback with room for its own lookups keeps every cached height that it does not delete |
| Coherence.RefreshedWriteCoherent | src/canonical/index.rs:127-135 | a row write that also writes the sidecar and the cache keeps the layers in agreement |
| Coherence.RollbackCoherent | src/store.rs:1130-1177 | rollback keeps the layers in agreement although its target lookup runs between truncation and eviction |
| Coherence.ReorgCoherent | src/store.rs:1227-1295 | a reorg with any ancestor and any stored hashes keeps the layers in agreement |
| Coherence.PruneCoherent | src/store.rs:1553-1612 | pruning keeps the layers in agreement although stale slots stay in the sidecar |
| Coherence.FlushCoherent | src/pipeline.rs:370-412 | after a pipeline flush the layers agree and lookups are right if and only if it was refused or no rewritten height is cached with another hash |
| Coherence.GenesisCoherent | src/store.rs:458-471 | after genesis the layers agree and lookups are right if and only if it was refused or height 0 is not cached with another hash |
| Coherence.OpenCoherent | src/store.rs:263-348 | opening any database over any sidecar bytes yields a coherent store |
| Coherence.CollectDownCoherent | src/store.rs:1072-1076 | the descending collection lists exactly the visible hashes and keeps coherence through its read-through writes |
| Coherence.CollectUpCoherent | src/store.rs:1551-1560 | the ascending collection finds exactly the visible rows of its range |
| CrashRuns.DisciplinedRunsKeepTheRowsLinked | src/store.rs:995-1302 | over all runs of linking callers from genesis, any capacity, with a crash at every durable point, failing trainings and reopens: rows are exactly floor..=top, each names a stored block of that height whose parent is the row below, lookups answer exactly those rows, and the tip in memory is the one on disk |
| CrashRuns.DisciplinedRunsKeepTheChain | src/store.rs:995-1302 | in those runs the tip is the top row, so that the rows are a chain from floor to tip, if and only if every point that separated the two has been mended since |
| CrashRuns.ChainIsLostAndRegainedExactly | src/canonical/index.rs:231-253 | from a chain, a durable point of a disciplined action is a chain if and only if it does not lie between an index change and its tip change; off the chain, if and only if the action has put the tip back on the top row (the same rollback again, `set_tip` on the top row, an extension, a reorg that leaves nothing above the fork) |
| CrashRuns.RollbackKeepsRowsLinkedExactlyWithNoRowAboveTip | src/store.rs:1104-1178 | a legal rollback of linked rows leaves linked rows if and only if no row lies above the tip or the target is the tip |
| CrashRuns.ForkOverLinked | src/store.rs:1227-1255 | a linked fork over linked rows gives a chain wherever the tip was, when nothing is left above it |
| CrashRuns.ReorgKeepsRowsLinkedExactlyWhenTheForkFits | src/store.rs:1200-1302 | a reorg of linked rows with a linked fork leaves linked rows, wherever the tip was, if and only if no row is left above the fork or the deletions end within the fork and its last block was canonical already |
| CrashRuns.ForkUnderLinked | src/store.rs:1227-1255 | in the second of these cases the rows above stay and the tip ends up below the top row |
| CrashRuns.FlushLinked | src/pipeline.rs:265-436 | a flush of linking canonical jobs keeps the rows linked, with the last staged canonical job on top and the tip where it was |
| ChainShape.ExtendChain | src/canonical/index.rs:231-253 | extending at tip+1 with the tip as parent keeps the chain |
| ChainShape.RollbackChain | src/store.rs:1104-1178 | rollback keeps the chain and leaves exactly the rows up to the target with the tip on it |
| ChainShape.ReorgChain | src/store.rs:1200-1302 | a linked stored fork from an ancestor on the chain gives a chain again |
| ChainShape.ReorgRows | src/store.rs:1227-1255 | the rows after a reorg are the old ones up to the ancestor and then the fork, height by height |
| ChainShape.PruneChain | src/store.rs:1531-1615 | pruning at or below the tip keeps the chain from the new floor up |
| ChainShape.FlushForksChain | src/pipeline.rs:265-436 | flushing non-canonical jobs leaves the chain alone |
| Recovery.ReorgCrashIsOldOrNew | src/store.rs:1227-1295 | a crash after any micro-step of a reorg, whatever the sidecar holds, reopens to exactly the old or exactly the new lookups, tip and floor |
| Recovery.ReorgStepsAreTheReorg | src/store.rs:1227-1295 | the micro-steps begin at the store and end at the result of the reorg |
| Recovery.RollbackIsRestartable | src/store.rs:1104-1178 | after a crash between index delete and tip write, calling rollback again reaches the database, tip and lookups of the uninterrupted call and reports nothing reverted |
| Recovery.RollbackCrashKeepsRowsLinked | src/store.rs:1144-1150 | in that crash state the rows are still contiguous and linked up to the target |
| Recovery.RollbackDb | src/store.rs:1130-1163 | what rollback returns and leaves on disk, also when the target has no row (the tip then stays) |
| Recovery.ExtendIsRestartableExceptBetweenWrites | src/canonical/index.rs:231-253 | calling `extend_chain` again after a crash reaches the uninterrupted database if and only if the crash was not between its two writes; there the tip stays behind until set by hand |
| ReorgLaws.ReorgIsRollbackThenPromotion | src/store.rs:1200-1302 | for an ancestor between floor and tip a reorg equals rollback, `set_canonical` on each hash, `set_tip`, in database and tip, and in lookups if and only if the cache has a capacity or holds no other hash at a promoted height |
| ReorgLaws.LinkedForkMeetsNoCachedHeight | src/store.rs:1200-1302 | for a linked fork in a chain that condition holds at every capacity |
| ReorgLaws.ReorgIsUndoneByItsRevertedList | src/store.rs:1200-1302 | a second reorg with the reverted list turned around restores database, tip and lookups, and reports the fork reversed |
| ReorgLaws.RollbacksCompose | src/store.rs:1104-1178 | two rollbacks equal the direct one in database, tip and lookups, and their lists concatenate to its list |
| ReorgLaws.PreviewIsTheRollback | src/store.rs:1064-1078 | `blocks_to_revert` equals what `rollback_to_height` returns for every legal target |
| ReorgLaws.DescendingHeights | src/store.rs:1130-1136 | in a chain the reverted list has one stored block per height, strictly descending from the tip |
| ReorgLaws.ReorgReports | src/store.rs:1297-1301 | a successful reorg reports the visible hashes above the ancestor, the applied hashes and the last hash as tip |
| Pruning.PruneRemovesExactlyTheBlocksBelow | src/store.rs:1531-1615 | in every reachable state pruning removes from bodies, headers and attestations exactly the hashes with header height below the bound, returns exactly their number, and leaves lookups from the bound up unchanged |
| Pruning.PrunesCompose | src/store.rs:1531-1615 | two prunes have the database, floor, lookups and total count of one prune at the higher bound |
| Pruning.RunNamed | src/store.rs:995-1302 | in every admissible run each canonical row above the floor names a stored block of its height, also at every crash point |
| Pruning.RowsAreDistinct | src/store.rs:1549-1566 | canonical rows of different heights name different blocks, so the count has no duplicates |
| Ancestor.AncestorIsTheNearestCanonical | src/store.rs:1329-1355 | the result is the first canonical block of the parent walk; it is absent exactly when the first max_depth walked blocks hold none |
| Ancestor.StoredAncestryIsFound | src/store.rs:1329-1355 | whenever the stored parent walk meets a canonical block within the depth the search succeeds |
| Ancestor.FoundAncestorReorgKeepsTheChain | src/store.rs:1321-1355 | the found ancestor with the walked blocks is a linked fork that the reorg accepts and that keeps the chain, ending at the searched block |
| DenseFile.DenseFileRefinesSlots | src/canonical/mmap.rs:168-211 | under any sequence of writes and truncates, at any 64-bit height, the bytes are slot for slot a growable, cuttable sequence of hashes |
| DenseFile.ReadsReturnTheLastSurvivingWrite | src/canonical/mmap.rs:147-211 | a read returns the last write no later truncate removed, zero or absent otherwise; the length is exact |
| DenseFile.ReadPanicsExactlyAtTheLimit | src/canonical/mmap.rs:41-50 | reads panic at height 2^59 - 1 and at no other height; below it the nonzero read is the slot |
| DenseFile.BytesNeeded | src/canonical/mmap.rs:170-175 | the checked size computation is exact below 2^59 - 1 and refuses every larger height |
| DenseFile.PutSlotUpdates | src/canonical/mmap.rs:169-191 | a write changes only its slot and zero-fills growth |
| DenseFile.MappedFile.Write | src/canonical/mmap.rs:169-191 | the in-place write with remap equals the byte-level write and reports its refusals |
| DenseFile.MappedFile.Cut | src/canonical/mmap.rs:194-211 | the truncation with remap equals the byte-level one |
| CanonicalBin.RecoversFromAnyFile | src/canonical/mmap.rs:266-354 | for any prior bytes a writable open leaves each slot equal to its row or zero and length 32 per height; a read-only open maps those same bytes or disables the layer |
| CanonicalBin.DenseBytesFromRows | src/canonical/mmap.rs:216-249 | the rebuild loop produces exactly the dense bytes of the rows |
| CanonicalBin.Sidecar.constructor | src/canonical/mmap.rs:266-375 | the open procedure yields the mapping that the rows and the old bytes call for |
| CanonicalBin.Sidecar.Read | src/canonical/mmap.rs:378-387 | the nonzero slot, or nothing when disabled |
| CanonicalBin.Sidecar.Extend | src/canonical/mmap.rs:390-399 | a writable mapping changes as the model's write, the others stay |
| CanonicalBin.Sidecar.Truncate | src/canonical/mmap.rs:407-412 | a writable mapping changes as the model's truncation, the others stay |
| CanonicalBin.ExtendWriteReads | src/canonical/mmap.rs:390-399 | a sidecar write changes one height's nonzero reading; other mappings ignore it |
| CanonicalBin.TruncateReads | src/canonical/mmap.rs:407-412 | a truncation hides exactly the heights above it |
| BlockStoreClass.BlockStore.constructor | src/store.rs:263-348 | opening builds the sidecar object and loads tip and floor as the model's open |
| BlockStoreClass.BlockStore.InsertHeightCache | src/canonical/index.rs:88-102 | insert then evict-lowest loop equals the model's bounded insert |
| BlockStoreClass.BlockStore.GetHashByHeight | src/canonical/index.rs:53-84 | the tiered lookup with write-through equals the model's answer and state |
| BlockStoreClass.BlockStore.PutBlock | src/store.rs:995-1032 | one batch, sidecar and cache; duplicates and read-only handles change nothing; a failing training attempt turns the answer into an error after the block is stored |
| BlockStoreClass.BlockStore.InitGenesis | src/store.rs:428-477 | refusals in order, one batch of five writes, sidecar, tip, and the error of a failing training attempt |
| BlockStoreClass.BlockStore.SetTip | src/store.rs:547-560 | tip on disk and in memory together |
| BlockStoreClass.BlockStore.SetCanonical | src/canonical/index.rs:117-142 | row, sidecar and cache at the stored header's height, or the missing-block error |
| BlockStoreClass.BlockStore.SetCanonicalBatch | src/canonical/index.rs:159-199 | first missing hash is reported before any write; otherwise one batch and the sidecar |
| BlockStoreClass.BlockStore.ExtendChain | src/canonical/index.rs:231-253 | stored block is a no-op, otherwise put and tip; with a failing training attempt the put stays and the tip does not move |
| BlockStoreClass.BlockStore.BlocksToRevert | src/store.rs:1064-1078 | preview loop equals the model's |
| BlockStoreClass.BlockStore.RollbackToHeight | src/store.rs:1104-1178 | validation order, collection, batch delete, truncation, tip move and eviction equal the model's rollback |
| BlockStoreClass.BlockStore.ApplyReorg | src/store.rs:1200-1302 | validation, descending collection with the row deletes staged on the way, fork rows and tip in the same batch, sidecar, cache and tip equal the model's reorg |
| BlockStoreClass.BlockStore.FindCommonAncestor | src/store.rs:1329-1355 | the walk loop equals the model's search |
| BlockStoreClass.BlockStore.PruneBeforeHeight | src/store.rs:1531-1615 | the two passes, one batch, floor and eviction equal the model's prune |
| BlockStoreClass.BlockStore.GetBlocksInRange | src/store.rs:813-829 | the point-lookup loop equals the model's range read |
| Encoding.KeysRoundTripAndSort | src/encoding.rs:40-75 | keys decode to what they encode, and bytewise order is numeric order |
| Encoding.OrderIsNumeric | src/encoding.rs:34-42 | among keys of one width the RocksDB order is the numeric order |
| Encoding.KeyDigits | src/encoding.rs:40-47 | the first byte of a key is the highest |
| Encoding.LengthPrefixDigits | src/snapshot.rs:135-137 | the first byte of a length prefix is the lowest, and lengths are cut to 32 bits |
| Encoding.LittleEndianDigits | src/snapshot.rs:49-62 | the fixed-width integers of the manifest start with their lowest byte |
| Scan.StreamEqualsPointLookups | src/pipeline.rs:71-127 | in a chain the canonical stream meets no malformed key and yields without errors exactly the blocks of the point lookups, in order |
| Scan.StreamBlocks | src/pipeline.rs:71-127 | scan and body reads together: over any sorted family one item per row of the range or the scan error; over the rows of a chain the result of `get_blocks_in_range` |
| Scan.StreamNamesMissingBodies | src/pipeline.rs:458-491 | in any store the stream has one item per canonical row of the range, the body or an error naming the hash that has none |
| Scan.StreamPairs | src/pipeline.rs:71-127 | the bounded scan collects exactly the rows of the range, ascending, or fails, exactly when a key inside its bounds is not 8 bytes long |
| Scan.ScanIsAscending | src/pipeline.rs:94-120 | the selected rows are the canonical rows of the range in ascending height |
| Scan.SelectedAndOthers | src/store.rs:1484-1652 | the rows a range scan returns and the rows a checkpoint prune leaves are exactly those inside and outside the range, foreign keys outside, each in key order |
| Scan.CheckpointsInRange | src/store.rs:1484-1512 | exactly the checkpoints of the requested epochs, ascending, also with foreign keys in between |
| Scan.LatestCheckpoint | src/store.rs:1464-1476 | the row with the greatest key; if that is an epoch key, the highest epoch, whatever other keys there are |
| Scan.PruneCheckpoints | src/store.rs:1622-1652 | a writable store deletes and counts exactly the epochs below the bound; a read-only one refuses |
| Pipeline.FlushRefinesSequentialPuts | src/pipeline.rs:265-436 | for every job list, duplicates and colliding heights included: bodies, headers, rows, sidecar, tip and floor, and which jobs are stored and which turned down, equal those of `put_block` in order |
| Pipeline.PipelineIsSequentialPuts | src/pipeline.rs:201-255 | for every interleaving, once closed, the store and the jobs stored or turned down are those of `put_block` on the arrivals in order, but for the height cache |
| Pipeline.WorkerLosesNothing | src/pipeline.rs:201-255 | batches and buffer are exactly the arrivals, each batch has 1..=batch_size jobs, nothing stays buffered after close |
| Pipeline.BatchesAreCutExactly | src/pipeline.rs:219-254 | for every interleaving the batches are the waves of arrivals between timers and close, each cut after every batch_size-th job with what is left over last; the buffer is what is left over from the open wave |
| Pipeline.TimerLeavesNothingWaiting | src/pipeline.rs:246-253 | when the timer fires every arrival so far is in a flushed batch |
| Pipeline.RunWritePipeline | src/pipeline.rs:201-255 | the two-phase worker loop equals the event-by-event worker |
| PipelineAcks.FlushAcksArePutAcksExactly | src/pipeline.rs:265-436 | for every batch the flush leaves the store and payload hashes of `put_block` in order, and its acknowledgements, training errors included, are theirs if and only if no dictionary is called for, or the batch stays below the threshold, or the next row reaches it, or the attempts at the first staged and at the crossing job both succeed |
| PipelineAcks.PipelineAcksArePutAcksExactly | src/pipeline.rs:201-436 | for every interleaving, once closed, there is one acknowledgement per arrival and they are those of `put_block` in order if and only if each batch meets that condition in the state it finds |
| PipelineAcks.BatchAcksArePutAcksExactly | src/pipeline.rs:265-436 | the same for any list of batches flushed one after the other |
| PipelineAcks.VerdictsAgreeExactly | src/compression.rs:205-228 | for new distinct blocks the attempts made after each row and the attempts made after the whole batch fail at the same blocks if and only if that condition holds |
| PipelineAcks.VerdictsAgreeForEveryTrainerExactly | src/compression.rs:205-228 | they do so whatever the trainer does if and only if no dictionary is called for, or the batch stays below the threshold, or the next row reaches it |
| PipelineAcks.AcksDifferAtTheThreshold | src/pipeline.rs:416-433 | with 998 rows, two new jobs and a failing trainer the flush answers two errors where `put_block` in order answers success and then an error |
| PipelineAcks.FlushFullIsAStep | src/pipeline.rs:265-436 | store and codec after a flush are those of the flush step of a whole-store run, so its payloads stay readable |
| PipelineAcks.FlushBatch | src/pipeline.rs:265-436 | staging, payload rows, one commit, sidecar writes and one training attempt per staged job equal the model's flush of store and codec, and every job's channel gets exactly one answer |
| Pipeline.StageJobs | src/pipeline.rs:325-367 | the seen-set pass answers exactly the duplicates and stages exactly the new jobs in order |
| Snapshot.SnapshotRoundTrip | src/snapshot.rs:85-258 | what a chain exports imports into an empty store that can read its payloads, also when the importer trains a dictionary midway: it is turned down if and only if the training after the thousandth block is due and fails; otherwise the importer has exactly those heights, hashes and blocks but no tip, and the manifest comes back except for its checksum placeholder |
| Snapshot.AcceptedStreamsAreSnapshots | src/snapshot.rs:171-258 | any accepted stream is a version-1 manifest, frames at start..=end linked by parent hash, each decodable under the dictionary in force at its turn, and the hash of all preceding bytes; store and codec have had exactly those blocks put |
| Snapshot.SnapshotsAreAccepted | src/snapshot.rs:171-258 | conversely a writable store in any codec state accepts every such stream if and only if no training attempt fails on the way |
| Snapshot.FailsExactlyWhenDue | src/compression.rs:205-228 | putting new distinct blocks reports a training error somewhere if and only if a dictionary is called for, the list reaches the threshold and the attempt at that block fails |
| Snapshot.FixedLayoutIsLawful | src/snapshot.rs:49-62 | a fixed-width little-endian manifest over the 32-bit and 64-bit fields obeys the laws assumed of bincode |
| Snapshot.BlockCountIsNotChecked | src/snapshot.rs:171-258 | the manifest's block count may claim any 64-bit number |
| Snapshot.FrameReadsBackExactlyBelow32Bits | src/snapshot.rs:135-146 | a frame reads back as its payload if and only if the payload is shorter than 2^32 bytes |
| Snapshot.SnapshotOfAnyRunImports | src/snapshot.rs:85-258 | after any run that leaves a chain the export imports into a fresh store whose codec can read the exporter's payloads (no dictionary in use, or the same one): same heights, hashes and blocks, unless the one training that falls due on the way fails |
| Snapshot.ImportedPayloadsStayReadable | src/snapshot.rs:171-258 | after such an import every stored payload, re-encoded on the way before or after the importer's own training, decodes to its block, when the exported blocks fit the importer's decompression bound |
| Snapshot.ExportSnapshot | src/snapshot.rs:85-157 | the export loop writes exactly the model's bytes, also on errors |
| Snapshot.ExportedManifest | src/snapshot.rs:94-156 | the returned manifest has version 1, the range, the state root in the header of the end block, and as checksum the last 32 bytes written, the hash of all before them; its count is that of the range, except that an empty range counts one |
| Snapshot.ExportDescribesTheChain | src/snapshot.rs:94-156 | over a chain the count is the number of blocks written, the state root that of the last one, and the stream is manifest, frames and checksum |
| Snapshot.ExportFailsExactly | src/snapshot.rs:97-134 | an export succeeds if and only if the end has a stored header and every height has a row and a payload; which error and hash the first gap gives, and that nothing is written without an end |
| Snapshot.ExportWritesUpToTheGap | src/snapshot.rs:114-150 | what has been written when an export fails: the manifest and the frames below the first gap, without a checksum |
| Snapshot.ImportSnapshot | src/snapshot.rs:171-258 | the import loop with its running hash, each frame decoded through the handle's current dictionary, equals the model's import in store, codec and answer |
| Snapshot.RefusedImportsKeepWhatTheyRead | src/snapshot.rs:171-258 | a refused import has stored nothing without a version-1 manifest, and otherwise exactly the linked frames up to the first that cannot be taken, to the put that reported an error, or all of them when only the checksum fails |
| Compression.EveryPutStaysReadable | src/compression.rs:51-228 | a genuine block stored at any point of any run, by a put, by genesis or in a flushed batch, decodes to itself at every later point until pruned, trained before, at or after |
| Compression.HashFreeCodecIsLawful | src/compression.rs:51-119 | for any header digest a serializer that leaves the hash out, with tagged frames, obeys the laws assumed of the codecs |
| Compression.DictionaryChangesAtMostOnce | src/compression.rs:185-228 | once a dictionary is in force no later point of the run has another |
| Compression.DictionaryIsInstalledOnce | src/compression.rs:143-228 | memory always matches the metadata dictionary, and an installed one stays |
| Compression.DictionaryIsTheFirstTrained | src/compression.rs:185-228 | from a state without a dictionary, through puts, genesis, flushed batches, prunes, reloads and reopens, the dictionary in memory and in the metadata is none, or exactly what the first successful attempt with at least 1000 rows yielded |
| Compression.TrainingFailsExactly | src/compression.rs:205-228 | an attempt is an error if and only if dictionaries are on, none is in force, there are at least 1000 rows, and training fails |
| Compression.PutReadsBackExactlyWithinTheBound | src/compression.rs:103-119 | with a dictionary in force a put reads back if and only if its serialized size is within the decompression bound |
| Compression.DictionaryStore.MaybeTrainDictionary | src/compression.rs:205-228 | reload, threshold and training branches equal the model's step, and it fails exactly when training was due and failed |
| Compression.DictionaryStore.Put | src/store.rs:1001-1031 | the payload row and the training attempt equal the model's step |
| Payloads.EveryPayloadDecodesToItsBlock | src/store.rs:995-1032 | over every run of the whole store, crashes before and after the dictionary row included, CF_BLOCKS has a payload for exactly the stored blocks and each decodes to the block of the store model |
| Payloads.DictionaryOfAnyRun | src/compression.rs:185-228 | over those runs, crashes included, the dictionary in memory and on disk is none, or exactly what the first successful attempt with at least 1000 stored blocks yielded |
| Payloads.PutFullMirrors | src/store.rs:995-1032 | a put of a block that fits keeps every payload decodable to its block, across the training it may cause |
| Payloads.PayloadStore.PutBlock | src/store.rs:995-1032 | index, payload row and training attempt together equal the combined step, with its answer |
| Payloads.PayloadStore.ExtendChain | src/canonical/index.rs:231-253 | the extension over real payloads fails exactly when training was due and failed, and then leaves the tip behind; rows and dictionary are those of one put, or unchanged when nothing was stored |
| Payloads.PayloadStore.GetBlock | src/store.rs:577-593 | the decoded payload is the block the store model has under the hash |

## Left out

- Block, header, record and hash-to-height caches: they agree with disk and may forget, so the model reads the database directly.
- `BlockRecord.in_canonical_chain` and `update_status`: flags re-derived from the block status, with no run-wide meaning.
- RocksDB internals, compaction-time pruning and column-family options: a family is a finite map with atomic batches and ordered iteration.
- File and RocksDB I/O errors and mapping failures: only crashes are modelled; hence the error acknowledgements of a failed flush, too.
- Heights of 2^59 - 1 and above at store level: the dense file refuses them and a row there makes the next open overflow.
- Serialization failures inside `put_block` and the flush: encoding is total in the model.
- The range checks inside the canonical stream's loop: the bounds of its iterator already imply them.
- Attestation reads and writes beyond what pruning removes, the row count of `block_count`: single map accesses.
- Thread interleavings inside one call, async wrappers, statistics, `flush`, `compact`, wire helpers, epoch hash listings.
- The 40-byte tip and 8-byte floor encodings: metadata rows hold decoded values.
- Scan.StreamPairs: the hash of a row is 32 bytes by its type, so the error for other lengths does not arise.
- Choice of training samples: the trained dictionary, or a failure, is an input of the step.
