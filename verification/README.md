# Archon, modelled and proved

A Dafny 4.11 model of the core of an embedded database engine: its write-ahead log, buffer pool and
crash recovery, its B-Link tree, its multi-version store and sessions, its integrity constraints, its
vector index, parts of its query evaluation, and its scheduler. `dafny verify dfyconfig.toml` checks
everything.

Where the source updates things in place the model has classes and loops, each tied by its
postcondition to a function of the old state; the theorems are about those functions and hold for
every input, every run or every interleaving.

| component | files |
|---|---|
| B-Link tree | `BLinkModel`, `BLinkInvariant`, `BLinkContents`, `BLinkSteps`, `BLinkTree` |
| checksum and byte codecs | `Checksum`, `ChecksumCheck`, `LittleEndian`, `WalCodec`, `Framing`, `Wal`, `PageCodec` |
| buffer pool | `PoolModel`, `PoolProofs`, `PoolHistory`, `BufferPool` |
| storage engine and crashes | `CrashModel`, `CrashProofs`, `CommitProgress`, `ReadPins`, `StorageEngine` |
| multi-version store | `MvccModel`, `MvccProofs`, `Mvcc` |
| tables and sessions | `RelationalModel`, `Database`, `DmlEffects`, `StatementOutcomes`, `SessionProofs`, `CommitProofs`, `SessionRuns`, `FirstTouch`, `Erasure`, `GlobalErasure`, `TransactionViews`, `StatementFrame`, `CommitTime`, `SessionScenarios` |
| constraints | `Integrity`, `BatchProofs`, `ConstraintProofs`, `UpdateIntegrity`, `MergeProofs`, `BufferProofs`, `CommitIntegrity` |
| vector index | `Permutations`, `Ranking`, `VectorIndex`, `VectorSearch`, `IvfFlat`, `VectorTable` |
| queries | `RecursiveCte`, `Joins`, `JoinOrder`, `Aggregates`, `Calendar` |
| rows | `Values`, `RowCodec`, `AlterTable` |
| scheduler | `Scheduler` |

## How the components are modelled

- **Crashes.** Every device write is its own step, so a crash can fall between any two. At a crash each
  block written since the last sync may hold anything. A failed persist leaves the log file as it was or
  cut inside what the commit would have added, or, over a longer old log, overwritten up to any byte
  where what can be read of the rest is harmless. Truncating the log after recovery is not synced by the
  code, so a crash before the next persist may find the old log again; the theorem covers that. The
  reference is a store of batches that take effect all at once.
- **Buffer pool.** The value model works on what each block decodes to; `BufferPool` runs it on raw
  blocks through the page codec. An evicted frame keeps its block id while free and can be found again;
  the invariant covers such frames.
- **B-Link tree.** A ghost list of levels holds the node ids and separators of each level; parents list
  the level below exactly. `Keeps` says that a node stays at or to the left of where it was, which is
  why readers with old node ids still arrive.
- **Sessions.** Statements run in a context: a session's own inside its transaction, else the global
  one. A tree is the map its B-Link tree stands for, rows are decoded, a buffered deletion is `None`.
- **Constraints** name columns by slot; a CHECK is any function of the row, free to fail. PRIMARY KEY is
  NOT NULL and UNIQUE.
- **Outcomes** of INSERT, UPDATE and DELETE are stated in autocommit;
  `TransactionViews.StatementIsAutocommit` carries them over to what a transaction sees.
- **Aggregates.** What number a float stands for, and which float a number is rounded to, are parameters.
- **Vector index.** Vectors are real, and clustering and normalisation are arbitrary: the theorems hold
  for any centroids.

## Where the code does not do what one might expect

- Two transactions overlap on a table from the first time each touches it, not from BEGIN
  (`SessionScenarios.BothCommit`, `FirstTouch.SnapshotIsFirstTouch`); `FirstTouch.CommitLosesExactly` is the
  exact condition for a COMMIT to fail.
- UPDATE of a referenced key can leave references dangling (`ConstraintProofs.UpdateCanOrphan`);
  `ConstraintProofs.UpdateKeepsExactly` is the exact condition for one row,
  `UpdateIntegrity.UpdateStatementKeepsExactly` for a whole UPDATE.
- An INSERT that leaves out the implicit id is checked with NULL in its place, and the id is filled in
  afterwards. A constraint that looks at the id can break (`ConstraintProofs.FilledIdCanCollide`,
  `ConstraintProofs.FilledIdCanDangle`); `ConstraintProofs.InsertKeepsExactly` is the exact condition. Where
  the id is NOT NULL, as under PRIMARY KEY (id), such an INSERT is refused and nothing can break.
- A rolled-back INSERT keeps the row ids it took, so later INSERTs show that it ran
  (`Erasure.RolledBackInsertShows`); `Erasure.RollbackErasesExactly` and
  `GlobalErasure.GlobalRollbackErasesExactly` say that nothing else does.
- A session outside a transaction shares the global context: while a global transaction is open its
  statements join it (`SessionRuns.SelectShows` with `SessionRuns.ContextOf`).
- A refused global COMMIT leaves every tree alone, but tables validated before the refusal have accepted
  its transaction in their version stores and refuse others because of it
  (`SessionScenarios.RefusedCommitRefusesOthers`); it leaves no trace exactly when the first table refuses
  (`CommitProofs.RefusedCommitTrace`).
- A refused session COMMIT has published the tables before the refusal
  (`SessionScenarios.SessionCommitStopsHalfway`); `CommitProofs.SessionCommitAtomicExactly` says when that
  shows.
- COMMIT does not check constraints again: two sessions can each add the same value to a UNIQUE column and
  both commit (`SessionScenarios.CommitsBreakUnique`), which no serial order of them allows
  (`SessionScenarios.SerialAddIsRefused`). `CommitIntegrity.CommitKeepsExactly` is the exact condition, on
  the rows written; NOT NULL and CHECK cannot break (`CommitIntegrity.RunSound`). A transaction whose
  tables the others leave alone is serial (`CommitTime.ActsAtCommit`, `TransactionViews.TransactionKeeps`).
- Persisting overwrites the log file from its start before it cuts it to length. If a longer old file was
  still there, because its truncation was lost, and power goes in between, an old commit record can make
  part of the open batch durable (`CrashProofs.OldCommitTakesNewPage`); `CrashProofs.TornOverOldExactly` is
  the exact condition.
- `read_page` pins the page it returns and the engine never unpins it, so pages that were only read fill the
  pool (`ReadPins.ReadsExhaust`); `ReadPins.RoomRunsOutExactly` says exactly when there is no room left.
- `recover` does not refresh cached pages (`StorageEngine.RedoneCanBeStale`);
  `StorageEngine.RedoneUnderCacheExactly` says when that is sound.
- EXTRACT of a negative timestamp within a day returns the following day's date (`Calendar.ExtractIsLate`),
  and beyond 106,751,991 days the microsecond scaling saturates (`Calendar.ExtractFromDays`). SECOND counts
  from the epoch, not from the minute, and before the epoch hours and minutes are not positive
  (`Calendar.ClockAddsUp`, `Calendar.ClockBeforeEpoch`).
- A row of 65,536 columns or more does not decode to itself (`RowCodec.RowRoundTrip`), and ADD COLUMN on a
  table of 65,535 succeeds and makes every row of it one (`AlterTable.AddThenDropExactly`).
- The database's documentation (`crates/tpt-archon-relational/src/database/mod.rs:88-91`) calls COMMIT
  across tables not atomic. That holds for a session's COMMIT; the global COMMIT validates all tables first
  and is atomic on the trees.

## Model

| member | source | states |
|---|---|---|
| `BLinkTree.BTree.Insert` | crates/tpt-archon-core/src/btree.rs:259-273 | the tree now stands for the old map with the binding put in; one more insert is counted exactly when the key was new; every node keeps its place, so no reader is stranded |
| `BLinkTree.BTree.InsertRec` | crates/tpt-archon-core/src/btree.rs:276-317 | inserting below any node gives the new map, reports a split exactly as the parent must record it, and grows no level anywhere else |
| `BLinkTree.BTree.InsertIntoLeaf` | crates/tpt-archon-core/src/btree.rs:278-295 | replaces the value of a present key in place, or adds the key in order and splits an overfull leaf |
| `BLinkTree.BTree.AdoptChildOf` | crates/tpt-archon-core/src/btree.rs:302-312 | recording a child split restores the parent link between two whole levels, splitting the parent if it overflows |
| `BLinkTree.BTree.SplitLeaf` | crates/tpt-archon-core/src/btree.rs:319-350 | the level reads as before with one node cut in two: high keys and right-links stay one chain, the halves have 32 and 33 keys, and the bindings are unchanged |
| `BLinkTree.BTree.SplitInternal` | crates/tpt-archon-core/src/btree.rs:352-383 | the same for an internal node, whose middle key moves up: children and separators of the level below are still listed once, in order |
| `BLinkTree.BTree.Delete` | crates/tpt-archon-core/src/btree.rs:214-256 | returns the old binding and removes exactly it, leaving the shape of the tree alone |
| `BLinkTree.BTree.Get` | crates/tpt-archon-core/src/btree.rs:105-151 | equals lookup in the map |
| `BLinkTree.BTree.GetFrom` | crates/tpt-archon-core/src/btree.rs:105-151 | the same loop started at any node at or to the left of the key on any level terminates with the map lookup, also between the split of a node and the update of its parent |
| `BLinkTree.BTree.Contains` | crates/tpt-archon-core/src/btree.rs:154-156 | true exactly for the keys of the map |
| `BLinkTree.BTree.LeftmostLeafFor` | crates/tpt-archon-core/src/btree.rs:192-206 | reaches the leaf that covers the key |
| `BLinkTree.BTree.Range` | crates/tpt-archon-core/src/btree.rs:162-190 | exactly the bindings with lo <= key < hi, in increasing key order |
| `BLinkTree.BTree.Len` | crates/tpt-archon-core/src/btree.rs:386-401 | the size of the map |
| `BLinkTree.BTree.IsEmpty` | crates/tpt-archon-core/src/btree.rs:404-406 | true exactly for the empty map |
| `BLinkTree.BTree.LeftmostLeaf` | crates/tpt-archon-core/src/btree.rs:408-416 | reaches the first leaf of the chain |
| `BLinkTree.BTree.HeightIsBounded` | crates/tpt-archon-core/src/btree.rs:259-383 | with h internal levels, 2 * 33^(h-1) <= 1 + N/32 for N inserts of new keys, whatever was deleted |
| `BLinkContents.HeightBound` | crates/tpt-archon-core/src/btree.rs:319-383 | the counting behind it: every leaf but the first was paid for by 32 inserts |
| `BLinkContents.LeafCount` | crates/tpt-archon-core/src/btree.rs:352-383 | a tree with h internal levels has at least 2 * 33^(h-1) leaves, however many keys were deleted |
| `BLinkModel.Descend` | crates/tpt-archon-core/src/btree.rs:124-128 | the child chosen at the node that covers a key covers the key one level down |
| `BLinkInvariant.SplitChain` | crates/tpt-archon-core/src/btree.rs:319-350 | replacing a node by its two halves keeps the level a correct chain of high keys and right-links |
| `BLinkInvariant.SplitInternalLink` | crates/tpt-archon-core/src/btree.rs:352-383 | cutting an internal node keeps children and separators of the level below complete and in order |
| `BLinkInvariant.AdoptChild` | crates/tpt-archon-core/src/btree.rs:302-308 | inserting separator and child at the lower bound of the separator keeps them complete and in order |
| `BLinkContents.StoreSplit` | crates/tpt-archon-core/src/btree.rs:319-350 | cutting a leaf at its middle key moves no binding to a leaf that does not cover it |
| `BLinkTree.Run` | crates/tpt-archon-core/src/btree.rs:214-273 | any run of inserts and deletes does to the tree what it does to a map, and keeps all leaves at one depth and no node over 64 keys |
| `BLinkTree.StaleLookup` | crates/tpt-archon-core/src/btree.rs:3-9 | a reader holding any node on its way to a key before a run of changes still finds the right answer after it |
| `BLinkTree.FormerRootLookup` | crates/tpt-archon-core/src/btree.rs:3-9 | in particular starting from any former root |
| `BLinkTree.InterleavedGet` | crates/tpt-archon-core/src/btree.rs:105-151 | a lookup whose single hops, descents and right-link moves alternate with arbitrary batches of whole inserts and deletes returns what the tree holds when it arrives |
| `BLinkTree.LookupDuringLeafSplit` | crates/tpt-archon-core/src/btree.rs:319-350 | a reader holding any node from before a leaf split finds the right answer while the parent does not list the new leaf yet |
| `BLinkTree.LookupDuringInnerSplit` | crates/tpt-archon-core/src/btree.rs:352-383 | the same for the split of an internal node on any level |
| `Checksum.ComputeCrc32` | crates/tpt-archon-core/src/checksum.rs:18-28 | the nested loops compute the reflected CRC of the bytes (IEEE 802.3, section 3.2.9), including the wrapping negation mask |
| `Checksum.ByteStepInjective` | crates/tpt-archon-core/src/checksum.rs:20-26 | for a fixed byte the register step is injective, and for a fixed register so is the byte |
| `Checksum.OneByteChangesCrc` | crates/tpt-archon-core/src/checksum.rs:18-28 | changing any one byte of any data changes its CRC |
| `ChecksumCheck.CheckValue` | crates/tpt-archon-core/src/checksum.rs:18-38 | the CRC of the nine digits 123456789 is 0xCBF43926, the check value of CRC-32 |
| `LittleEndian.RoundTrip` | crates/tpt-archon-core/src/zerocopy.rs:188-203 | reading what was written gives the number back, for every number that fits the width |
| `LittleEndian.FromLEInjective` | crates/tpt-archon-core/src/zerocopy.rs:258-275 | different bytes read as different numbers |
| `LittleEndian.LEByte` | crates/tpt-archon-core/src/zerocopy.rs:188-203 | byte i of an encoded number is the number divided by 256^i, modulo 256 |
| `LittleEndian.Cursor.PutBytes` | crates/tpt-archon-core/src/zerocopy.rs:168-209 | writes at the position and advances, or changes nothing and reports the space when it does not fit |
| `LittleEndian.Cursor.PutU8` | crates/tpt-archon-core/src/zerocopy.rs:182-185 | appends one byte or changes nothing |
| `LittleEndian.Cursor.PutU32` | crates/tpt-archon-core/src/zerocopy.rs:194-197 | appends four bytes or changes nothing |
| `LittleEndian.Cursor.PutU64` | crates/tpt-archon-core/src/zerocopy.rs:200-203 | appends eight bytes or changes nothing |
| `LittleEndian.Reader.Take` | crates/tpt-archon-core/src/zerocopy.rs:240-250 | the next bytes, or an error that leaves the position alone |
| `LittleEndian.Reader.ReadUint` | crates/tpt-archon-core/src/zerocopy.rs:253-275 | the little-endian number of the next bytes |
| `WalCodec.Encode` | crates/tpt-archon-core/src/wal.rs:103-121 | fills exactly the record's bytes of the buffer with its framing, or reports that it does not fit |
| `WalCodec.Decode` | crates/tpt-archon-core/src/wal.rs:125-164 | every check in its order: what is returned is the decoding function of the bytes |
| `WalCodec.DecodeEncoded` | crates/tpt-archon-core/src/wal.rs:96-165 | decoding a record that fits its fields from any bytes that start with its encoding returns it and its length |
| `WalCodec.TornRecord` | crates/tpt-archon-core/src/wal.rs:125-164 | every proper prefix of a record is refused as malformed |
| `WalCodec.DamagedRecord` | crates/tpt-archon-core/src/wal.rs:125-164 | a record with any one byte changed does not decode, whatever follows it, and the place of the byte says with which error: malformed in a length, unknown kind in the kind, bad checksum elsewhere |
| `WalCodec.DecodedExactly` | crates/tpt-archon-core/src/wal.rs:96-165 | bytes decode to a record and a length if and only if the record fits its fields and they start with its encoding, of that length |
| `WalCodec.RecordLayout` | crates/tpt-archon-core/src/wal.rs:103-121 | the bytes of a record at their offsets: length 0, number 4, kind 12 (1 page write, 2 commit, 3 checkpoint), block 13, payload length 21, payload 25, then the CRC of all but the length |
| `WalCodec.DecodedLocal` | crates/tpt-archon-core/src/wal.rs:125-164 | a record is read from its own bytes alone |
| `Wal.TornLog` | crates/tpt-archon-core/src/wal.rs:229-267 | a log cut at any byte is read back as exactly the records wholly before the cut, with the next number one past the last |
| `Wal.DamagedLog` | crates/tpt-archon-core/src/wal.rs:229-267 | a log with any byte changed is read back as exactly the records wholly before that byte |
| `Wal.IntactLog` | crates/tpt-archon-core/src/wal.rs:229-247 | an undamaged log is read back whole |
| `Wal.WhollyBeforeMeaning` | crates/tpt-archon-core/src/wal.rs:229-247 | what wholly before means: the records whose bytes end at or before the position |
| `Wal.ReloadedLog` | crates/tpt-archon-core/src/wal.rs:251-267 | a log reloaded from damaged bytes replays the same records again |
| `Wal.Log.Append` | crates/tpt-archon-core/src/wal.rs:212-225 | adds one record with the next number to the records and its bytes to the bytes |
| `Wal.Log.Truncate` | crates/tpt-archon-core/src/wal.rs:197-200 | withdraws every record from the given one on |
| `Wal.Log.Replay` | crates/tpt-archon-core/src/wal.rs:233-247 | hands over the intact records in order |
| `Wal.Reload` | crates/tpt-archon-core/src/wal.rs:251-267 | keeps the intact bytes and numbers on from the last intact record |
| `Framing.ReadFrames` | crates/tpt-archon-core/src/wal.rs:233-267 | the reading loop shared by replay and reload, for any decoder |
| `PageCodec.DecodeEncodedPage` | crates/tpt-archon-core/src/page.rs:54-92 | a page is read back from its block |
| `PageCodec.BlockLayout` | crates/tpt-archon-core/src/page.rs:54-64 | a block byte by byte: the page, then the four bytes of its CRC, lowest first |
| `PageCodec.DamagedBlock` | crates/tpt-archon-core/src/page.rs:66-92 | what a block with one byte changed decodes to: an error, except where the damage leaves an all-zero block |
| `PageCodec.UnnoticedExactly` | crates/tpt-archon-core/src/page.rs:66-92 | one changed byte goes unnoticed if and only if it clears the only non-zero byte of the whole block, page and checksum together |
| `PageCodec.MisreadExactly` | crates/tpt-archon-core/src/page.rs:66-92 | one changed byte makes the block read as another page if and only if it clears the only non-zero byte of a page whose checksum is zero; damage to the checksum never does |
| `PoolProofs.EvictOK` | crates/tpt-archon-core/src/page.rs:225-248 | eviction shows no reader anything new, never takes a pinned frame, and without stealing never writes the device |
| `PoolProofs.AcquireOK` | crates/tpt-archon-core/src/page.rs:322-345 | finding room keeps the invariant and the view and yields a free frame |
| `PoolProofs.PinFrameOK` | crates/tpt-archon-core/src/page.rs:255-313 | the frame pinned for a block shows the logical page of that block |
| `PoolProofs.FetchOK` | crates/tpt-archon-core/src/page.rs:255-276 | a fetch that succeeds returns the logical page and changes no block's logical page |
| `PoolProofs.FetchAndSetOK` | crates/tpt-archon-core/src/page.rs:280-306 | the holder of fetch_mut changes the logical page of its block and of no other |
| `PoolProofs.UnpinOK` | crates/tpt-archon-core/src/page.rs:349-361 | unpinning changes no logical page and not the device |
| `PoolProofs.ReserveOK` | crates/tpt-archon-core/src/page.rs:191-196 | reserving changes no logical page |
| `PoolProofs.FlushAllOK` | crates/tpt-archon-core/src/page.rs:373-392 | flushing changes no logical page, wherever it stops |
| `PoolProofs.FlushSucceedsExactly` | crates/tpt-archon-core/src/page.rs:373-392 | a flush succeeds if and only if every frame that is dirty, or pinned and stored to, names a block of the device; then the device holds every logical page, dirty frames are clean, pins and pages are as before, and nothing is left to flush |
| `PoolProofs.RunIsTransparent` | crates/tpt-archon-core/src/page.rs:191-392 | over any run, stealing or not, the pool shows what a store without a cache would hold, and the invariant (one frame a block, the queue holds exactly the frames in use) stays |
| `PoolProofs.ReadsArePlain` | crates/tpt-archon-core/src/page.rs:255-276 | a read in any state of any run returns the plain store's page, if it returns one |
| `PoolHistory.PinsAreCounted` | crates/tpt-archon-core/src/page.rs:255-361 | in every run a block is pinned as often as it was fetched, less the unpins that found it pinned |
| `PoolHistory.MarksAreExact` | crates/tpt-archon-core/src/page.rs:280-392 | in every run without stealing whose flushes succeed, a block is marked for writing exactly when it was stored to since the last flush |
| `PoolHistory.DirtyExactly` | crates/tpt-archon-core/src/page.rs:349-361 | and its frame is dirty exactly when it is marked and not pinned |
| `PoolHistory.QueueIsByUse` | crates/tpt-archon-core/src/page.rs:215-220 | in every run the queue lists the frames in use by when they were last fetched |
| `PoolHistory.VictimIsOldest` | crates/tpt-archon-core/src/page.rs:225-248 | so the frame evicted was fetched longer ago than any other that may be evicted |
| `PoolHistory.EvictsOnlyWhenFull` | crates/tpt-archon-core/src/page.rs:322-345 | nothing is evicted while a frame is free or there is capacity, and no frame is added while one is free |
| `BufferPool.Pool.Evict` | crates/tpt-archon-core/src/page.rs:225-248 | does on raw blocks what the model's eviction does on images |
| `BufferPool.Pool.Acquire` | crates/tpt-archon-core/src/page.rs:322-345 | the same for finding a frame |
| `BufferPool.Pool.Reserve` | crates/tpt-archon-core/src/page.rs:191-196 | the same for reserving |
| `BufferPool.Pool.PinFrame` | crates/tpt-archon-core/src/page.rs:255-313 | the same for finding or loading a frame and pinning it |
| `BufferPool.Pool.Fetch` | crates/tpt-archon-core/src/page.rs:255-276 | the same for fetch, keeping the invariant |
| `BufferPool.Pool.FetchAndSet` | crates/tpt-archon-core/src/page.rs:280-306 | the same for fetch_mut and what its holder stores |
| `BufferPool.Pool.Unpin` | crates/tpt-archon-core/src/page.rs:349-361 | the same for unpin |
| `BufferPool.Pool.FlushAll` | crates/tpt-archon-core/src/page.rs:373-392 | the same for the flush loop, wherever it stops |
| `BufferPool.Pool.WriteBlock` | crates/tpt-archon-core/src/block/memory.rs:46-81 | writes one block, or refuses one out of range and changes nothing |
| `CrashProofs.ReopenedShowsCommitted` | crates/tpt-archon-core/src/storage.rs:54-192 | after any run, crashed any number of times and at any step, a reopened engine shows in every block its last page from a persisted batch, else its original content |
| `CrashProofs.ReadsAreCurrent` | crates/tpt-archon-core/src/storage.rs:54-94 | between crashes a read that succeeds returns the last write to the block, of the open batch or a persisted one |
| `CrashProofs.StepImplements` | crates/tpt-archon-core/src/storage.rs:54-192 | every single step, crashes and failed persists included, is a step of a store of atomic batches |
| `CrashProofs.RunImplements` | crates/tpt-archon-core/src/storage.rs:133-192 | so every state of every run stands for a state of that store |
| `CrashProofs.OnlyCommitsWrite` | crates/tpt-archon-core/src/storage.rs:22-29 | only the flush of a commit and recovery write the device |
| `CrashProofs.WritePageOK` | crates/tpt-archon-core/src/storage.rs:54-86 | a write that succeeds shows and logs its page; one that fails shows and logs nothing; neither writes the device |
| `CrashProofs.WritePageSucceedsExactly` | crates/tpt-archon-core/src/storage.rs:54-86 | a write succeeds if and only if its page has the right size, its block exists, and it is cached or can be read with room made without evicting an uncommitted page |
| `CrashProofs.ReadSucceedsExactly` | crates/tpt-archon-core/src/storage.rs:91-94 | a read succeeds if and only if its block is cached, or exists, decodes, and room can be made |
| `CommitProgress.CommitSucceeds` | crates/tpt-archon-core/src/storage.rs:133-144 | in every state of every run in which the engine is up, the flush of a commit succeeds, and then the device holds every page as last written and nothing is left to flush |
| `ReadPins.ReadsStayPinned` | crates/tpt-archon-core/src/storage.rs:91-94 | in every run, with the engine up, a block is pinned once for every time it was read since the database was opened |
| `ReadPins.RoomRunsOutExactly` | crates/tpt-archon-core/src/page.rs:322-345 | in every run a page not cached cannot be brought in if and only if the pool is at capacity and each frame holds an uncommitted write or a page read since the database was opened |
| `ReadPins.ReadsExhaust` | crates/tpt-archon-core/src/storage.rs:91-94 | with capacity one and nothing written, reading block 0 makes every later read of block 1 fail |
| `CrashProofs.AcquireSucceedsExactly` | crates/tpt-archon-core/src/page.rs:322-345 | without stealing, room can be made exactly when there is capacity or a frame is free or clean; the error says whether an uncommitted page is in the way |
| `CrashProofs.CutMeaning` | crates/tpt-archon-core/src/storage.rs:133-144 | a log file cut anywhere inside what a commit would have added redoes what it did before |
| `CrashProofs.CommitMeaning` | crates/tpt-archon-core/src/storage.rs:133-144 | once persisted, the log redoes all that was committed and the batch |
| `CrashProofs.CommitBytes` | crates/tpt-archon-core/src/storage.rs:102-105 | a commit adds 29 bytes to the log: its number, kind 2, block 0, no payload |
| `CrashProofs.TornOverOldExactly` | crates/tpt-archon-core/src/storage.rs:531-543 | a log file overwritten up to any byte over an older, longer one redoes what it did before if and only if what can be read of the rest brings no commit record into effect; otherwise exactly the new records before it become durable with it |
| `CrashProofs.OldCommitTakesNewPage` | crates/tpt-archon-core/src/storage.rs:531-543 | a concrete such file, in which an old commit record makes the first of two pages of the open batch durable |
| `CrashProofs.ApplyAt` | crates/tpt-archon-core/src/storage.rs:164-192 | redoing writes gives each block its last write, else leaves it as it was |
| `StorageEngine.StorageEngine.WritePage` | crates/tpt-archon-core/src/storage.rs:54-86 | does to pool and log what the crash machine's write step does |
| `StorageEngine.StorageEngine.ReadPage` | crates/tpt-archon-core/src/storage.rs:91-94 | returns the logical page if it returns one |
| `StorageEngine.StorageEngine.CommitDurable` | crates/tpt-archon-core/src/storage.rs:133-144 | hands over the log with its commit record; a failed persist restores the engine exactly; else it succeeds if and only if the flush does, and then the device holds every logical page and nothing is left to flush |
| `StorageEngine.StorageEngine.Recover` | crates/tpt-archon-core/src/storage.rs:164-192 | the device gets exactly the committed writes of the intact log applied in order, as many are counted as the device accepted, and a pool with pages cached stays sound if and only if its unmodified frames already show what was redone |
| `StorageEngine.StorageEngine.ApplyCommitted` | crates/tpt-archon-core/src/storage.rs:172-189 | buffers page writes and applies the buffer at each commit; writes with no commit after them are dropped |
| `StorageEngine.RedoneUnderCacheExactly` | crates/tpt-archon-core/src/storage.rs:180-187 | redoing writes beneath a cache keeps it transparent if and only if the unmodified frames agree with the last write to their block |
| `StorageEngine.RedoneCanBeStale` | crates/tpt-archon-core/src/storage.rs:180-187 | a concrete pool that read a block before a write to it was redone and still returns the old page |
| `StorageEngine.StorageEngine.Reopen` | crates/tpt-archon-core/src/storage.rs:494-507 | recover, flush, reset: an empty pool over the redone device, and an empty log |
| `StorageEngine.StorageEngine.ResetWal` | crates/tpt-archon-core/src/storage.rs:116-118 | an empty log |
| `StorageEngine.FlushIsSteps` | crates/tpt-archon-core/src/page.rs:373-392 | the flush loop of a commit is a run of the machine's single flush steps |
| `MvccProofs.Serializable` | crates/tpt-archon-relational/src/mvcc.rs:88-151 | for every interleaving, running the committed transactions one at a time in commit order over a plain map gives every read the value it returned and ends in the newest values |
| `MvccProofs.SnapshotReads` | crates/tpt-archon-relational/src/mvcc.rs:97-114 | an open transaction reads the serial state of exactly the transactions that had committed when it began, under its own writes |
| `MvccProofs.RefusedExactly` | crates/tpt-archon-relational/src/mvcc.rs:9-16 | a commit is refused if and only if a transaction that committed since this one began wrote a key this one read or wrote |
| `MvccProofs.FirstCommitterWins` | crates/tpt-archon-relational/src/mvcc.rs:128-151 | of two committed transactions where the later read or wrote what the earlier wrote, the later began after the earlier had committed |
| `Mvcc.MvccStore.NewTransaction` | crates/tpt-archon-relational/src/mvcc.rs:88-95 | a transaction on the current snapshot |
| `Mvcc.MvccStore.VisibleValue` | crates/tpt-archon-relational/src/mvcc.rs:97-104 | the newest version no younger than the timestamp |
| `Mvcc.MvccStore.ReadIn` | crates/tpt-archon-relational/src/mvcc.rs:108-114 | notes the key and returns the own write, else the snapshot's value |
| `Mvcc.MvccStore.WriteIn` | crates/tpt-archon-relational/src/mvcc.rs:117-119 | buffers the write |
| `Mvcc.Validate` | crates/tpt-archon-relational/src/mvcc.rs:131-139 | finds a changed key exactly when there is one |
| `Mvcc.MvccStore.Commit` | crates/tpt-archon-relational/src/mvcc.rs:130-151 | refuses exactly the stale transactions, and then changes nothing; else installs all writes at one new timestamp |
| `SessionRuns.Isolation` | crates/tpt-archon-relational/src/database/mod.rs:264-324 | in every run, whatever other contexts execute inside their transactions, begin or roll back, no scan in a context changes |
| `Erasure.RollbackErasesExactly` | crates/tpt-archon-relational/src/database/mod.rs:141-221 | take any run, cut it anywhere, let a session begin, run anything but COMMIT and roll back while others run, commit and autocommit, and let anything follow: with the transaction deleted from the run, all tables, stores, other sessions and other outcomes are the same if and only if it ran no INSERT that stored a row |
| `Erasure.RolledBackInsertShows` | crates/tpt-archon-relational/src/database/dml.rs:106-119 | BEGIN; INSERT; ROLLBACK; then an INSERT elsewhere stores its row under id 1, which without the transaction it stores under id 0 |
| `GlobalErasure.GlobalRollbackErasesExactly` | crates/tpt-archon-relational/src/database/txn.rs:31-109 | the same for the global transaction and the sessions that joined it: with their steps deleted, everything else is the same if and only if none of them stored a row |
| `Erasure.StepAlike` | crates/tpt-archon-relational/src/database/mod.rs:264-324 | a step in one context has the same outcome and effect whatever another session holds in its transaction |
| `Erasure.StepCounters` | crates/tpt-archon-relational/src/database/dml.rs:106-119 | a row id counter moves by exactly the rows an INSERT stored, in a transaction or not, and by nothing else |
| `SessionRuns.UncommittedLeavesTrees` | crates/tpt-archon-relational/src/database/mod.rs:141-221 | no step of a session in a transaction other than COMMIT changes a tree, even between others' commits |
| `SessionRuns.SelectShows` | crates/tpt-archon-relational/src/database/select.rs:738-763 | in every run a SELECT returns the rows its context sees, the committed ones under its own writes, each once and in the order of their ids, as many as there are |
| `SessionRuns.AtMostOneWriter` | crates/tpt-archon-relational/src/database/mod.rs:155-201 | of two accepted transactions that wrote one row, the later first touched the table after the earlier was accepted |
| `SessionRuns.CommitFailsExactly` | crates/tpt-archon-relational/src/database/txn.rs:66-79 | in every run a COMMIT fails if and only if on some table a rival writer of one of its rows was accepted after it first touched that table |
| `FirstTouch.SnapshotIsFirstTouch` | crates/tpt-archon-relational/src/database/mod.rs:358-366 | in every run a transaction's snapshot of a table is what the table had accepted at its own first statement on that table |
| `FirstTouch.CommitLosesExactly` | crates/tpt-archon-relational/src/database/txn.rs:66-79 | in every run a COMMIT fails if and only if on some table a transaction that wrote one of its rows was accepted after its own first statement there |
| `SessionRuns.ControlExactly` | crates/tpt-archon-relational/src/database/mod.rs:141-221 | BEGIN succeeds exactly with no transaction open in its context, COMMIT and ROLLBACK fail as such exactly then; what each leaves open and buffered, and that a failed one changes nothing |
| `SessionRuns.ControlIsOwn` | crates/tpt-archon-relational/src/database/mod.rs:141-221 | BEGIN, COMMIT and ROLLBACK leave the transactions of every other context alone |
| `SessionScenarios.BothCommit` | crates/tpt-archon-relational/src/database/mod.rs:358-366 | a run from a fresh database that starts with two BEGINs, in which both sessions then write one row and both commit |
| `CommitProofs.GlobalCommitIsAtomic` | crates/tpt-archon-relational/src/database/txn.rs:42-96 | the global COMMIT gives every tree all its writes, or, exactly when some table refuses, changes no tree |
| `CommitProofs.CommitEachKeeps` | crates/tpt-archon-relational/src/database/mod.rs:155-201 | a session COMMIT keeps the record of what each table accepted, wherever it stops |
| `CommitProofs.RefusedExactly` | crates/tpt-archon-relational/src/database/txn.rs:66-79 | a table refuses a transaction exactly when a rival was accepted since it first touched the table |
| `CommitProofs.CommitEachApplies` | crates/tpt-archon-relational/src/database/mod.rs:155-201 | a session COMMIT, refused or not, gives every tree exactly the writes of the transactions accepted before it stopped |
| `CommitProofs.AcceptedAll` | crates/tpt-archon-relational/src/database/mod.rs:155-201 | when no table refuses, that is every transaction of the session |
| `CommitProofs.SessionCommitAtomicExactly` | crates/tpt-archon-relational/src/database/mod.rs:155-201 | a refused session COMMIT leaves all trees alone if and only if the writes accepted before the refusal only restate what the trees hold |
| `CommitProofs.RefusedCommitTrace` | crates/tpt-archon-relational/src/database/txn.rs:58-79 | a refused global COMMIT leaves no trace at all if and only if it is refused on the first table it validates |
| `SessionScenarios.SessionCommitStopsHalfway` | crates/tpt-archon-relational/src/database/mod.rs:155-201 | a run in which a session COMMIT is refused on its second table after its write to the first was published |
| `SessionScenarios.RefusedCommitRefusesOthers` | crates/tpt-archon-relational/src/database/txn.rs:42-96 | a run in which a refused global COMMIT, which published nothing, makes a later COMMIT fail that would have succeeded |
| `TransactionViews.StatementIsAutocommit` | crates/tpt-archon-relational/src/database/mod.rs:264-324 | a statement inside a transaction has the outcome, and does to what the transaction sees, what the same statement in autocommit does to those tables, also when it fails partway |
| `TransactionViews.TransactionIsAutocommit` | crates/tpt-archon-relational/src/database/txn.rs:31-96 | in any state of any run, BEGIN and COMMIT around statements change nothing if nobody else runs in between: every outcome is the one in autocommit, COMMIT succeeds, and rows and row id counters are the same |
| `TransactionViews.CommitPublishesView` | crates/tpt-archon-relational/src/database/mod.rs:155-201 | in every run, a COMMIT that succeeds, global or of a session, leaves in the tables exactly what its transaction saw just before |
| `TransactionViews.CommitPublishes` | crates/tpt-archon-relational/src/database/mod.rs:155-201 | refused or not, a COMMIT changes the tables by exactly the writes it gets accepted |
| `CommitIntegrity.CommitKeepsExactly` | crates/tpt-archon-relational/src/database/mod.rs:155-201 | in every run, a COMMIT, global or of a session, refused or not, keeps consistent tables consistent if and only if no row it stores shares a key with a row it leaves alone, every reference of a row it stores is to a row left alone or stored, and no row left alone refers to a key it takes away |
| `CommitIntegrity.RunSound` | crates/tpt-archon-relational/src/database/dml.rs:294-414 | in every run, whoever commits what, every stored row satisfies NOT NULL and CHECK, and the rows each transaction has buffered satisfy them too and share no key |
| `CommitIntegrity.IntegrityAlwaysHolds` | crates/tpt-archon-relational/src/database/mod.rs:264-324 | in every interleaving all constraints hold in every state, as long as each COMMIT meets that condition and no autocommit UPDATE assigns a referenced column |
| `MergeProofs.MergeExactly` | crates/tpt-archon-relational/src/database/txn.rs:80-96 | the condition behind it, for any buffered writes whose rows are acceptable and share no key |
| `BufferProofs.StatementSound` | crates/tpt-archon-relational/src/database/dml.rs:32-227 | no statement, failed partway or not, stores or buffers a row that breaks NOT NULL or CHECK or shares a key with another row of its transaction |
| `CommitTime.ActsAtCommit` | crates/tpt-archon-relational/src/database/mod.rs:141-201 | a transaction whose tables, those of its constraint checks included, the others leave alone commits, with the outcomes and the tables that its statements would have in autocommit at the moment of its COMMIT |
| `StatementFrame.StatementIsFramed` | crates/tpt-archon-relational/src/database/dml.rs:32-460 | a statement depends on and changes only the table it names, those it refers to and those that refer to it |
| `TransactionViews.TransactionKeeps` | crates/tpt-archon-relational/src/database/dml.rs:32-460 | a transaction that runs alone keeps every constraint, under the conditions of ConstraintsAlwaysHold |
| `SessionScenarios.CommitsBreakUnique` | crates/tpt-archon-relational/src/database/mod.rs:155-201 | a run in which two sessions add the same value to a UNIQUE column and both COMMITs succeed |
| `SessionScenarios.SerialAddIsRefused` | crates/tpt-archon-relational/src/database/dml.rs:294-342 | one after the other, in either order, the second INSERT is refused |
| `DmlEffects.InsertDoes` | crates/tpt-archon-relational/src/database/dml.rs:32-138 | INSERT adds one row per value list under the next ids, cell by cell: the value last given for a column, NULL in the columns not named, the id in the implicit one; every other row is as it was |
| `DmlEffects.WithRowsAt` | crates/tpt-archon-relational/src/database/dml.rs:103-135 | each new row is there under its own id, and every other row is as it was |
| `DmlEffects.FilledAt` | crates/tpt-archon-relational/src/database/dml.rs:62-71 | an inserted row has in each named column the last value given for it and NULL in the others |
| `DmlEffects.UpdateDoes` | crates/tpt-archon-relational/src/database/dml.rs:140-192 | UPDATE changes exactly the rows its WHERE selects, cell by cell: each column has the value of the last assignment that names it, the implicit id and the unnamed columns are as before; and it counts them |
| `DmlEffects.AssignedExactly` | crates/tpt-archon-relational/src/database/dml.rs:152-167 | the assignments can be made if and only if each names a column of the row, and then set it cell by cell |
| `DmlEffects.DeleteDoes` | crates/tpt-archon-relational/src/database/dml.rs:194-227 | DELETE removes exactly the rows its WHERE selects, and counts them |
| `DmlEffects.Selects` | crates/tpt-archon-relational/src/database/dml.rs:463-514 | a WHERE selects exactly the live rows that pass it, in id order |
| `DmlEffects.SelectDoes` | crates/tpt-archon-relational/src/database/select.rs:738-763 | a scan returns the rows its context sees, each once and in the order of their ids, as many as there are |
| `StatementOutcomes.WhereFailsExactly` | crates/tpt-archon-relational/src/database/dml.rs:463-514 | a WHERE fails if and only if its table is unknown or its filter fails on a live row; the first such row gives the error |
| `StatementOutcomes.EnforcedInOrder` | crates/tpt-archon-relational/src/database/dml.rs:294-414 | which error a row that may not be stored gives: NOT NULL, then UNIQUE, then the first CHECK, then FOREIGN KEY |
| `StatementOutcomes.FirstCheck` | crates/tpt-archon-relational/src/database/dml.rs:344-366 | the first CHECK that does not pass gives the error, its own or a violation |
| `StatementOutcomes.InsertSucceedsExactly` | crates/tpt-archon-relational/src/database/dml.rs:32-138 | an autocommit INSERT succeeds if and only if its table exists, its columns exist and its value lists fit, each row may be stored, and no two share a key |
| `StatementOutcomes.UpdateSucceedsExactly` | crates/tpt-archon-relational/src/database/dml.rs:140-192 | an autocommit UPDATE changes the selected rows one after the other as far as each may be stored over what those before it left, and succeeds if and only if that is all of them |
| `StatementOutcomes.DeleteSucceedsExactly` | crates/tpt-archon-relational/src/database/dml.rs:194-227 | an autocommit DELETE removes the selected rows one after the other as far as nothing left refers to the next, and succeeds if and only if that is all of them |
| `StatementOutcomes.ReferencedExactly` | crates/tpt-archon-relational/src/database/dml.rs:419-460 | a row counts as referred to if and only if some row of some table has its key, free of NULL, in a foreign key on its table |
| `SessionProofs.QueryConfined` | crates/tpt-archon-relational/src/database/dml.rs:32-227 | no statement, failed or not, reaches a version store, another context's writes or a session's state; inside a transaction not even a tree |
| `Database.Database.ScanTable` | crates/tpt-archon-relational/src/database/select.rs:738-763 | the live rows under the active writes in id order |
| `Database.Database.MatchingRowIds` | crates/tpt-archon-relational/src/database/dml.rs:463-514 | the ids of live rows that pass the filter, or the filter's first error |
| `Database.Database.FindKey` | crates/tpt-archon-relational/src/database/dml.rs:233-263 | finds a key among the live rows exactly when one has it |
| `Database.Database.EnforceConstraints` | crates/tpt-archon-relational/src/database/dml.rs:294-414 | reports NOT NULL, then UNIQUE, then CHECK, then FOREIGN KEY, exactly when the row breaks them |
| `Database.Database.EnforceFkOnDelete` | crates/tpt-archon-relational/src/database/dml.rs:419-460 | true exactly when some live row of some table refers to the row |
| `Database.Database.OpenTxn` | crates/tpt-archon-relational/src/database/mod.rs:358-366 | begins a transaction on the table at its first touch |
| `Database.Database.DoInsert` | crates/tpt-archon-relational/src/database/dml.rs:32-138 | all rows are checked, against the table and one another, before the first is stored |
| `Database.Database.DoUpdate` | crates/tpt-archon-relational/src/database/dml.rs:140-192 | rows are checked and stored one by one; those before an error stay |
| `Database.Database.DoDelete` | crates/tpt-archon-relational/src/database/dml.rs:194-227 | rows are checked and removed one by one |
| `Database.Database.DoCommit` | crates/tpt-archon-relational/src/database/txn.rs:42-96 | validates every table, then writes back every table |
| `Database.Database.CommitSession` | crates/tpt-archon-relational/src/database/mod.rs:155-201 | validates and writes back table after table, stopping at a conflict |
| `Database.Database.RunInSession` | crates/tpt-archon-relational/src/database/mod.rs:264-324 | a session's transactions stand in for the global ones while its statement runs |
| `Database.Database.Run` | crates/tpt-archon-relational/src/database/mod.rs:402-485 | dispatches the statements modelled here |
| `ConstraintProofs.ConstraintsAlwaysHold` | crates/tpt-archon-relational/src/database/dml.rs:32-460 | in every state reached by autocommit INSERT, UPDATE and DELETE, also after a statement that failed partway, NOT NULL, UNIQUE, PRIMARY KEY, CHECK and FOREIGN KEY hold in all tables, for every schema in which id is NOT NULL or no constraint looks at it |
| `ConstraintProofs.StatementKeeps` | crates/tpt-archon-relational/src/database/dml.rs:32-227 | one statement, whether it succeeds or fails partway |
| `ConstraintProofs.UpdateKeepsExactly` | crates/tpt-archon-relational/src/database/dml.rs:140-192 | a row update that passes its checks keeps integrity if and only if every reference to its old key is still satisfied: the row keeps the key, another row has it, or no row asks for it |
| `ConstraintProofs.UpdateCanOrphan` | crates/tpt-archon-relational/src/database/dml.rs:166-188 | a concrete UPDATE of a referenced key that succeeds and leaves a reference dangling |
| `UpdateIntegrity.UpdateStatementKeepsExactly` | crates/tpt-archon-relational/src/database/dml.rs:140-192 | a whole UPDATE, failed partway or not, keeps all constraints if and only if every key that a row it changed used to have, and that some row refers to afterwards, some row still has |
| `ConstraintProofs.DeleteKeeps` | crates/tpt-archon-relational/src/database/dml.rs:419-460 | deleting a row nothing refers to keeps integrity |
| `ConstraintProofs.InsertKeepsExactly` | crates/tpt-archon-relational/src/database/dml.rs:68-138 | an INSERT that passed its checks keeps integrity if and only if it supplied the ids, or every filled-in id fits: its keys are free, its checks pass and its references resolve |
| `ConstraintProofs.InsertKeeps` | crates/tpt-archon-relational/src/database/dml.rs:32-138 | an INSERT keeps integrity in every schema in which id is NOT NULL or no constraint looks at it |
| `ConstraintProofs.FilledIdCanCollide` | crates/tpt-archon-relational/src/database/dml.rs:83-119 | under UNIQUE (id), a concrete INSERT that leaves id out succeeds and stores a duplicate |
| `ConstraintProofs.FilledIdCanDangle` | crates/tpt-archon-relational/src/database/dml.rs:83-119 | under FOREIGN KEY (id), a concrete INSERT that leaves id out succeeds and refers to nothing |
| `BatchProofs.BatchExactly` | crates/tpt-archon-relational/src/database/dml.rs:103-135 | adding rows with pairwise distinct keys at once keeps integrity if and only if each is acceptable, its keys are free, and its references resolve in the table with the batch |
| `ConstraintProofs.EnforcedIsAdmissible` | crates/tpt-archon-relational/src/database/dml.rs:294-414 | a row passes the checks if and only if storing it breaks no constraint of its own table |
| `VectorSearch.SearchMatchesTopK` | crates/tpt-archon-relational/src/executor/vector.rs:10-21 | probing every list, the i-th row found scores exactly what the i-th row of the brute-force scan scores |
| `VectorSearch.SearchIsExact` | crates/tpt-archon-relational/src/vector_index.rs:216-242 | the same for the whole score sequence, over any enumeration of the rows |
| `VectorSearch.SearchIsSound` | crates/tpt-archon-relational/src/vector_index.rs:216-242 | with any number of probes: live rows only, none twice, scored by their own vectors, best first |
| `VectorSearch.ProbedExactly` | crates/tpt-archon-relational/src/vector_index.rs:222-231 | exactly the given number of lists is probed, at least one and at most all, without repetition, and no list left out has a centroid that matches the query better |
| `VectorSearch.SearchIsExactWithin` | crates/tpt-archon-relational/src/vector_index.rs:216-242 | with any number of probes the score sequence is that of the brute-force top k over the rows whose list is probed |
| `VectorSearch.SearchMatchesTopKWithin` | crates/tpt-archon-relational/src/vector_index.rs:216-242 | the same on the ids returned, position by position, as many as k and those rows allow |
| `VectorSearch.ReachableIs` | crates/tpt-archon-relational/src/vector_index.rs:216-242 | those are the rows whose nearest centroid is among the probed ones |
| `VectorSearch.TopKIsBest` | crates/tpt-archon-relational/src/executor/vector.rs:10-21 | the brute-force scan returns the best k positions, best first, a tie going to the earlier one, and no position left out scores more |
| `VectorIndex.DotIs` | crates/tpt-archon-relational/src/vector_index.rs:48-50 | the score is the sum of the products of the coordinates both vectors have |
| `VectorIndex.InsertHolds` | crates/tpt-archon-relational/src/vector_index.rs:198-203 | inserting under an id replaces what the id held, whichever list that was in; each id stays in one list, once |
| `VectorIndex.RemoveHolds` | crates/tpt-archon-relational/src/vector_index.rs:206-210 | removing takes exactly that id out |
| `VectorIndex.BuildHolds` | crates/tpt-archon-relational/src/vector_index.rs:168-179 | a built index holds exactly the given vectors |
| `VectorIndex.InsertStaysPlaced` | crates/tpt-archon-relational/src/vector_index.rs:198-203 | an inserted vector goes to the list of the centroid nearest to it, and the others stay in theirs |
| `VectorIndex.BuildIsPlaced` | crates/tpt-archon-relational/src/vector_index.rs:168-179 | a built index has every vector in the list of its nearest centroid |
| `VectorIndex.NearestIsBest` | crates/tpt-archon-relational/src/vector_index.rs:87-95 | no centroid matches better than the chosen one, and none after it as well |
| `IvfFlat.NlistFor` | crates/tpt-archon-relational/src/vector_index.rs:102-114 | the integer square root, kept between 1 and 256 |
| `IvfFlat.IvfFlatIndex.InsertVector` | crates/tpt-archon-relational/src/vector_index.rs:198-203 | the object's bindings are updated at the id |
| `IvfFlat.IvfFlatIndex.RemoveId` | crates/tpt-archon-relational/src/vector_index.rs:206-210 | the object's bindings lose the id |
| `IvfFlat.IvfFlatIndex.FindNearest` | crates/tpt-archon-relational/src/vector_index.rs:216-242 | the search function on the object: distinct live ids in order of descending score |
| `VectorTable.Table.MaintainForRow` | crates/tpt-archon-relational/src/database/storage.rs:36-47 | every index agrees with the rows once the row is stored |
| `VectorTable.Table.MaintainOnDelete` | crates/tpt-archon-relational/src/database/storage.rs:50-54 | every index agrees with the rows once the row is deleted |
| `VectorTable.Table.MaybeBuild` | crates/tpt-archon-relational/src/database/storage.rs:62-99 | from 1000 row ids on, exactly the vector columns with a live vector get the index they lack, and existing ones are untouched |
| `VectorTable.Run` | crates/tpt-archon-relational/src/database/storage.rs:36-99 | after any run of inserts, updates, deletes and commits every index holds exactly its column's live vectors, each in the list of its nearest centroid |
| `VectorTable.IndexedSearchIsExact` | crates/tpt-archon-relational/src/database/storage.rs:36-99 | so an indexed search, with any number of probes, scores position by position what scanning the rows near the query scores, and finds as many |
| `VectorTable.ExhaustiveSearchIsExact` | crates/tpt-archon-relational/src/database/storage.rs:36-99 | and probing every list, what scanning the whole table scores |
| `Ranking.RankedIs` | crates/tpt-archon-relational/src/executor/vector.rs:19-20 | ranking permutes the entries into descending order |
| `Ranking.RankedIsStable` | crates/tpt-archon-relational/src/executor/vector.rs:19-20 | entries given in the order of their keys keep that order among equal scores |
| `Ranking.SameBestScores` | crates/tpt-archon-relational/src/executor/vector.rs:10-21 | however the same scores were gathered, the best k are the same sequence |
| `RecursiveCte.Run` | crates/tpt-archon-relational/src/database/select.rs:599-652 | the loop computes the evaluation function, in at most 10,000 iterations when it succeeds |
| `RecursiveCte.ResultIsLeastFixpoint` | crates/tpt-archon-relational/src/database/select.rs:588-652 | when UNION returns rows they have no duplicates and are exactly the rows reachable from the anchor |
| `RecursiveCte.ReachableIsLeast` | crates/tpt-archon-relational/src/database/select.rs:588-598 | which is the least set that holds the anchor and is closed under the term |
| `RecursiveCte.SucceedsExactly` | crates/tpt-archon-relational/src/database/select.rs:625-633 | UNION returns rows if and only if no row's least derivation is as long as the limit and the term fails on no batch it is given |
| `RecursiveCte.FailureIs` | crates/tpt-archon-relational/src/database/select.rs:625-638 | when UNION fails, it is for the limit if the term succeeds on every batch before it, and for the term otherwise |
| `RecursiveCte.ResultIsInDepthOrder` | crates/tpt-archon-relational/src/database/select.rs:599-652 | UNION returns its rows by the number of steps they take, and sorted among those that take the same |
| `RecursiveCte.UnionAllExactly` | crates/tpt-archon-relational/src/database/select.rs:640-652 | UNION ALL succeeds if and only if no derivation at all is as long as the limit and the term fails on no batch, and then gathers the same set |
| `RecursiveCte.UnionAllCounts` | crates/tpt-archon-relational/src/database/select.rs:640-652 | UNION ALL returns each row exactly as often as it has derivations from the anchor |
| `RecursiveCte.UnionAllInOrder` | crates/tpt-archon-relational/src/database/select.rs:640-652 | UNION ALL returns the rows of the anchor and then of each iteration, as the term gave them |
| `Calendar.CivilIsInverse` | crates/tpt-archon-relational/src/executor/expr.rs:384-397 | every day number gives a date of the Gregorian calendar, and counting the days to that date gives the number back |
| `Calendar.CivilIsOnto` | crates/tpt-archon-relational/src/executor/expr.rs:384-397 | every calendar date is the date of its day count |
| `Calendar.CivilFollowsCalendar` | crates/tpt-archon-relational/src/executor/expr.rs:384-397 | consecutive day numbers give consecutive dates (section 3.2.1 of ISO 8601:2004) |
| `Calendar.Epoch` | crates/tpt-archon-relational/src/executor/expr.rs:382-397 | day zero is 1970-01-01 |
| `Calendar.ExtractFromDays` | crates/tpt-archon-relational/src/executor/expr.rs:353-369 | EXTRACT of a day number keeps its date if and only if it is at most 106,751,991 days from the epoch |
| `Calendar.ExtractFromMicros` | crates/tpt-archon-relational/src/executor/expr.rs:353-369 | EXTRACT of a timestamp keeps the date of its day if and only if it is not negative or falls on midnight |
| `Calendar.ExtractIsLate` | crates/tpt-archon-relational/src/executor/expr.rs:353-369 | the other timestamps get the following day's date |
| `Calendar.ExtractedParts` | crates/tpt-archon-relational/src/executor/expr.rs:353-369 | the year, month and day EXTRACT returns are those of the one calendar date that many days from the epoch |
| `Calendar.ClockAddsUp` | crates/tpt-archon-relational/src/executor/expr.rs:370-378 | from the epoch on, hours are below 24 and minutes below 60, and days, hours, minutes and odd seconds make up the seconds since the epoch, which is what SECOND returns |
| `Calendar.ClockBeforeEpoch` | crates/tpt-archon-relational/src/executor/expr.rs:370-378 | before the epoch hour, minute and second are those of the same distance after it, negated |
| `Joins.FullPlusInner` | crates/tpt-archon-relational/src/database/select.rs:145-248 | as multisets, FULL + INNER = LEFT + RIGHT |
| `Joins.EveryLeftAppears` | crates/tpt-archon-relational/src/database/select.rs:203-244 | a FULL join returns every left row with each of its matches, and with nulls when it has none |
| `Joins.EveryRightAppears` | crates/tpt-archon-relational/src/database/select.rs:203-244 | and every right row likewise |
| `Joins.FullIsExact` | crates/tpt-archon-relational/src/database/select.rs:203-244 | a row is in a FULL join if and only if it is a matching pair, a left row that matches nothing with nulls, or a right row that matches nothing with nulls |
| `Joins.InnerIsExact` | crates/tpt-archon-relational/src/database/select.rs:145-157 | an INNER join returns exactly the combinations that satisfy ON |
| `JoinOrder.InnerInOrder` | crates/tpt-archon-relational/src/database/select.rs:145-157 | each matching pair comes out once, by left rows and then by right rows |
| `JoinOrder.LeftInOrder` | crates/tpt-archon-relational/src/database/select.rs:158-180 | the same for LEFT, with each left row that matches nothing once in its place |
| `JoinOrder.RightInOrder` | crates/tpt-archon-relational/src/database/select.rs:181-202 | for RIGHT, by right rows and then by left rows, with each right row that matches nothing once in its place |
| `JoinOrder.FullInOrder` | crates/tpt-archon-relational/src/database/select.rs:203-244 | for FULL, the pairs as for INNER, then the lone left rows and then the lone right rows, each once and in order |
| `JoinOrder.LeftSourcesAre` | crates/tpt-archon-relational/src/database/select.rs:145-180 | the positions listed there are exactly the matching pairs, and for LEFT the left rows that match nothing, in order |
| `JoinOrder.RightSourcesAre` | crates/tpt-archon-relational/src/database/select.rs:181-202 | the same for RIGHT |
| `Joins.InnerJoin` | crates/tpt-archon-relational/src/database/select.rs:145-157 | the loop returns the matching pairs, or fails exactly when ON fails for some pair, with the error of the first in the order of the loops |
| `Joins.LeftJoin` | crates/tpt-archon-relational/src/database/select.rs:158-180 | the same for LEFT |
| `Joins.RightJoin` | crates/tpt-archon-relational/src/database/select.rs:181-202 | the same for RIGHT, whose loops go by right rows |
| `Joins.FullJoin` | crates/tpt-archon-relational/src/database/select.rs:203-244 | the same for FULL, with its marks and its early exit |
| `Aggregates.GroupsPartition` | crates/tpt-archon-relational/src/executor/aggregate.rs:63-69 | groups have distinct keys, each holds exactly the rows with its key in their order, and every row's key has a group |
| `Aggregates.GroupsConserve` | crates/tpt-archon-relational/src/executor/aggregate.rs:63-88 | the groups hold as many rows as there are, and their integer sums add up |
| `Aggregates.SumColumn` | crates/tpt-archon-relational/src/executor/aggregate.rs:121-148 | the loop of SUM: NULL over no numbers, the integer sum over integers, else the rounded real sum |
| `Aggregates.AverageColumn` | crates/tpt-archon-relational/src/executor/aggregate.rs:149-167 | the loop of AVG: NULL over no numbers, else the rounded quotient of their real sum and their number |
| `Aggregates.OfOneRow` | crates/tpt-archon-relational/src/executor/aggregate.rs:101-193 | over a single row COUNT is 1 and the others are its number, or NULL if it has none |
| `Aggregates.Concatenated` | crates/tpt-archon-relational/src/executor/aggregate.rs:121-167 | sums and numbers of two runs of rows, put together, add up |
| `Aggregates.SumAdds` | crates/tpt-archon-relational/src/executor/aggregate.rs:121-148 | SUM of integers over two runs of rows adds up, NULL counting for nothing, and is NULL exactly when both are |
| `Aggregates.AverageIs` | crates/tpt-archon-relational/src/executor/aggregate.rs:149-167 | AVG is the rounded total of the numbers in the column over how many there are, NULL if and only if there are none |
| `Aggregates.ExtremesAre` | crates/tpt-archon-relational/src/executor/aggregate.rs:168-193 | MIN and MAX are numbers of the column, and no number of it is below or above them |
| `Aggregates.GroupedOutput` | crates/tpt-archon-relational/src/executor/aggregate.rs:54-91 | with its grouping columns known, a grouped query fails if and only if there is a row and an aggregate names an unknown column; else it returns, in order of the keys, one row for each key that occurs: the key, then for each aggregate its cell over exactly the rows with that key, their number for COUNT |
| `Aggregates.UngroupedOutput` | crates/tpt-archon-relational/src/executor/aggregate.rs:34-53 | without grouping it fails if and only if an aggregate names an unknown column, else returns one row, the cells over all rows |
| `Aggregates.CountsAddUp` | crates/tpt-archon-relational/src/executor/aggregate.rs:63-120 | the COUNT cells of a grouped query add up to the number of rows |
| `Aggregates.SumsAddUp` | crates/tpt-archon-relational/src/executor/aggregate.rs:63-148 | its SUM cells over a column without floats are integers or NULL and add up to the SUM cell of the ungrouped query |
| `Aggregates.ResolvedIs` | crates/tpt-archon-relational/src/executor/aggregate.rs:54-62 | the grouping columns are taken at their first positions; the first that is not there is the error |
| `Aggregates.AggregateTable` | crates/tpt-archon-relational/src/executor/aggregate.rs:34-91 | the loops over groups and aggregates compute that output; the first unknown column is the error |
| `RowCodec.RowRoundTrip` | crates/tpt-archon-relational/src/database/codec.rs:31-157 | a row whose values fit is restored by decoding if and only if it has fewer than 65,536 columns |
| `RowCodec.ValueRoundTrip` | crates/tpt-archon-relational/src/database/codec.rs:34-63 | a value is read back from its encoding, whatever follows |
| `RowCodec.ValueLayout` | crates/tpt-archon-relational/src/database/codec.rs:34-63 | the bytes of each kind of value: its tag, its length where it has one, its numbers lowest byte first |
| `RowCodec.PushRow` | crates/tpt-archon-relational/src/database/codec.rs:31-66 | the loop writes the encoding |
| `RowCodec.ReadRow` | crates/tpt-archon-relational/src/database/codec.rs:68-157 | the loop computes the decoding, error cases included |
| `RowCodec.ValidatedExactly` | crates/tpt-archon-relational/src/database/codec.rs:159-169 | a stored row is accepted for a table if and only if it has the table's number of columns |
| `AlterTable.AddThenDropExactly` | crates/tpt-archon-relational/src/database/ddl.rs:165-216 | ADD COLUMN then DROP COLUMN succeed and restore the table, every row byte for byte, if and only if it had fewer than 65,535 columns or has no rows |
| `AlterTable.AlterSucceedsExactly` | crates/tpt-archon-relational/src/database/ddl.rs:165-216 | ADD COLUMN succeeds if and only if the name is new and every row decodes, DROP COLUMN if and only if the column is there, is not the id, and every row decodes and has it |
| `AlterTable.AddedRows` | crates/tpt-archon-relational/src/database/ddl.rs:165-189 | ADD COLUMN appends the column, and a NULL to every row |
| `AlterTable.DroppedRows` | crates/tpt-archon-relational/src/database/ddl.rs:190-216 | DROP COLUMN takes out the column, and its value from every row |
| `AlterTable.Table.Add` | crates/tpt-archon-relational/src/database/ddl.rs:165-189 | re-encodes every row, or changes nothing when the name is taken or a row is corrupt |
| `AlterTable.Table.Drop` | crates/tpt-archon-relational/src/database/ddl.rs:190-216 | the same for dropping, which also refuses the implicit id, and a row too short to have the column |
| `Scheduler.Scheduler.RunToCompletion` | crates/tpt-archon-kernel/src/scheduler.rs:88-94 | terminates after exactly the sum of the polls the tasks need |
| `Scheduler.Scheduler.Tick` | crates/tpt-archon-kernel/src/scheduler.rs:74-82 | polls the first task and queues it again unless it is ready |
| `Scheduler.Scheduler.Spawn` | crates/tpt-archon-kernel/src/scheduler.rs:60-65 | puts a new entry last in the queue under a fresh id |
| `Scheduler.PolledInTurn` | crates/tpt-archon-kernel/src/scheduler.rs:74-82 | a task at position p is polled after exactly p polls of others |
| `Scheduler.FairRound` | crates/tpt-archon-kernel/src/scheduler.rs:72-82 | between two polls of one task every other queued task is polled exactly once, in order |
| `Scheduler.EveryTaskRuns` | crates/tpt-archon-kernel/src/scheduler.rs:84-94 | running to completion polls each task exactly as often as it needs |

## Left out

- File, mmap and io_uring devices: a device is a sequence of blocks; reads and writes fail only out of range, except that any flush write may fail.
- A persist that reports failure although the whole log became durable: it would make the batch durable against the caller's belief, and the code has no way to tell.
- `Database::put` of the storage crate: it does not withdraw its commit record when persisting fails, so the crash theorem is about `commit_durable`.
- Overflow of 64-bit counters: log numbers stop the machine at 2^64 records; row ids, timestamps, pin counts and integer sums are unbounded.
- StorageEngine.StorageEngine.CommitDurable: the persist closure is its outcome, given as a parameter, and the bytes it is handed.
- CrashProofs.ReopenedShowsCommitted: a persist torn over a longer old log file at a byte where the rest is not harmless in the sense of TornOverOldExactly is no step of the machine, because after it the property is false.
- PageCodec.MisreadExactly: whether some page meets its condition, a question about the CRC of each page with a single non-zero byte, is not decided.
- PoolProofs.FetchAndSetOK: the borrow that `fetch_mut` returns is modelled as one store of a whole page.
- `FixedBuf`, `put_u16` and `read_u16` of the byte primitives: easy members of the same shape.
- Thread-level concurrency on the B-Link tree: a reader's single hops fall between whole operations, as the code has no latching, or between a split and the update of the parent.
- SQL parsing, name resolution, subqueries, views, window functions, ORDER BY and LIMIT: a filter is any function of the row, a condition any function of the combined row, both free to fail.
- Converting literals to column types: statements carry values of the right type already.
- Database.Database.EnforceConstraints: a CHECK is a function of the row, so one whose expression holds a subquery over other tables is not modelled.
- CREATE and DROP TABLE, and ALTER TABLE together with transactions, indexes or constraints: the set of tables and their schemas are fixed in the session and constraint theorems.
- Serializability of the database: it is false (CommitsBreakUnique with SerialAddIsRefused), because scans do not record reads and autocommit writes bypass the version store; it is proved of the version store, and of transactions whose tables the others leave alone (ActsAtCommit).
- ConstraintProofs.ConstraintsAlwaysHold: assumes that no UPDATE assigns a column some foreign key refers to and that a nullable id is looked at by no constraint, because otherwise the property is false; UpdateStatementKeepsExactly and InsertKeepsExactly say when such a statement is safe.
- Which error message is reported, beyond its kind.
- The equality of floating-point values: values compare as their bit patterns, and rows are any type with equality and a total order.
- RowCodec.ReadRow: text is kept as bytes; replacing invalid UTF-8 on decoding is not modelled.
- AlterTable.Table.Drop: dropping a column from a stored row too short to have it, where the code panics, is an error that changes nothing.
- IvfFlat.IvfFlatIndex.FindNearest: how many of the overall best rows a search with few probes misses, which depends on the clustering, and float rounding have no specification here; what is probed, and that the search is exact on it, does.
- Aggregates.SumColumn: floats add up exactly and are rounded once at the end; rounding after every addition is not modelled.
- Aggregates.AggregateTable: the column headings and aliases of the result are not modelled; rows are taken as long as the table is wide, as every table builds them.
- The order in which the tables of a map are visited: only which error comes first could depend on it.
- Kernel capabilities, IPC, drivers, the wire protocol, language bindings, EXPLAIN and GPU lowering: plumbing that would add only easy members.
- Scheduler.Scheduler.Spawn: a task is the number of polls it needs, at least one; what a poll does is not modelled.
