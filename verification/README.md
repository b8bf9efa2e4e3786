# The vyrn-core storage engine in Dafny

vyrn-core is an embedded key-value engine: a copy-on-write B+tree over an append-only page file, a
write-ahead log with group commit, an optional write-back buffer, snapshots, a change feed, secondary
indexes with documents on top of them, point-in-time recovery and log archiving. This project models
those parts and proves what they promise, with I/O as steps that may fail or be cut at any byte.

The one specification behind everything is a map from keys to a value and a revision. A log of
records has one state per LSN (`Replay.StateAt`): each record's operations are redone in order, a put
clears its key's tombstone, a delete leaves one. Every other part is tied to that map.

| modules | part |
|---|---|
| Results, Keys, Bytes, Windows | options, byte strings and their order, big-endian fields, ranges and limits |
| Pages, Packing, Mutations, Stores, PageTree, PutPath, TreeRuns, Compaction | the page tree: packing, batch rewrite, sibling merging, runs, the compacted copy |
| TreeReads, Overlays | lookups, sweeps and scans on the tree, and on the buffer laid over it |
| Replay, Replicas, Lineage, Planning, Revisions, WriteBack | redo, replica apply and its partial states, batch planning, change probes, the buffer against the log |
| EngineSteps, Engine | commits, barriers, flushes, checkpoint phases, crash and open, replication: what each step does to the state, and the class that does it |
| EngineProofs, EngineRuns, EngineFaults | what every step and every run of the engine keeps, and the runs that keep less |
| Mvcc, SnapshotReads, SnapshotRuns | retained versions, reads at a revision, runs |
| WalRecords, WalWriter, GroupCommit | records as bytes, the zero-filled runway, durability as interleaved steps |
| SegmentFiles, Recovery, Retention | segment files, point-in-time recovery, archiving and pruning |
| ChangeRecords, ChangeFeed, Floors, FeedRuns | the change feed, its retention floor, publishers and subscribers |
| Indexes, Documents, Rebuilds, DocumentRuns | unique indexes, documents, rebuilds, collections over runs |
| Caches, PageFile, RowReads, ValueLogs | clock caches, the page manager, cached rows, the value log |

`dafny verify dfyconfig.toml` checks the project.

## Findings

Where the code does not keep a property in full, the model keeps the code as it is, gives an input
that shows it, and proves exactly when the property holds.

- Engine. A replicated record is logged before it is applied. When its apply stops part-way the engine
  is not poisoned, keeps the edits made so far, and goes on serving. While that record is pending:
  - A commit is given the pending record's LSN. It is acknowledged as durable, and the next open skips
    it (`EngineFaults.Forgotten`, and from an empty database `EngineFaults.LostCommit`). An
    acknowledgement is honoured exactly when the next LSN was unused, as it always is while no record
    is pending (`EngineRuns.AckExactly`).
  - A delete is two published edits. Stopped between them and shipped again, its record is applied
    and its tombstone is missing. A checkpoint publishes the tree without it, so no crash brings it
    back (`EngineFaults.LostTombstone`). User keys are right in any case, and the view and the
    manifest are states of the log exactly when nothing is missing from them (`EngineRuns.Serves`,
    `EngineRuns.Publishes`); without such a stop nothing ever is (`EngineRuns.MissesOnlyLost`).
    For one record, `Replicas.RetryRestores` says exactly when trying again repairs it.
  - A checkpoint may replay the pending record. Shipped again, it then meets a tree that has it, and
    the engine never learns that tombstones exist: a later put leaves its key's tombstone in place,
    which no replay would (`EngineFaults.DeniedTombstone`).
  - The same checkpoint changes rows without dropping them from the row cache, although the cache's
    own documentation calls compaction content-preserving (`RowReads.StaleRead`). Only rows the
    pending record addresses can be stale (`RowReads.AdoptRows`, `RowReads.RowReader.Run`).
- Snapshots. A delete committed while no snapshot is open records nothing. If the key still has
  retained versions, a snapshot opened later, once the key is written again, reads the last retained
  value instead of nothing (`SnapshotRuns.Misread`, `Mvcc.StaleMisreads`). Such a commit is the only
  way an exact history becomes inexact (`Mvcc.Snapshots.Commit`, `SnapshotRuns.Run`). It is a wider
  condition than "no history is retained": a put without a snapshot is harmless, and so is a delete
  of a key whose newest version is a delete.
- Change feed. `trim_changes` accepts a cursor past the newest commit. The floor then lies ahead of
  commits still to come, and a later trim at one of them lowers it (`Floors.FloorFalls`). The floor
  never falls exactly when each trim that drops something names nothing past the commit after its
  own, as is true of every cursor the feed hands out (`Floors.TimelyExactly`, `Floors.SafeExactly`).
- Change probes. In write-back mode `range_changed_since` panics on a range that ends before it
  starts; without a buffer it answers that nothing changed (`Revisions.RangeChangedSince`).
- Archiving. The segment listing is not a snapshot of the directory. A listing that misses a segment
  created during the scan but sees two later ones returns a watermark above an uncopied segment, and
  the next checkpoint may delete it (`Retention.ListingHole`). `Retention.ScanExactly`,
  `Retention.Archiver.Tick` and `Retention.Ticks` say exactly when this happens.
- Group commit. A caller that asks for an LSN whose record was never written is told it is durable.
  A finished flush covers its caller exactly when the record was written when the flush began
  (`GroupCommit.Wal.FinishFlush`).

## Model

| member | source | states |
|---|---|---|
| `Keys.PrefixIsInterval` | crates/vyrn-core/src/page_tree.rs:3534-3539 | the keys that start with a prefix are exactly the interval from the prefix to its successor, the unbounded end included, which is what lets a scan skip an excluded prefix as one interval |
| `Keys.PrefixEnd` | crates/vyrn-core/src/lib.rs:4589-4599 | the loop that computes a scan's exclusive end finds the prefix's successor, so the scan covers exactly the keys that start with the prefix |
| `Mutations.MergeEntries` | crates/vyrn-core/src/page_tree.rs:3459-3501 | merging sorted mutations into a sorted leaf gives each key the outcome of its last mutation, keeps every other entry, and records for each mutation whether its key existed before the batch |
| `Stores.SortedBatch` | crates/vyrn-core/src/page_tree.rs:1384-1427 | sorting a batch by key, stably, changes nothing: the map is still the left-to-right fold of the mutations as given |
| `Packing.PackLeaves` | crates/vyrn-core/src/page_tree.rs:3013-3047 | greedy leaf packing keeps every entry in order, every page fits, and a page is closed only because the next entry did not fit |
| `Packing.PackingUnique` | crates/vyrn-core/src/page_tree.rs:3013-3047 | that description determines the packing: two packings of the same entries are equal |
| `Packing.FewerParents` | crates/vyrn-core/src/page_tree.rs:3081-3112 | packed internal levels hold two children per page but for the last, so a level of two or more nodes shrinks and the root-building loop ends |
| `Packing.AtMostThreeLeaves` | crates/vyrn-core/src/page_tree.rs:1319-1355 | a page that fitted plus one inserted entry splits into at most three leaves |
| `Packing.AtMostTwoParents` | crates/vyrn-core/src/page_tree.rs:1319-1355 | replacing one child of a fitting page by up to three splits it into at most two |
| `PutPath.RootFits` | crates/vyrn-core/src/page_tree.rs:1345-1355 | up to three siblings always fit one root page, whatever their keys, so the unsplit root write of an insert cannot fail |
| `PageTree.PageTree.WriteLeaf` | crates/vyrn-core/src/page_tree.rs:3049-3079 | a leaf whose cells fit is written without its cells reaching the slot directory, and one whose cells do not is refused |
| `PageTree.PageTree.WriteInternalLevel` | crates/vyrn-core/src/page_tree.rs:3081-3112 | the level written holds exactly the rows of its children, in order and within bounds, and is strictly smaller when there were two or more |
| `PageTree.PageTree.ChooseRun` | crates/vyrn-core/src/page_tree.rs:1550-1605 | which siblings are merged: an underfull rewritten child is rewritten with a neighbour exactly when the pair fits by the code's own arithmetic |
| `PageTree.PageTree.MergeUnderfull` | crates/vyrn-core/src/page_tree.rs:1550-1650 | sibling merging keeps every row and bound; among leaves it never adds a page, and whenever some child may pair up it ends with strictly fewer |
| `PageTree.PairShrinks` | crates/vyrn-core/src/page_tree.rs:1617-1623 | a leaf pair the size test accepts is rewritten as exactly one page |
| `PageTree.PairMeans` | crates/vyrn-core/src/page_tree.rs:1607-1624 | two leaves pair up exactly when their entries and one more separator fit a page, and a leaf is underfull exactly below a quarter of one |
| `PageTree.PageTree.ApplyNode` | crates/vyrn-core/src/page_tree.rs:1459-1530 | the recursive rewrite of a node holds its old rows with the node's mutations applied, inside the old bounds, at the same height unless a root collapsed; it fails exactly past the depth limit |
| `PageTree.PageTree.PrepareBatch` | crates/vyrn-core/src/page_tree.rs:1367-1453 | on every valid tree and every mutation list: success yields a root whose map is the fold of the mutations over the old map, whose length is the size of that map, with order, separator bounds and equal leaf depth; the old root still reads the old map; success is exactly "pages reach the file and the depth limit is not met", and failure discards every page |
| `PutPath.PreparePut` | crates/vyrn-core/src/page_tree.rs:1295-1355 | the single-key insert path gives the old map with the one key replaced |
| `PutPath.PrepareDelete` | crates/vyrn-core/src/page_tree.rs:1691-1737 | the single-key delete reports whether the key was there, writes nothing when it was not, and else gives the old map without it |
| `TreeRuns.Run` | crates/vyrn-core/src/page_tree.rs:694-697 | over any run of batches, puts and deletes with failures among them, the contents are the fold of the writes that landed, and every root published on the way still reads the map it was published with |
| `Compaction.CompactTo` | crates/vyrn-core/src/page_tree.rs:710-719 | the compacted copy, built row by row from one scan of as many rows as the tree counts, holds the same keys, values, revisions and length; the tree it is taken from is untouched |
| `TreeRuns.FlushBuffer` | crates/vyrn-core/src/lib.rs:2502-2532 | writing the buffer through the tree in one batch leaves the merged map, and a plain scan afterwards answers row for row what the merged scan answered before |
| `TreeReads.Get` | crates/vyrn-core/src/page_tree.rs:1005-1021 | descent plus binary search over the slots returns the value and revision the map holds, or nothing; it fails only past the depth limit |
| `TreeReads.FindInLeaf` | crates/vyrn-core/src/page_tree.rs:1208-1293 | the sequential cell walk of a page without a directory answers the same question as the binary search |
| `TreeReads.ChildForKey` | crates/vyrn-core/src/page_tree.rs:2801-2923 | walking the separators picks the child the binary search picks: the one whose bounds hold the key |
| `TreeReads.GetMany` | crates/vyrn-core/src/page_tree.rs:788-994 | one shared sweep for many sorted keys answers each as its own lookup would, absent keys included, and fails exactly when a lookup would |
| `TreeReads.Scan` | crates/vyrn-core/src/page_tree.rs:2386-2752 | a scan with bounds, limit and excluded prefix returns exactly the first rows of the map in range and outside the prefix |
| `TreeReads.LastKeyIn` | crates/vyrn-core/src/page_tree.rs:1775-1825 | the greatest key in a range, or nothing when the range is empty |
| `TreeReads.ChangedSince` | crates/vyrn-core/src/page_tree.rs:1827-1838 | true exactly when some row of the range, outside the prefix, has a newer revision |
| `Overlays.MergedScan` | crates/vyrn-core/src/overlay.rs:286-350 | for every tree, buffer, range, limit and excluded prefix: exactly the first rows of the overridden map; asking the tree for the limit plus the buffered deletes always suffices |
| `Overlays.MergedGetMany` | crates/vyrn-core/src/overlay.rs:214-280 | many keys at once: the buffer answers what it holds, one tree sweep the rest, each slot as its own merged lookup |
| `Overlays.MergedLastKeyIn` | crates/vyrn-core/src/overlay.rs:471-506 | terminates with the greatest key of the overridden map in the range, stepping below masked keys |
| `Revisions.MergedChangedSince` | crates/vyrn-core/src/overlay.rs:440-468 | the merged change probe answers for the buffer laid over the tree; with a buffer it panics exactly on a range that ends before it starts |
| `Replay.ReplayOverlap` | crates/vyrn-core/src/lib.rs:4331-4386 | replaying records (m, n] onto the state at any j between m and n ends in the state at n |
| `Replay.ReplayAgain` | crates/vyrn-core/src/lib.rs:4331-4386 | redoing records a state already contains leaves it unchanged, revisions and tombstones included |
| `Replay.StateOrderly` | crates/vyrn-core/src/lib.rs:2196-2299 | in every state of every log no user key has both a live entry and a tombstone |
| `Planning.PlanBatch` | crates/vyrn-core/src/lib.rs:2131-2299 | while the tombstone flag is right: the planned page mutations take the view exactly where redoing the batch would; what is logged replays to the same state and every logged delete hits; results report what each operation met; the user count moves by exactly the planned amount; no tombstone exists while the flag says none can |
| `Planning.NothingLogged` | crates/vyrn-core/src/lib.rs:2196-2299 | a batch logs nothing exactly when it only deletes keys that are not there, whatever the tombstone flag says |
| `Revisions.RevisionIsTouch` | crates/vyrn-core/src/lib.rs:1386-1404 | a key's revision, read from its entry or its tombstone, is the last record that addressed it |
| `Revisions.AnyChangedSince` | crates/vyrn-core/src/lib.rs:1411-1461 | true exactly when a logged operation after the revision addressed one of the keys |
| `Revisions.RangeChangedSince` | crates/vyrn-core/src/lib.rs:1687-1709 | true exactly when a logged operation after the revision addressed a user key of the range, deletes included through the tombstone range; with a buffer it panics exactly on a range that ends before it starts |
| `WriteBack.ExactCommit` | crates/vyrn-core/src/overlay.rs:113-125 | recording a commit's mutations keeps the buffer exact: an entry is its key's state ever since its revision, a key without one has not changed |
| `WriteBack.ExactEvict` | crates/vyrn-core/src/overlay.rs:152-163 | evicting through a later tree's LSN leaves a buffer exact from there |
| `WriteBack.FlushEdits` | crates/vyrn-core/src/lib.rs:2502-2532 | the flush batch takes the tree to the merged map, values and revisions |
| `WriteBack.ReadEngine.Feed` | crates/vyrn-core/src/lib.rs:647-712 | a read handle fed a commit's mutations, root and absorb watermark in LSN order serves exactly the writer's state at that LSN and keeps nothing the root has absorbed |
| `WriteBack.ReadEngine.Republish` | crates/vyrn-core/src/lib.rs:675-712 | a republish without mutations moves the root and the watermark and changes nothing it serves |
| `Engine.Engine.Commit` | crates/vyrn-core/src/lib.rs:2091-2493 | in either mode, with the tree or the log failing at any point and whatever state it meets: the result, the log, the view, the counters and the poisoning are those of the commit step |
| `EngineRuns.CommitServes` | crates/vyrn-core/src/lib.rs:2091-2493 | unless it is misled, a commit that succeeds redoes its batch onto the view at the next LSN, logs exactly the operations that had an effect, and reports of each delete whether its key was there when its turn came; one that fails leaves the view |
| `EngineRuns.CommitAccepted` | crates/vyrn-core/src/lib.rs:2104-2112 | a commit is accepted exactly when the engine is healthy, every key has 1 to 65536 bytes and every value at most 16 MiB, and either nothing has an effect or the record is written, after the tree in classic mode; which error it gives otherwise |
| `EngineProofs.CommitOk` | crates/vyrn-core/src/lib.rs:2091-2493 | a commit, however it ends, keeps every part of the invariant and everything no crash could take, unless it was misled |
| `EngineProofs.FlushOk` | crates/vyrn-core/src/lib.rs:2502-2532 | a flush changes neither a value nor a revision of the view |
| `EngineRuns.FlushCompletes` | crates/vyrn-core/src/lib.rs:2502-2532 | a flush the tree takes leaves an empty buffer and a tree that is the whole view |
| `EngineProofs.BeginOk` | crates/vyrn-core/src/lib.rs:3002-3093 | beginning a checkpoint, pending record or not, makes every commit so far durable and changes no view |
| `EngineProofs.CompactOk` | crates/vyrn-core/src/lib.rs:4289-4309 | the compacted copy with the visible records replayed is a state of the history, labelled at most one record too low |
| `EngineProofs.PublishOk` | crates/vyrn-core/src/lib.rs:3100-3163 | with commits, flushes and replicated records between the phases, the published manifest is a state of the history from which the log is replayed |
| `EngineProofs.AdoptOk` | crates/vyrn-core/src/lib.rs:3164-3213 | adopting the tree, sealing the segment and deleting any number of sealed records keeps the invariant, and the view is what it was if no apply has stopped since the open |
| `EngineRuns.CheckpointCompletes` | crates/vyrn-core/src/lib.rs:2985-3213 | in either mode, the phases of a checkpoint one after the other publish the view under the last LSN, adopt it, empty the buffer and leave every record durable |
| `EngineProofs.CrashOk` | crates/vyrn-core/src/lib.rs:3665-3724 | a crash at any step, keeping any written records beyond the flushed ones, leaves a history cut at what survives and an open that satisfies the whole invariant again, counters included |
| `EngineRuns.Reopens` | crates/vyrn-core/src/lib.rs:1002-1152 | after any crash the engine is healthy, with a history that is exactly what survived, and serves the state of it exactly when no tombstone is missing, its user keys in any case |
| `Engine.ReplayLog` | crates/vyrn-core/src/lib.rs:4331-4386 | replaying a log that may hold an LSN twice: a record at or below what is reached is skipped |
| `EngineProofs.ReplayedIs` | crates/vyrn-core/src/lib.rs:3880-3912 | replaying consecutive records, some of them logged more than once, is replaying the history once |
| `Engine.Engine.ApplyReplicated` | crates/vyrn-core/src/lib.rs:3280-3386 | a shipped record is logged and applied edit by edit, on a fresh or a half-applied tree alike, up to the edit that fails: how far tree, log, LSN, count and tombstone flag have come |
| `EngineProofs.ReplicateOk` | crates/vyrn-core/src/lib.rs:3280-3386 | the next record of the history, stopped anywhere, or the pending record shipped again, keeps every part of the invariant: the tree is between two states of the history and misses exactly the tombstones that were lost |
| `EngineRuns.ReplicaAdvances` | crates/vyrn-core/src/lib.rs:3280-3386 | a replica whose log and tree take the next record is at its LSN, with its operations redone and its bytes in the log |
| `Engine.Engine.Run` | crates/vyrn-core/src/lib.rs:2091-3386 | whatever the interleaving of commits, barriers, flushes, checkpoint phases, segment deletions, replicated records that stop part-way or are shipped again, and crashes: the run leaves its history exactly when some step forks; until then view and manifest are states of the history exactly when no tombstone is missing there, every user key is right, and the records returned are exactly those of the commits reported durable, each in the history at its LSN |
| `EngineRuns.ForksSomewhere` | crates/vyrn-core/src/lib.rs:2091-3386 | a run forks exactly when one of its steps is a commit that writes its record while misled, by a pending record or by a tombstone flag that denies an existing tombstone, or logs a shipped record that is not the next one of the history |
| `EngineRuns.Serves` | crates/vyrn-core/src/lib.rs:1154-1185 | a healthy engine with no record pending serves the state of its history exactly when no tombstone is missing, and every user key and the count in any case |
| `EngineRuns.Publishes` | crates/vyrn-core/src/lib.rs:3100-3163 | the published tree is the state of the history it has reached exactly when it misses no tombstone, and its user keys are right in any case |
| `EngineRuns.MissesOnlyLost` | crates/vyrn-core/src/lib.rs:3344-3378 | no run misses a tombstone in view, manifest or checkpoint unless some apply stopped between the two edits of a delete |
| `EngineRuns.AcksKept` | crates/vyrn-core/src/lib.rs:2412-2440 | in a run that does not fork, the record of every commit acknowledged as durable is in the history at its LSN at every later point, out of reach of any crash |
| `EngineRuns.SyncKept` | crates/vyrn-core/src/lib.rs:2900-2911 | after a barrier on a healthy engine every commit so far is in the history of every later state of a run that does not fork |
| `EngineRuns.AckExactly` | crates/vyrn-core/src/lib.rs:3880-3912 | an acknowledged commit survives every crash and is redone by the open exactly when no record and no barrier had reached the next LSN, which is so unless a record is pending |
| `EngineRuns.Follow` | crates/vyrn-core/src/lib.rs:3280-3386 | a replica shipped any of a primary's records in any order, over failures, retries, checkpoints and crashes, never leaves the primary's log; with no record pending its user keys are the primary's at its LSN, and its state is exactly when no tombstone is missing |
| `EngineFaults.Forgotten` | crates/vyrn-core/src/lib.rs:3880-3912 | for every state with a record pending in the files: a commit is acknowledged, and the view after a crash is what it would be without the commit |
| `EngineFaults.LostCommit` | crates/vyrn-core/src/lib.rs:3280-3386 | from an empty database: a shipped record stops at once, a commit of another key is acknowledged as durable and visible, and after a crash its key is absent |
| `EngineFaults.LostTombstone` | crates/vyrn-core/src/lib.rs:3363-3372 | from an empty database: a delete stopped between its edits and shipped again leaves its tombstone missing, and a checkpoint publishes the tree without it |
| `EngineFaults.DeniedTombstone` | crates/vyrn-core/src/lib.rs:3363-3372 | from an empty database: a checkpoint replays a pending delete, the retry does not see it, and a later put leaves key and tombstone side by side, which redoing the put does not |
| `Engine.Lockstep` | crates/vyrn-core/src/lib.rs:2338-2398 | a classic and a write-back engine given the same batches, with any barriers, flushes and checkpoint phases of their own in between and however the log writes end, commit every batch neither is locked for, return equal results and hold equal maps |
| `Replicas.RetryRestores` | crates/vyrn-core/src/lib.rs:3320-3386 | redoing a record over a replica that stopped part-way gives the record's state exactly when no delete that hit was cut between its two edits with no other operation of the key in the batch |
| `Replicas.TowardAgain` | crates/vyrn-core/src/lib.rs:3320-3386 | stopping again, anywhere, keeps a half-applied tree on the way to the record's state, and adds exactly the tombstone that stop loses |
| `Lineage.ReplayOnto` | crates/vyrn-core/src/lib.rs:4331-4386 | replaying the log from a half-applied record on ends in the log's own state, without exactly the lost tombstones no later record addresses |
| `Replicas.RetryLoses` | crates/vyrn-core/src/lib.rs:3320-3386 | the smallest failing case: one delete cut between its two edits loses the tombstone for good |
| `Mvcc.Snapshots.Commit` | crates/vyrn-core/src/lib.rs:2614-2636 | a commit's history step keeps every covered revision answerable; it breaks an exact history exactly when, with no snapshot open, it deletes a key whose newest retained version holds a value; with none open it makes any history exact when it leaves no such key |
| `Mvcc.Snapshots.Collect` | crates/vyrn-core/src/mvcc.rs:308-333 | collection keeps what a read at or above the oldest snapshot can need and at most one version at or below it, and with none open starts afresh, exact whatever came before |
| `Mvcc.StaleMisreads` | crates/vyrn-core/src/lib.rs:2614-2636 | from any state with such a stranded key, opening a snapshot and writing the key makes the snapshot read a value where there was none |
| `SnapshotReads.GetAt` | crates/vyrn-core/src/lib.rs:1612-1624 | a read at a revision is answered from versions and live view; below the watermark it is refused, and from an exact history it is the value at that commit |
| `SnapshotReads.ScanAt` | crates/vyrn-core/src/lib.rs:1626-1677 | a limited scan at a covered revision is exactly the first rows of the map as of that commit; the limit plus one row per retained history is enough to ask of the tree |
| `SnapshotRuns.Run` | crates/vyrn-core/src/lib.rs:1483-1610 | over any run of registrations, releases, commits and collections, traced step by step: open revisions stay covered, and all of them read exactly at the end unless some commit without a snapshot stranded a key and no later step, with none open, collected everything or committed leaving no stale key |
| `SnapshotRuns.Misread` | crates/vyrn-core/src/lib.rs:1612-1624 | a run of four commits and two snapshots after which the open snapshot reads a value of a key that was absent when it was taken |
| `WalRecords.OpsRoundTrip` | crates/vyrn-core/src/lib.rs:4129-4212 | operations with keys of 1 to 65536 bytes and values of at most 16 MiB read back from the bytes they were framed as |
| `WalRecords.FrameRoundTrip` | crates/vyrn-core/src/lib.rs:4074-4127 | every record a commit may write reads back whole, whatever follows it |
| `WalRecords.ReplaySegment` | crates/vyrn-core/src/lib.rs:3736-3945 | from the image a crash can leave, replay returns exactly the complete records past the given LSN, in order, and their end offset; it fails exactly on a cut record in a sealed segment or a gap before the first record |
| `WalWriter.Writer.Reserve` | crates/vyrn-core/src/wal.rs:103-140 | filling the runway with zeros never touches a written record and never shrinks the file |
| `WalWriter.WriteCrashReplay` | crates/vyrn-core/src/wal.rs:103-192 | records written through reserve and append, the last write cut at any byte: replay decodes exactly the complete ones and stops at their end |
| `GroupCommit.Wal.SyncThrough` | crates/vyrn-core/src/wal.rs:200-227 | durability is answered at once when a finished flush covers it, even during another flush, and otherwise waits or begins one |
| `GroupCommit.Wal.FinishFlush` | crates/vyrn-core/src/wal.rs:200-227 | every caller of a finished flush is told it is durable; it is exactly when its record was written when the flush began; the synced LSN is raised to what was published then |
| `GroupCommit.Wal.Run` | crates/vyrn-core/src/wal.rs:171-251 | in every interleaving of LSN assignment, writes, out-of-order publication, flushes and rotations, step by step: LSNs at or below the synced one are durable, durable records are a prefix that only grows, every LSN acknowledged after its record was written survives, and flushes coalesce: after one that ended well, every LSN published before it began is answered at once |
| `SegmentFiles.LastRecord` | crates/vyrn-core/src/recover.rs:335-358 | walking the frames of a segment with a torn tail finds the end and the LSN of its last complete record |
| `SegmentFiles.CutPast` | crates/vyrn-core/src/lib.rs:3963-4020 | the physical trim keeps exactly the records at or below the bound |
| `SegmentFiles.MergeSegment` | crates/vyrn-core/src/recover.rs:198-248 | a base segment and its archived copy merge exactly when one's records are a prefix of the other's, and the longer one is kept |
| `SegmentFiles.BytesShareFrames` | crates/vyrn-core/src/recover.rs:198-248 | comparing raw bytes is comparing records: a byte prefix is a record prefix |
| `Recovery.MergeArchive` | crates/vyrn-core/src/recover.rs:198-248 | merging succeeds exactly when every indexed file is there with the indexed checksum, and each segment then holds the longer of its two copies |
| `Recovery.RollForward` | crates/vyrn-core/src/recover.rs:60-180 | for segments that connect: without a bound recovery succeeds exactly when headers ascend strictly and the log reaches the base, and lands on its last record; with a bound in the log it lands on the bound; past the log it succeeds only if a shorter recovery is allowed, on the last record; it redoes exactly the records in between |
| `Recovery.RecoverTo` | crates/vyrn-core/src/recover.rs:30-180 | the same from a restored base and an archive, for the longer copies of the segments; whenever recovery returns an LSN, what is redone is exactly the records after the base through it, and no segment left holds a record above it |
| `Recovery.RecoveredState` | crates/vyrn-core/src/lib.rs:3665-3724 | the base state with those records redone is the state of the log at that LSN |
| `Retention.Archiver.NothingLost` | crates/vyrn-core/src/wal_archive.rs:56-213 | each logged LSN is in an indexed copy or in a local segment, and local segments hold every record above the manifest |
| `Retention.Archiver.Checkpoint` | crates/vyrn-core/src/lib.rs:3177-3205 | a checkpoint deletes sealed segments in order, only up to the watermark, and keeps the archive complete if it was |
| `Retention.Archiver.PruneWal` | crates/vyrn-core/src/wal_archive.rs:306-359 | pruning refuses exactly when a segment in reach is not indexed, and else deletes exactly the sealed segments whose last LSN the manifest covers |
| `Retention.Archiver.OwnSegment` | crates/vyrn-core/src/wal_archive.rs:121-160 | a sealed segment of the same log is never refused as another timeline's |
| `Retention.Archiver.OtherTimeline` | crates/vyrn-core/src/wal_archive.rs:121-160 | a segment whose bytes differ from what is archived under its id, or that shares an LSN with one archived under another, is refused |
| `Retention.Archiver.ArchivePending` | crates/vyrn-core/src/wal_archive.rs:56-213 | one pass over a listing, with other steps between the reads: refused exactly when the index already reaches the listing's highest segment, and else it indexes exactly the candidates |
| `Retention.Archiver.Tick` | crates/vyrn-core/src/wal_archive.rs:56-213 | handing over the returned watermark keeps the archive complete exactly when the listing left no unindexed segment out below its highest candidate |
| `Retention.Archiver.TickAtOnce` | crates/vyrn-core/src/wal_archive.rs:56-213 | with a listing taken at one instant every segment sealed before the tick is archived after it |
| `Retention.Ticks` | crates/vyrn-core/src/wal_archive.rs:56-213 | over any number of ticks with the engine at work around and inside them, each that is not refused archives its candidates, and the archive stays complete until the first tick whose listing overruns, and is incomplete after that one |
| `Retention.ScanExactly` | crates/vyrn-core/src/wal_archive.rs:361-384 | for a scan that runs beside creations and deletions: deletions do no harm, and a segment created meanwhile does exactly when it is missed while a later candidate is seen |
| `Retention.ListingHole` | crates/vyrn-core/src/wal_archive.rs:361-384 | a reachable run in which the next checkpoint deletes a record that is in no copy |
| `ChangeRecords.BatchRoundTrip` | crates/vyrn-core/src/change_log.rs:96-166 | a commit's change record decodes to the mutations it was made from |
| `ChangeFeed.WithChangeLog` | crates/vyrn-core/src/lib.rs:2661-2727 | the appended record holds exactly the published mutations the commit will make, every user key and every document among them, deletes of absent keys left out |
| `ChangeFeed.PagesMeet` | crates/vyrn-core/src/lib.rs:2735-2774 | resuming from a page's last change continues exactly behind it: no gap, no repeat |
| `ChangeFeed.FoldRebuilds` | crates/vyrn-core/src/lib.rs:2661-2727 | folding the whole published history rebuilds every user key and every document of every collection, and nothing else of the keyspace |
| `ChangeFeed.WriteAppears` | crates/vyrn-core/src/lib.rs:4523-4530 | a logged write of a user key or of a document is in the feed under the LSN of its record |
| `ChangeFeed.ChangesAreWrites` | crates/vyrn-core/src/lib.rs:4523-4530 | every change in the feed is a logged write, at its LSN, of a user key or a document key |
| `ChangeFeed.ReadChanges` | crates/vyrn-core/src/lib.rs:2735-2774 | a cursor below the floor is refused, and any other gets exactly the first changes of the published history past it; one row beyond the limit is enough |
| `ChangeFeed.TrimChanges` | crates/vyrn-core/src/lib.rs:2849-2879 | a trim deletes exactly the records its cursor has consumed in full, and writes nothing when there is none |
| `ChangeFeed.DropsExactly` | crates/vyrn-core/src/lib.rs:2849-2879 | what a trim drops: the commits not trimmed yet that published something of which the cursor has nothing left to read |
| `FeedRuns.Publisher.Commit` | crates/vyrn-core/src/lib.rs:2091-2117 | a commit through plan, page tree and change record keeps the feed exact and publishes exactly its own published mutations |
| `FeedRuns.AcceptableMeans` | crates/vyrn-core/src/lib.rs:2104-2127 | which batches a publisher accepts, in bytes: keys, values and the change record within their limits, and an LSN left |
| `FeedRuns.Publisher.Trim` | crates/vyrn-core/src/lib.rs:2849-2879 | a trim keeps the feed exact, publishes nothing, and moves the floor as the ledger says |
| `FeedRuns.Subscriber.Poll` | crates/vyrn-core/src/lib.rs:2735-2774 | a subscriber is refused only when the floor has passed it; else it folds in exactly the next changes up to the limit, and a page that is not full leaves every user key and every document as the publisher holds them |
| `FeedRuns.Run` | crates/vyrn-core/src/lib.rs:2661-2879 | over any run of commits, trims and polls, step by step with when each succeeds: the feed is the published history past the last trim, the subscriber holds that history up to its cursor, and the floor never falls if each trim is timely |
| `Floors.NeverFalls` | crates/vyrn-core/src/lib.rs:2849-2879 | with timely trims the floor is non-decreasing between any two points of a run |
| `Floors.SafeExactly` | crates/vyrn-core/src/lib.rs:2849-2879 | a state is safe exactly when no continuation with timely trims lowers its floor |
| `Floors.TimelyExactly` | crates/vyrn-core/src/lib.rs:2849-2879 | the guard is exact: a trim that drops something keeps a state safe exactly when its cursor is not past the commit after the trim's own |
| `Floors.FloorFalls` | crates/vyrn-core/src/lib.rs:2849-2879 | a run of four moves in which the floor falls from 100 to 3 |
| `Indexes.EntryKeyInjective` | crates/vyrn-core/src/lib.rs:4568-4607 | index, value and primary key are determined by the entry key |
| `Indexes.LookupIndex` | crates/vyrn-core/src/lib.rs:1946-1957 | the primaries of a value in key order: all, or the first up to the limit |
| `Indexes.PlanUpdates` | crates/vyrn-core/src/lib.rs:1842-1944 | a batch is refused exactly when it would give some unique value a second holder, moves and swaps inside the batch allowed |
| `Indexes.AcceptedKeepsUnique` | crates/vyrn-core/src/lib.rs:1842-1944 | an accepted batch leaves at most one holder per value of a unique index |
| `Indexes.AcceptsExactly` | crates/vyrn-core/src/lib.rs:1842-1944 | with one update for each key, a batch is accepted exactly when every index exists and the map it leaves keeps every unique index unique, however values are rearranged among their holders |
| `Indexes.SwapAccepted` | crates/vyrn-core/src/lib.rs:1858-1873 | two holders of a unique index may swap values in one batch |
| `Documents.IdRoundTrip` | crates/vyrn-core/src/document.rs:497-568 | document keys and ids determine each other |
| `Documents.OrphanedDeletes` | crates/vyrn-core/src/document.rs:225-241 | for a document that cannot be read: deletes of exactly the entries that point at it |
| `Documents.PutDocument` | crates/vyrn-core/src/document.rs:189-213 | accepted exactly for an id whose document key is within the size limit, with scalar indexed fields and unrivalled unique values; then the document is stored, its entries are exact even if it was damaged, and no other document changed |
| `DocumentRuns.PutAccepted` | crates/vyrn-core/src/document.rs:189-213 | in a clean collection a put is accepted exactly when the id is 1 to 65535 bytes with a key of at most 65536, every indexed field is a scalar or absent, and no other document holds one of its unique values |
| `Documents.DeleteDocument` | crates/vyrn-core/src/document.rs:149-175 | for an id whose document key is within the size limit: removes the document and every entry of it, damaged or not, or reports it missing |
| `Documents.Find` | crates/vyrn-core/src/document.rs:375-402 | under exact indexes: the documents whose field encodes to the value, in key order, all or the first up to the limit |
| `Rebuilds.RebuildIndexes` | crates/vyrn-core/src/document.rs:431-478 | succeeds exactly when every document decodes, no indexed field is composite and no two documents share a unique value; then the indexes are exact whatever they held before |
| `Rebuilds.ExactDetermined` | crates/vyrn-core/src/document.rs:431-478 | exact indexes are determined by the documents |
| `DocumentRuns.DocumentStore.Rebuild` | crates/vyrn-core/src/document.rs:431-478 | from indexes no failed rebuild left behind, a rebuild succeeds exactly when no document is damaged and changes no entry of a clean collection |
| `DocumentRuns.DocumentStore.Query` | crates/vyrn-core/src/document.rs:375-402 | a lookup by field on a clean collection is exactly a filter of the map from ids to documents |
| `DocumentRuns.ReadableUndamaged` | crates/vyrn-core/src/document.rs:375-402 | no document of a collection is damaged exactly when every value of the map from ids to documents can be read |
| `DocumentRuns.DocumentStore.Run` | crates/vyrn-core/src/document.rs:139-213 | over any run of puts, deletes, rebuilds and damage, step by step with when each succeeds: the collection is the fold of the steps that succeeded, and it ends clean exactly when every document of that fold can be read and the last rebuild, if any, succeeded |
| `Caches.ClockCache.Insert` | crates/vyrn-core/src/row_cache.rs:95-139 | second-chance insertion remembers a value exactly when it costs at most an eighth of the budget, ends, keeps bytes the exact sum over the entries and within the budget, and changes no other value it keeps |
| `PageFile.PageCache.Sweep` | crates/vyrn-core/src/page_tree.rs:352-394 | the hand finds a page to evict after sparing at most one lap of them |
| `PageFile.PageCache.Admit` | crates/vyrn-core/src/page_tree.rs:352-394 | admission evicts at most one page, and only when full; every page kept is unchanged |
| `PageFile.PageManager.Read` | crates/vyrn-core/src/page_tree.rs:447-486 | a read returns the page of file plus pending bytes, cached or not |
| `PageFile.PageManager.Discard` | crates/vyrn-core/src/page_tree.rs:564-578 | discarding pending pages leaves the file's own pages, the cache included |
| `RowReads.RowReader.Run` | crates/vyrn-core/src/lib.rs:1154-1185 | over any run of reads and engine steps, until the engine forks: each read answers what the engine's map holds at that step, unless an adoption has overtaken the pending record and no step since has dropped the row |
| `RowReads.AnswerMeans` | crates/vyrn-core/src/lib.rs:1154-1168 | a read is answered exactly for a key of 1 to 65536 bytes outside the internal prefix on a healthy engine, with what the map holds |
| `RowReads.StepRows` | crates/vyrn-core/src/row_cache.rs:8-23 | every engine step serves each user key as before unless it drops the key's row or adopts a pending record that addresses it |
| `RowReads.PendingRows` | crates/vyrn-core/src/lib.rs:3280-3386 | while a record is pending, every user key it does not name is served as the states before and after the record have it |
| `RowReads.AdoptRows` | crates/vyrn-core/src/lib.rs:3164-3213 | adoption serves the state of the whole history, which differs from what was served only by the pending record |
| `RowReads.StaleRead` | crates/vyrn-core/src/row_cache.rs:8-23 | a row is read, its next put is logged and stops at once, a checkpoint is adopted: the cache answers the old value while the map holds the new one |
| `ValueLogs.ValueRoundTrip` | crates/vyrn-core/src/value_log.rs:251-285 | a framed value reads back under its revision |
| `ValueLogs.ValueLog.ReadMany` | crates/vyrn-core/src/value_log.rs:395-489 | a batched, coalescing read answers exactly as one read per reference, for every layout, and fails exactly when one of them would |

## Left out

- Engine.Engine.Run: claims nothing of view, manifest and acknowledgements after a run has forked; `EngineFaults` shows what they can be.
- Engine.Engine.ApplyReplicated: takes an append that fails as written or lost whole; bytes of a failed append that a later one overwrites, and a rotation between two records under one LSN, are not modelled.
- Engine.Engine.Compact: takes the bulk copy of rows into the new page file as the identity on the map, which `Compaction.CompactTo` proves on the page tree.
- Engine.Engine.Commit: holds its tree as the map the page tree holds; the page tree itself is driven from a plan in `FeedRuns.Publisher.Install` and from a buffer in `TreeRuns.FlushBuffer`. Splitting of the key-size limit into user and stored keys is not modelled.
- Engine.Engine.Crash: keeps what was flushed and any further written prefix; page ids reused after a lost tail, and adoption at open of a root named in the log, are not modelled.
- Engine.Engine.PublishCheckpoint: going on committing after an error between the manifest publish and the adoption is not modelled; a crash there is.
- RowReads.RowReader.Run: claims nothing of reads after the engine has forked.
- WalRecords.ReplaySegment: a tear that leaves a zeroed record header before written bytes, which the code also truncates, is not among the crash images.
- GroupCommit.Wal.Run: counts as acknowledged only LSNs whose records were written when their flush began; `GroupCommit.Wal.FinishFlush` states the rest.
- FeedRuns.Run: a publisher's tree that has reached the depth limit refuses commits and trims; no bound on the height is proved.
- Retention.Archiver.Checkpoint: a deletion that fails half-way through the retired segments is modelled as a smaller number of retirements.
- SnapshotReads.GetAt: covers the primary only; a node that applies replicated records keeps no history.
- ChangeFeed.TrimChanges: returns the batch and not the number of changes removed; write-back is off, as trimming reads the tree without the buffer.
- FeedRuns.Publisher.Commit: the change log is always on; a database opened without it for a while is not modelled.
- Documents.PutDocument: decoding of stored bytes is an opaque function, so JSON parsing and UTF-8 checks are not modelled; a batch the engine refuses because an index entry is longer than a key may be is not modelled either.
- PageFile.PageManager.Read: real I/O, fsync, memory maps and file locks are steps on sequences.
- Replication joins and contiguity checks on the wire (`replication.rs`), and reading archived records for a joining replica.
- The on-disk format of the retained versions, and recovery of the value log's tail.
- Whole-tree validation (`validate_node`) and counting with an excluded prefix.
- Blob chains for long values and keys: a cell has a size and a content, and its bytes are not modelled.
- Bytes of page cells and slot directories; forged or legacy pages, records and histories.
- The strength of checksums: a checksum is any function of bytes, so bit flips are out of scope.
- Byte accounting of the write-back buffer and the flush trigger.
- Saturation of 64-bit counters except where a commit would exhaust the log's sequence numbers.
- Stale-generation notices to read handles, backup and portable dumps, the server, the client and the command line.
