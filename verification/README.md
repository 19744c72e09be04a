# txBASE in Dafny

A model of the parts of txBASE that must stay right when things go wrong: the object-store commit
protocol, the referential actions and constraint timing of catalog transactions, the catalog journal,
replication, row history and its garbage collection, the write-ahead log of a table and its byte
deltas, schema export, change data capture, memo files, and the date and currency codecs. The
properties are proved for every input, every run and every crash point of the model.

`dafny verify dfyconfig.toml` verifies the whole project.

| file | what it models |
|---|---|
| Base.dfy, Binary.dfy, Decimal.dfy | shared results, fixed-width integers, decimal text |
| EdgePages.dfy, EdgeProtocol.dfy, EdgeClients.dfy, EdgeSafety.dfy | the object-store table as a transition system: any number of clients, one store call per step, crashes anywhere |
| EdgeStuck.dfy | an intent that no recovery accepts: that it is reached, exactly when, and that nobody leaves it |
| EdgeMaintenance.dfy | recovery, cleanup and retention with no other client running |
| Cascade.dfy, CascadeDelete.dfy, ConstraintTiming.dfy | referential actions, cascading deletes, immediate and deferred constraints |
| Journal.dfy, CatalogState.dfy | the undo/redo journal of a catalog and its transaction ID |
| Replication.dfy, ReplicationRuns.dfy | the replication log, an authority and its followers |
| RowMvcc.dfy, RowHistory.dfy, RowGc.dfy, RowGcReads.dfy | row changes, reading them back, garbage collection and what it does to reads |
| ByteDelta.dfy | byte deltas in the write-ahead log |
| TableSave.dfy | saving a table through its log, and recovering it |
| SchemaExport.dfy | the redo journal of a schema export |
| Cdc.dfy | change events, their log and its pages |
| MemoStore.dfy, MemoPack.dfy | memo files, references to their blocks, PACK |
| Calendar.dfy, TemporalCodec.dfy | day numbers, datetime and currency text |

How crashes are modelled: a file replaced by rename, a removed file and a synced record are each one
step, and a method may stop after any step (`if *`). A file that is written in place may be left with
any bytes. A log drops its torn last record when it is opened. What a disk will become is a function
of it (`Recovered`, `Goal`) or a phase predicate (`Undecided`, `Decided`, `Late`, `Completed`), and
every step is shown to keep it or to be the one step that moves it.

What is false of the code, with the exact condition under which it holds:

- Garbage collection can change what is read at the transaction of a kept snapshot, because compaction
  numbers epochs anew from 1. A row ID can then give an older version of its row
  (`RowGcReads.CollectedRowGoesBack`). When the first kept snapshot is of epoch 1, every read there gives
  the row it gave before, or none (`RowGcReads.FirstEpochTruthful`). For a table collected for the first
  time whose first kept snapshot has a live row, that condition is exact (`RowGcReads.AllTruthfulIff`).
  The ID of a snapshot's own row stays truthful exactly when its epoch keeps its number, or the row has
  no version before the kept snapshots, or that version is the same row (`RowGcReads.OwnRowsIff`).
- With kept rows, an ID beyond a snapshot can read as a row of an older one (`RowGc.ShrunkenRowReappears`);
  it reads as absent exactly when no kept row has that ID (`RowGc.BeyondRangeIff`). An ID of an older
  epoch reads as a live row exactly when no snapshot up to then changes it and its last kept version is
  live (`RowGc.OlderEpochIff`).
- A crash between committing a table's MVCC snapshot and clearing its write-ahead log makes every later
  recovery refuse, unless the save stored no row change and its log has no layout marker
  (`TableSave.RepeatableIff`, `TableSave.FirstSaveIsNotRepeatable`, `TableSave.StoreAndRestart`).
- A layout marker left alone in that log stays there (`TableSave.TableFiles.Recover`), and a recovery
  takes it for one of the next save. The recovery of an unforced save over it is refused for good exactly
  when the operation and its event are logged without the table, or the snapshot is prepared and is one
  of the same layout with no fewer rows than the last, or the snapshot is committed
  (`TableSave.LeftOverSticks`, `TableSave.StuckSaveExists`, `TableSave.TableFiles.Recover`). Otherwise the
  save ends as a forced one, which is as the writer had it exactly when the marker matters neither for
  the snapshot nor for the event (`TableSave.MarkerMattersIff`).
- PACK can lose a memo from the reader's view: a four-byte reference reads as none when its bytes are
  all 0x20 or 0x00, block 32 for one (`MemoPack.Block32ReadsAsNone`, `MemoPack.PackLosesBlock32`). A
  memo reads as before exactly when it is empty, its field is not four bytes wide, or its new block
  number is not of that kind. The new block number is the room of the memos before it, counted in the
  table as it was (`MemoPack.MemoBlock`, `MemoPack.PackKeepsContents`).
- PACK refuses a table with a dBASE III memo that holds a lone end marker, in a text field, although
  that memo reads well (`MemoPack.LoneMarkerCannotBePacked`); it succeeds exactly on a packable table
  (`MemoPack.Pack`).
- A commit that loses the manifest swap leaves its root behind. A later commit of another table with
  that generation number, stopped after its intent, makes every recovery fail, and with it every read
  and every commit, for good; cleanup keeps the intent (`EdgeStuck.StuckIsReachable`,
  `EdgeStuck.StuckForever`, `EdgeStuck.CleanupKeepsMismatch`). In a reachable state an intent fails to
  be read exactly when the root stored at its generation is not the one it promises
  (`EdgeStuck.PendingFailsIff`).
- A replication entry without a mutation would leave the stored log ahead of the catalog; validation
  refuses such entries (`Replication.InStepNeedsMutation`).
- A delta between two images of equal length and equal hash is taken for applied already
  (`ByteDelta.Apply`), and two such images of nine bytes exist (`ByteDelta.TwoImagesCollide`).
- Undo images that are not what the targets hold are what a rolled-back journal restores
  (`Journal.OverlayIsIdentity`).

## Model

| member | source | states |
|---|---|---|
| EdgePages.DescribedManifestIsValid | src/edge/page_manifest.rs:61-107 | a page manifest that a writer builds passes every reader's validation |
| EdgePages.ReadableReads | src/edge/pages.rs:254-298 | a generation whose root and pages are there reads back as the snapshot they were cut from |
| EdgeProtocol.NextManifest | src/edge/protocol.rs:147-162 | a successor manifest is valid and strictly newer than the valid one before it |
| EdgeProtocol.PutIfAbsent | src/edge/store.rs:273-287 | nothing stored is overwritten, and success means that the key holds this value |
| EdgeProtocol.SortByTarget | src/edge/object_store_async.rs:255-320 | recovery replays exactly the intents it found, in order of target generation |
| EdgeSafety.StepSafe | src/edge/object_store_async.rs:165-320 | every store call of a client in commit, recover or read keeps the invariant of store and clients, whatever the others do |
| EdgeSafety.RunSafe | src/edge/object_store_async.rs:165-320 | the invariant holds in every state of every run of any number of crashing clients |
| EdgeSafety.RunGrows | src/edge/object_store_async.rs:165-320 | along a run roots, pages, swaps and answers only accumulate |
| EdgeSafety.EncodedByItsWriter | src/edge/object_store_async.rs:165-253 | each published generation holds the snapshot of the client that put its root |
| EdgeSafety.HistoryIsReadable | src/edge/object_store_async.rs:165-320 | in every reachable state each generation of the manifest history has its root and all its pages and reads as its writer encoded it |
| EdgeSafety.SameSnapshot | src/edge/object_store_async.rs:168-253 | one root cannot be read as two different snapshots |
| EdgeSafety.ManifestOnlyAdvances | src/edge/object_store_async.rs:168-253 | every change of the manifest appends one newer generation to its history, so a base gets at most one successor |
| EdgeSafety.AnswersAreForever | src/edge/object_store_async.rs:168-253 | a table answered as committed is what every later state reads at its generation; no read fails and no intent is found not to follow |
| EdgeSafety.IntentsFollow | src/edge/object_store_async.rs:255-320 | in every reachable state an intent is valid, its base is at most the current generation, and its replay never meets the "no longer follows" error |
| EdgeStuck.PendingFailsIff | src/edge/object_store_async.rs:497-531 | in every reachable state an intent is valid, and reading its snapshot fails exactly when another root than it promises is stored at its generation |
| EdgeStuck.ReachedIsSound | src/edge/object_store_async.rs:165-320 | in every reachable state the store is sound, and all intents can be read exactly when none is mismatched |
| EdgeStuck.RecoverReached | src/edge/object_store_async.rs:255-320 | after any run a client on its own recovers exactly when no intent is mismatched |
| EdgeStuck.CleanupReached | src/edge/object_store_async.rs:322-376 | after any run a client on its own always cleans up, and every generation reads as before |
| EdgeStuck.StuckForever | src/edge/object_store_async.rs:255-320 | from a state with such an intent and no client past its first scan, the store never changes again and nobody is answered, whatever clients start, step and crash |
| EdgeStuck.CleanupKeepsMismatch | src/edge/object_store_async.rs:322-376 | cleanup leaves such an intent in place when it is based on the current generation |
| EdgeStuck.StuckIsReachable | src/edge/object_store_async.rs:165-320 | for any one-page tables of which two share a generation and differ in length, some run from the empty store ends in such a state, with the intent live |
| EdgeMaintenance.ObjectTable.FindComplete | src/edge/object_store_async.rs:255-269 | collects exactly the complete intents, and fails exactly on an invalid or unreadable one |
| EdgeMaintenance.ObjectTable.Replay | src/edge/object_store_async.rs:270-320 | advances the manifest over the intents in order and deletes just these, and succeeds exactly when the replay does |
| EdgeMaintenance.ObjectTable.Recover | src/edge/object_store_async.rs:255-320 | on success no complete intent is left and the manifest is the replay of those there were; on a sound store it succeeds exactly when every intent can be read, and keeps the store sound |
| EdgeMaintenance.ObjectTable.RecoverTwice | src/edge/object_store_async.rs:255-320 | a second recovery returns 0 and changes nothing |
| EdgeMaintenance.CompleteAreGone | src/edge/object_store_async.rs:255-320 | once the complete intents are deleted only incomplete ones remain |
| EdgeMaintenance.ReplaySucceeds | src/edge/object_store_async.rs:270-320 | replaying complete intents whose bases are not ahead of the manifest never fails, and every generation it adds has its root |
| EdgeMaintenance.ObjectTable.RetainHistory | src/edge/object_store_async.rs:328-342 | the retained objects are exactly the roots and pages of the history |
| EdgeMaintenance.ObjectTable.RetainIntents | src/edge/object_store_async.rs:343-360 | deletes exactly the intents with another base and retains what the others name |
| EdgeMaintenance.ObjectTable.CleanupOrphans | src/edge/object_store_async.rs:322-376 | keeps exactly the manifest, the live intents and what the history and they reach, and reports exactly what it removed; on a sound store it always succeeds and leaves it sound |
| EdgeMaintenance.CleanupIsInvisible | src/edge/object_store_async.rs:322-376 | every generation reads as before cleanup and every live intent is as recoverable as before |
| EdgeMaintenance.RetainedReadTheSame | src/edge/object_store_async.rs:128-163 | cutting the history and cleaning up after it changes no read of a kept generation or live intent, and makes every other generation read as absent |
| EdgeMaintenance.ObjectTable.RetainGenerations | src/edge/object_store_async.rs:128-163 | recovers, cuts the history to its last generations and cleans up exactly after it; a kept generation reads as after recovery, any other as absent, and live intents are as readable as before; keeping none is refused, and on a sound store it otherwise succeeds exactly when every intent can be read |
| Cascade.ChangesAreExact | src/catalog/constraint_actions.rs:167-194 | the parent changes are exactly those of rows whose key was given up |
| Cascade.ApplyAction | src/catalog/constraint_actions.rs:196-271 | an action that did nothing left no active row with the old key, unless it is NO ACTION |
| Cascade.CascadeFramed | src/catalog/constraint_actions.rs:62-165 | a cascade changes no table but those it reports, and keeps their first images |
| Cascade.CascadeIsFixpoint | src/catalog/constraint_actions.rs:62-271 | after any successful cascade no active child holds a given-up key under RESTRICT, CASCADE or SET NULL |
| Cascade.RunPass | src/catalog/constraint_actions.rs:86-150 | one scan over tables and foreign keys computes the pass |
| Cascade.ApplyActions | src/catalog/constraint_actions.rs:62-165 | the loops of the bounded scan compute the cascade that the lemmas are about |
| CascadeDelete.DeleteActs | src/catalog/constraint_actions.rs:196-271 | ON DELETE CASCADE deletes exactly the matching rows and acts exactly when there is one |
| CascadeDelete.PassesConverge | src/catalog/constraint_actions.rs:62-165 | when every key by which a row refers into the least closed set cascades, the scan ends with more passes than active rows, whatever the other keys do, and every deletion is in that set |
| CascadeDelete.FixpointIsClosed | src/catalog/constraint_actions.rs:62-165 | at the end every row that refers to a deleted row is deleted, when the keys involved cascade |
| CascadeDelete.DeleteCascadesExactly | src/catalog/constraint_actions.rs:62-271 | a DELETE whose involved keys are ON DELETE CASCADE converges within the pass limit and deletes exactly the least set closed under reference, in any table order and with any other keys in the catalog |
| ConstraintTiming.Validate | src/catalog/constraints.rs:175-267 | the validation loops accept exactly when every constraint they look at holds |
| ConstraintTiming.IncrementalIsFull | src/catalog/constraints.rs:160-267 | from a valid image, re-checking the changed tables is re-checking all |
| ConstraintTiming.DeferringWeakens | src/catalog/constraints.rs:50-158 | deferring more constraints never breaks one that is checked |
| ConstraintTiming.ApplyOperation | src/catalog/transaction.rs:469-535 | a statement, its cascade and its checks compute the mutation that the lemmas are about |
| ConstraintTiming.StepsStayConsistent | src/catalog/transaction.rs:425-454 | across any mutations and mode changes every constraint not deferred holds on all tables after each successful step |
| ConstraintTiming.CommitIsComplete | src/catalog/transaction.rs:571-593 | a commit leaves all constraints holding and writes every changed table |
| ConstraintTiming.CommitSatisfiesAll | src/catalog/transaction.rs:425-593 | a transaction that commits satisfies all constraints, deferred ones included |
| ConstraintTiming.CommitSteps | src/catalog/transaction.rs:297-593 | running the steps in order and committing computes that transaction, and fails when a step fails |
| Journal.OverlayIgnoresTargets | src/catalog/journal.rs:277-308 | what the journal puts in place does not depend on how far it had come |
| Journal.OverlayBackwards | src/catalog/journal.rs:292-303 | undoing in reverse and in order come to the same |
| Journal.OverlayIsIdentity | src/catalog/journal.rs:131-214 | rolling back restores the files exactly when the undo images are what they held |
| Journal.HasDuplicate | src/catalog/journal.rs:142-160 | refuses exactly the change lists that name a target twice |
| Journal.Catalog.ApplyImages | src/catalog/journal.rs:357-383 | a completed run puts every image in place; one cut short touched only targets |
| Journal.Catalog.RemoveJournal | src/catalog/journal.rs:310-317 | the manifest goes before the staged files, whatever is left of them |
| Journal.Catalog.RecoverLocked | src/catalog/journal.rs:277-308 | a recovery, complete or cut short anywhere, keeps what the disk recovers to, and a complete one is there with no journal left |
| Journal.Catalog.Stage | src/catalog/journal.rs:164-197 | both images of every change are staged whole before a manifest names them |
| Journal.Catalog.Decide | src/catalog/journal.rs:198-206 | from the prepared to the committed manifest the disk recovers to the old files, and from then on to the new ones; decided exactly when the committed manifest is the one on disk, and the manifests made durable are exactly known |
| Journal.Catalog.CommitFiles | src/catalog/journal.rs:131-214 | at every crash point the disk recovers to all new files exactly when a committed manifest was made durable in this call, else to the undo images or, if no manifest was, to the files untouched; an existing journal or a repeated target is refused with nothing changed |
| CatalogState.StateRoundTrip | src/catalog/journal.rs:225-260 | the state file stores exactly the positive 64-bit IDs |
| CatalogState.StateBytesAreCanonical | src/catalog/journal.rs:225-260 | what is read as an ID is that ID's only encoding |
| CatalogState.CommittedId | src/catalog/journal.rs:119-126 | the files of a committed transaction carry its ID |
| CatalogState.CommitAt | src/catalog/journal.rs:91-127 | the ID moves with the data at every crash point, exactly when a committed manifest became durable, and an ID that is zero or not newer is refused |
| CatalogState.Transact | src/catalog/journal.rs:56-90 | under the write lock a transaction commits under the next ID exactly when a committed manifest became durable, and otherwise leaves the recovered files as they were |
| CatalogState.Run | src/catalog/journal.rs:56-214 | over any transactions with crashes anywhere, recoveries included, the disk recovers to exactly the decided ones in order, and the ID counts them |
| Replication.Validate | src/replication.rs:606-643 | the scan accepts exactly the logs whose entries are valid, of the term and at consecutive positions |
| Replication.NextOpens | src/replication.rs:498-596 | after an entry the stored log is the longer one and ends at the catalog's ID |
| Replication.InStepNeedsMutation | src/replication/entry.rs:134-166 | log and catalog stay in step exactly when the entry holds a mutation |
| Replication.HistoryPrefix | src/replication.rs:209-246 | every prefix of an authority's history is one that opens |
| Replication.Replica.CommitSteps | src/catalog/transaction.rs:538-719 | steps, log and ID are committed in one journal transaction or not at all |
| Replication.Replica.ApplyNew | src/replication.rs:498-596 | commits only the next entry on a catalog in step with the log, and always does so unless interrupted |
| Replication.Replica.Receive | src/replication.rs:368-417 | an entry held already is acknowledged and not applied again; conflicts and gaps change nothing |
| Replication.Replica.Open | src/replication.rs:209-246 | yields exactly the stored or fresh log that matches the catalog's position |
| ReplicationRuns.HoldsSeen | src/replication.rs:388-400 | a follower holds exactly the entries it has seen, at their positions |
| ReplicationRuns.Deliver | src/replication.rs:368-417 | any entry of the authority, delivered at any time, is applied only when it is next, and then unless interrupted |
| ReplicationRuns.DeliverPage | src/replication.rs:423-440 | a page is delivered in order and stops at its first failure with the prefix in place |
| ReplicationRuns.ReopenAt | src/replication.rs:209-246 | after any crash an uninterrupted open succeeds at the durable prefix |
| ReplicationRuns.Follow | src/replication.rs:209-440 | over any pages, repeats, gaps, interruptions and restarts a follower's disk recovers after each event to a prefix of the authority's history that never shrinks, and an uninterrupted restart opens there |
| ReplicationRuns.EntryKeepsSteps | src/replication/entry.rs:45-87 | an entry runs exactly the steps proposed, in either entry version |
| ReplicationRuns.Propose | src/replication.rs:310-331 | whatever interrupts a proposal, the authority's disk recovers to its history or to the history with the entry |
| RowMvcc.ChangesForCommit | src/dbf/row_mvcc.rs:15-56 | the loop computes the snapshot that a commit stores |
| RowMvcc.StoredLast | src/dbf/row_mvcc.rs:15-56 | of each row a commit says its new state, or that it is gone with its epoch, or nothing if it did not change |
| RowMvcc.StoredMirrors | src/dbf/row_mvcc.rs:15-56 | if the changes so far mirror a snapshot, with the next commit they mirror the next one |
| RowHistory.ReadRow | src/dbf/row_mvcc.rs:89-114 | reads the last version at or before a transaction; zero arguments and absent transactions are errors |
| RowHistory.LatestIsLastIn | src/dbf/row_mvcc.rs:89-114 | a read sees exactly the changes up to its transaction, the last one winning |
| RowHistory.DeltasRefineSnapshots | src/dbf/row_mvcc.rs:15-114 | for any commits and forced epochs a read in a snapshot's epoch gives its row, none beyond it, and older epochs read as deleted or absent |
| RowHistory.RetainedRowsExact | src/dbf/mvcc.rs:132-196 | with kept older rows before it, a full snapshot still gives each of its rows |
| RowGc.DetachedHistory | src/dbf/row_mvcc.rs:124-155 | keeps exactly the newest versions of each row before the first retained snapshot |
| RowGc.KeptIsTruthful | src/dbf/row_mvcc.rs:124-155 | a read of kept rows finds the version it found before or none, and none only for rows with more versions than are kept |
| RowGc.CompactBuilds | src/dbf/row_mvcc.rs:58-70 | compaction keeps every image, rebuilds the changes between them as commits would, and does not fail |
| RowGc.CompactSnapshots | src/dbf/row_mvcc.rs:58-70 | rewrites the snapshots in place to the compacted ones |
| RowGc.DetachedReadsTruthful | src/dbf/mvcc.rs:132-196 | after collection a read at a transaction of kept rows is the answer from before or none, never another version |
| RowGc.BeyondRangeIff | src/dbf/mvcc.rs:132-196 | for an ID of a later epoch than a snapshot's, or beyond its rows, a read finds nothing exactly when no kept row has that ID |
| RowGc.OlderEpochIff | src/dbf/mvcc.rs:132-196 | for an ID of an older epoch a read finds a live row exactly when no snapshot up to then changes that ID and its last kept version is live |
| RowGc.NewestKept | src/dbf/row_mvcc.rs:124-155 | the newest version of every row is among the kept ones |
| RowGc.SnapshotReads | src/dbf/mvcc.rs:132-196 | after collection a read at a kept snapshot gives what the compacted snapshots say of the ID, and else what was last said before them |
| RowGc.ShrunkenRowReappears | src/dbf/mvcc.rs:132-196 | a shrunken table, collected, reads a live row where its snapshot has none |
| RowGc.HistoryFile.CommitSnapshot | src/dbf/mvcc.rs:46-99 | appends the snapshot built on the last one, and fails exactly when its epoch would pass 64 bits |
| RowGc.HistoryFile.Gc | src/dbf/mvcc.rs:132-196 | keeps the last snapshots compacted and the chosen rows, stays a valid history, answers truthfully at every transaction of kept rows, and says exactly what is read at the transaction of each kept snapshot |
| RowGcReads.CompactEpochs | src/dbf/row_mvcc.rs:58-70 | the epoch that compaction gives each snapshot, counted from the epochs and layouts before |
| RowGcReads.EpochsMeet | src/dbf/row_mvcc.rs:58-70 | new epochs are never ahead of the old ones, and once equal they stay equal |
| RowGcReads.OwnRowsIff | src/dbf/mvcc.rs:132-196 | a read of a snapshot's own row stays truthful exactly when its epoch keeps its number, or the row has no version before the kept snapshots, or that version is the same |
| RowGcReads.FirstEpochTruthful | src/dbf/mvcc.rs:132-196 | when the first kept snapshot is of the first epoch, every read at a kept snapshot gives the row from before or none |
| RowGcReads.AllTruthfulIff | src/dbf/mvcc.rs:132-196 | for a first collection whose first kept snapshot has a live row, all reads at kept snapshots stay truthful exactly when that snapshot is of the first epoch |
| RowGcReads.CollectedRowGoesBack | src/dbf/mvcc.rs:132-196 | three commits after whose collection a row ID reads as an older version at the last transaction |
| ByteDelta.New | src/dbf/wal_delta.rs:56-90 | patches are non-empty, ordered, disjoint and in bounds, hold the target's bytes, and cover exactly where base lacks or differs from it |
| ByteDelta.ApplyPatches | src/dbf/wal_delta.rs:207-224 | no check rejects the patches of a delta, and they turn base into target through growth and truncation |
| ByteDelta.Apply | src/dbf/wal_delta.rs:191-231 | gives target from base exactly when length or hash tells them apart, and leaves target as it is |
| ByteDelta.TwoImagesCollide | src/dbf/wal_delta.rs:191-231 | whatever the 64-bit hash, two different images of nine bytes are not told apart |
| ByteDelta.Encode | src/dbf/wal_delta.rs:93-115 | appends the stored form, and fails exactly when a count or length has no room |
| ByteDelta.ParseRoundTrip | src/dbf/wal_delta.rs:93-189 | a stored delta reads back, whatever follows it |
| ByteDelta.Decode | src/dbf/wal_delta.rs:162-189 | the cursor reads exactly what the grammar says, with its errors |
| ByteDelta.RoundTrip | src/dbf/wal_delta.rs:56-231 | made, stored, read and applied, a delta gives target from base and from target, with room for every target below 4 GiB |
| TableSave.OwnLogReads | src/dbf/recovery.rs:93-122 | what recovery finds in the log of one save is that save |
| TableSave.RepeatableIff | src/dbf/mvcc.rs:46-83 | preparing a committed snapshot again, as a recovery does, yields it exactly when it stores no change and the log has no layout marker |
| TableSave.FirstSaveIsNotRepeatable | src/dbf/mvcc.rs:46-83 | the first save of a table with rows is not repeatable, and can be left committed with its log there, where no recovery accepts it |
| TableSave.MarkerMattersIff | src/dbf/recovery.rs:108-236 | a save that a recovery completes under the markers in its log ends as the writer had it exactly when they are its own, or matter neither for the snapshot nor for the event |
| TableSave.LeftOverSticks | src/dbf/recovery.rs:108-236 | over a marker that a forced save left, an unforced save stopped after its event is stuck, and one stopped after its snapshot is prepared exactly when forcing an epoch matters |
| TableSave.StuckSaveExists | src/dbf/recovery.rs:108-151 | the second save of an empty file over such a marker is stuck once its snapshot is prepared |
| TableSave.DecidedAsSeen | src/dbf/recovery.rs:108-183 | a decided disk that is not stuck is one of the save as the recovery takes it |
| TableSave.EventIsNew | src/dbf/cdc.rs:145-182 | the event of a save is appended once and found afterwards |
| TableSave.TableFiles.Prepare | src/dbf/mvcc.rs:46-83 | a snapshot is prepared once, and a second one must equal it |
| TableSave.TableFiles.Install | src/dbf/persistence.rs:281-305 | from the logged table on, files, state, snapshot, event and log are completed, and a crash leaves a phase that can be; only a stuck disk is refused |
| TableSave.TableFiles.LogTable | src/dbf/persistence.rs:262-268 | until the table is in the log nothing else has changed |
| TableSave.TableFiles.Store | src/dbf/persistence.rs:198-305 | a save completes or a crash leaves one of the phases |
| TableSave.TableFiles.Redo | src/dbf/recovery.rs:115-151 | a logged table, whole or as a delta, is put in place from any mix of old and new files |
| TableSave.TableFiles.ReplayOperation | src/dbf/recovery.rs:153-236 | a logged operation is run again to the same table, event and ID, and refused exactly when a marker left in the log makes another event of it |
| TableSave.TableFiles.Recover | src/dbf/recovery.rs:80-236 | is refused only on a stuck disk, which no recovery completes and which stays stuck; otherwise it leaves the old disk with the log removed, the log of markers unchanged, or the completed save as it takes it |
| TableSave.StoreAndRestart | src/dbf/persistence.rs:198-305 | over a save and any number of recoveries that crash anywhere, also over a marker left in the log, the first to complete leaves wholly the old or wholly the new table with the transaction once in history and event log, on a disk where the next save can begin; none completes once the disk is stuck, and only then is one refused |
| TableSave.SavedIsClean | src/dbf/persistence.rs:198-305 | a completed save leaves a disk from which the next can start |
| SchemaExport.PartlyApplied | src/dbf/schema_export.rs:109-169 | with some targets replaced the export is still applicable, and to the same end |
| SchemaExport.ExportFiles.ApplyExport | src/dbf/schema_export.rs:109-187 | drives all targets to the desired content when each holds base or desired, and otherwise modifies none |
| SchemaExport.ExportFiles.Recover | src/dbf/schema_export.rs:78-107 | keeps what the disk will become at every crash point, refuses exactly an inapplicable journal, and treats a torn or missing record as nothing to do |
| SchemaExport.ExportFiles.CaptureBases | src/dbf/schema_export.rs:197-207 | the flags are exactly the targets that exist, each copied whole |
| SchemaExport.ExportFiles.AppendRecord | src/dbf/schema_export.rs:209-222 | the record is in the journal whole or not at all, and is there when this returns |
| SchemaExport.StagedGoal | src/dbf/schema_export.rs:44-76 | a complete journal leads to the export exactly when the index belongs to the table |
| SchemaExport.ExportFiles.Commit | src/dbf/schema_export.rs:44-76 | once the journal record is appended in this call the disk will become the export, if the index belongs to the table, and until then it stays at the old targets; it is refused only for an invalid pair or a foreign index |
| SchemaExport.ExportAndRestart | src/dbf/schema_export.rs:44-107 | over an export and any number of recoveries that crash anywhere, the targets end all exported exactly when the record was appended, and all old otherwise |
| Cdc.EventForTables | src/dbf/cdc.rs:40-75 | the loop computes the event between two images |
| Cdc.EventIsValid | src/dbf/cdc.rs:265-285 | every such event passes the log's validation |
| Cdc.EventLeadsAcross | src/dbf/cdc.rs:40-75 | an event leads from the image before to the image after, and back, through growth, shrinkage and reset |
| Cdc.ResetStandsAlone | src/dbf/cdc.rs:40-75 | a reset event leads to the image after from any image with no further rows |
| Cdc.AppendedTwice | src/dbf/cdc.rs:145-182 | appending keeps IDs strictly increasing, and again changes nothing |
| Cdc.EventLog.Append | src/dbf/cdc.rs:145-182 | appends, finds, or refuses a conflicting or older event, and never extends a log out of order |
| Cdc.ReadPage | src/dbf/cdc.rs:188-238 | a page is the next events and the cursor of the last, if more follow; bad sizes and unordered logs are errors |
| Cdc.PastMore | src/dbf/cdc.rs:213-238 | what follows a cursor is exactly the rest |
| Cdc.ReadAll | src/dbf/cdc.rs:184-238 | following cursors with any page sizes ends and yields exactly the unpaged log |
| MemoStore.StoredReads | src/dbf/memo_file.rs:74-151 | a block that holds a memo reads as that memo in all three formats |
| MemoStore.AppendedStores | src/dbf/memo_file.rs:222-258 | a new memo starts where the file ended, in whole blocks, and the header names the block after it |
| MemoStore.StoresKept | src/dbf/memo_file.rs:222-258 | an older memo stays where it was |
| MemoStore.MemoFile.AppendPayload | src/dbf/memo_file.rs:222-258 | appends in whole blocks and fails exactly when the next block passes 32 bits |
| MemoStore.MemoFile.Append | src/dbf/memo_file.rs:153-220 | succeeds exactly when the format can hold the data and the next free block fits 32 bits, stores it where the file ended, changes nothing for data the format cannot hold, and never loses an earlier byte |
| MemoStore.AppendAll | src/dbf/memo_file.rs:153-258 | each item goes to the block after those before it, counted in whole blocks; it reads back, none overlap, the header names the next free block, and the first item to fail is one that cannot be stored or has no room |
| MemoPack.PointerRoundTrip | src/dbf/memo_value.rs:38-59 | decimal references round-trip for every block, four-byte ones exactly when not all blank |
| MemoPack.Block32ReadsAsNone | src/dbf/memo_value.rs:38-59 | block 32 in four bytes reads as no memo |
| MemoPack.MovedKeepsContent | src/dbf/maintenance.rs:310-340 | a memo moved to a block reads as before exactly when it is empty, its field is not four bytes wide, or the block number is not all blank, and otherwise as empty |
| MemoPack.PackField | src/dbf/maintenance.rs:310-340 | succeeds exactly when the memo can be read and stored again with its reference, copies it byte for byte to the next block, and changes only its reference |
| MemoPack.PackRecord | src/dbf/maintenance.rs:299-352 | succeeds exactly when every memo of the record can be moved, moves each to the block its predecessors leave free, and keeps all other bytes |
| MemoPack.Pack | src/dbf/maintenance.rs:231-354 | succeeds exactly on a packable table; then it keeps exactly the surviving records in order, each non-empty memo whole at the block that the memos before it leave free |
| MemoPack.PackKeepsContents | src/dbf/maintenance.rs:231-354 | every memo of every surviving record reads as before exactly when it is empty, its field is not four bytes wide, or its block number, computed from the table before the pack, is not all blank; otherwise as empty |
| MemoPack.PackLosesBlock32 | src/dbf/maintenance.rs:231-354 | a table of 32 records with a one-block memo each can be packed, and its last memo then reads as empty |
| MemoPack.LoneMarkerCannotBePacked | src/dbf/maintenance.rs:310-340 | a dBASE III memo with an end marker inside reads well and cannot be moved as text |
| Calendar.CivilOfDays | src/dbf/codec_temporal.rs:101-131 | every integer is the day number of a real date, which leads back to it |
| Calendar.DaysOfCivil | src/dbf/codec_temporal.rs:101-131 | a date comes back from its day number exactly when it is real |
| Calendar.DayAfterIsNext | src/dbf/codec_temporal.rs:101-113 | the day after a real date in the Gregorian calendar has the next number |
| Calendar.EpochIsZero | src/dbf/codec_temporal.rs:101-113 | 1970-01-01 is day zero |
| TemporalCodec.AcceptedIff | src/dbf/codec_temporal.rs:7-78 | a datetime of the right shape is accepted exactly when its date is real and its fields are in range |
| TemporalCodec.DateTimeTextRoundTrip | src/dbf/codec_temporal.rs:7-99 | an accepted text comes back with a T between date and time |
| TemporalCodec.DateTimeBytesRoundTrip | src/dbf/codec_temporal.rs:7-99 | stored bytes with a text come back cut to whole seconds |
| TemporalCodec.CurrencyRoundTrip | src/dbf/codec_temporal.rs:133-218 | every 64-bit amount comes back from its text, the least included |
| TemporalCodec.CurrencyAcceptedIff | src/dbf/codec_temporal.rs:146-218 | an amount with four decimals is read exactly when it fits 64 bits |

## Left out

- HTTP, command line, WASM and WASI front ends, TLS and ETag headers: I/O around the modelled core.
- Raft mode, follower watermarks, snapshot installation and log compaction of replication.
- Query planning, joins, aggregation and indexes; the index sidecar is absent from the write-ahead log model.
- Text encodings and code pages.
- Encodings as JSON: manifests, intents, journal manifests, entries and events are values, and files are read as the value that was written.
- Object stores: legacy single-object roots and version-1 records, per-client limits, and store errors other than a conflict, which are crashes here. Cleanup racing with other clients is not modelled.
- Journal: targets are direct children by construction, so the path checks of src/catalog/journal.rs:143-156 have no counterpart; locks are taken as held.
- Cascade.ApplyActions: the pass limit does not saturate, because row counts here are unbounded integers.
- CascadeDelete.DeleteCascadesExactly: a key without parent fields, which the schema refuses (src/dbf/schema_metadata/constraints.rs:208-212), is left out.
- ConstraintTiming.Validate: constraints of a single table are an abstract predicate that weakens as more names are deferred.
- ConstraintTiming.ApplyOperation: the change to one table is an arbitrary function, so defaults, auto-increment and normalization of patches are inside it.
- Replication.Replica.CommitSteps: running steps is an abstract deterministic function from a catalog and steps to file images.
- ReplicationRuns.DeliverPage: the header fields of a page are not modelled; a page is any entries of the authority.
- RowHistory.ReadRow: the list of all versions of a row number (src/dbf/row_mvcc.rs:72-87) has no counterpart.
- RowGc.DetachedHistory: kept changes of one transaction stay in their stored order instead of being sorted by epoch and number, which no read can tell apart.
- RowGc.HistoryFile.Gc: the history file is the rows and snapshots read from it; its record encoding is left out, and its replacement is one rename.
- ByteDelta.Apply: the hash is an arbitrary function, so nothing is said about how often two images collide.
- TableSave.TableFiles.Store: the merge of disjoint rows, constraint checks and the check that the table is still the one that was loaded are left out; transaction IDs and epochs do not run out; a delta record stands for its base and target, which ByteDelta relates.
- TableSave.TableFiles.Recover: logs without a transaction ID next to a table, written by older versions, are left out.
- SchemaExport.ExportFiles.Commit: the journal record is the set of targets that had a base, not its eight bytes.
- Cdc.EventLog.Append: records that are not events are left out.
- MemoPack.Pack: records are byte sequences on their own; the header, the end marker and the decoded values kept beside them are left out.
- Calendar.CivilOfDays: day numbers are unbounded integers; overflow of 64-bit arithmetic at their ends is left out.
- TemporalCodec.CurrencyRoundTrip: text is ASCII, and trimming knows ASCII whitespace only.
