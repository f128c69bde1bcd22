# vxcore bundled notebooks: a verified model

This project models the stateful core of vxcore, the notebook engine behind VNote, and proves what it
promises. A *bundled* notebook keeps one `vx.json` per folder (an index with ids, names, order, tags and
attachments), the note content beside it, and a SQLite store that mirrors the index and is filled lazily.
`dafny verify dfyconfig.toml` checks everything.

The files abstract as follows: a directory tree is a map from paths to contents; a `vx.json` is a typed record,
`Torn` when a write was cut short; the store is a pair of maps from ids to rows; clocks, id generation, the
success of a system call and the answers of the outside world are parameters or arbitrary choices.

| file | what it holds |
|---|---|
| `Records.dfy`, `Collections.dfy`, `Sublists.dfy`, `Text.dfy` | records, errors, duplicate-free sequences, what is left of a list, strings |
| `MetadataStore.dfy` | the row store: foreign keys, insert-only writes, cascading deletes |
| `StagedTree.dfy`, `ImportRows.dfy` | flattening a staged bundle into rows; the import transaction |
| `ImportMachine.dfy` | the import and its recovery as a step machine that may crash anywhere |
| `ImportGuarantees.dfy`, `BundledImport.dfy` | what every run guarantees; the import as the program runs it |
| `AttachedTree.dfy` | what an attached import has made of the config tree, its ids and the store |
| `LeftOverJournals.dfy` | recovery over all the journals that several imports have left |
| `LazySync.dfy`, `FetchedTree.dfy` | the lazy config cache and the store mirror; how far a fetch goes |
| `FolderTree.dfy`, `NodeWalk.dfy` | the folder tree reachable from the root, its ids, grafting and pruning; the id walk |
| `FolderCopy.dfy`, `TreeEdits.dfy` | create, move and copy of folders and files |
| `Reorder.dfy`, `SharePaths.dfy` | reordering children; the reachability walk before sharing |
| `TagForest.dfy`, `FileTags.dfy`, `NotebookTags.dfy`, `TagSync.dfy` | the tag forest, its operations over runs, its mirror in the store |
| `Snippets.dfy`, `SymbolExpansion.dfy`, `IsoWeek.dfy` | snippet marks and indentation, the `%name%` loop and its caret, ISO weeks |
| `SymbolSubstitution.dfy` | what the loop computes when the names it meets have fixed replacements |
| `Session.dfy`, `Buffer.dfy`, `Activity.dfy`, `History.dfy` | session records, external-change detection and backups, activity counters, recent files |

## How the import is modelled

`ImportMachine.Step` is one atomic action of the program: a journal write, a rename, a row insert, a commit, the
writing of the temporary index file, its rename over the old one, a removal. `Crash` may happen between any two
steps and inside every step that is not atomic (a torn journal, a half-removed directory). Four kinds of fault can be
switched on besides: journal writes that return with a torn file, a restore of the parent's index that fails (and
leaves it torn or as it was), recursive deletes that give up quietly, and deletes of rows that fail unnoticed. `Inv`
holds in every state of every run, whatever faults are on. The class `BundledImport.BundledFolderManager` runs the
protocol with every outcome left open, and its methods' contracts say that it only ever makes steps of the machine, so
the theorems about runs apply to it. Where a theorem says that the store is as before, it speaks of folder and file
rows; the names that an import adds to the tag table stay.

## Where the code gives less than its documentation

* `include/vxcore/vxcore.h` promises that a failure before the index write leaves no trace. Failures after the store
  commit (src/core/bundled_folder_manager.cpp:2471-2474 and 2482-2486) roll back the disk and keep the rows; a failure
  of the first journal write (2387-2390) returns without rollback and can leave a readable journal in the staging
  directory. `ImportGuarantees.RollbackIsExact` says exactly what each failure leaves, `LateFailureKeepsRows` and
  `FailedFirstWriteLeavesJournal` give the runs. The next open replays such a journal, which puts the saved bytes back
  over the parent's index, whatever the user has added to it since (`ReplayOverwritesIndex`).
* The admission checks accept a file that lists a tag twice, and the tag table then rejects it: an import can succeed
  if and only if the condition of `ImportSucceedsExactlyWhen` holds; `RepeatedTagDefeatsImport` is the smallest failing
  bundle. The lazy mirror writes such a list as far as the repetition and loses the tags behind it
  (`StoredTagsStopAtRepetition`); the row has the config's tags if and only if none repeats (`MirroredTagsExactlyWhen`).
* Recovery ends in the old or the new tree if and only if the parent's index can be restored (or was never to change),
  no journal write is cut short and no delete gives up (`AtomicExactlyWhen`). Journal writes truncate in place: with
  torn journals or failing deletes the reachable tree is still old or new (`TornJournalsKeepTheReachableTree`), but
  unreachable directories can stay behind (`TornJournalLeavesOrphans`, `FailedRemovalsLeaveOnlyOrphans`). A restore
  that fails may leave the new index over what recovery has deleted (`FailedRestoreKeepsNewIndex`).
* Recovery ignores whether its deletes of rows succeed, and nothing rebuilds the rows on open
  (src/core/bundled_notebook.cpp:147-149), although a comment in the recovery says so. Tree and rows together end old
  or new if and only if these deletes do not fail either (`OldOrNewExactlyWhen`, `FailedRowDeletesKeepRows`).
* A reported import lasts if and only if deletes do not give up (`DurableExactlyWhen`): when the last journal write and
  the removal of the staging directory both fail, the next open takes the import back. Journals of earlier failed
  imports can do so too: over any history of imports, recovery from all left journals keeps every reported import if
  and only if no left journal conflicts with it, that is shares its parent or an id
  (`LeftOverJournals.RecoveryKeepsExactlyWhen`); `RetriedImportIsTakenBack` is the nearest failure.
* Recovery deletes rows by id. It is invisible if and only if the store had no row of those ids before the import
  (`CleanupRestoresExactlyWhenIdsAbsent`).
* The lazy mirror empties the attachments of every row that it rewrites: a file keeps them if and only if its folder was
  not stale or its row said what the config says (`AttachmentsStayExactlyWhen`).
* `UpdateFileTags` admits duplicates and `DeleteTag` erases one occurrence: a file is cleaned up if and only if the
  condition of `DeleteCleansFileExactlyWhen` holds; `DuplicateTagSurvives` is the smallest failing case.
* Expansion stops after 100 replacements at one position and after 1000 pairs. `ExpansionIs` says what it computes for
  every content; that is the whole substitution if and only if no pair of a known name lies behind the point where a
  budget runs out (`ExpansionIsOnePassExactlyWhen`). 100 known pairs among 1000 are always within the budgets
  (`ExpansionIsOnePass`), and so is every content with fewer than 202 `%` (`FewPercentsAreOnePass`); 101 pairs that
  vanish are not (`OneHundredPairsIsTheLimit`), nor is a known pair behind 1000 others (`OneThousandPairsIsTheLimit`).
* A reordering keeps every file record if and only if it leaves the order of the files as it is or no two records of
  one name differ (`OutcomeKeepsFilesExactlyWhen`); `DuplicateNameLosesARecord` is a failing case.
* When two session records of one root both load, the first stays in the list but the open notebook carries the
  read-only flag of the last that opens the same id. The list tells the flags rightly if and only if the two agree
  (`LiveFlagsExactlyWhen`, `FlagOfTheDuplicateIsLive`).
* A check for external changes misses a change that keeps the time stamp, and only that (`CheckIsRightExactlyWhen`).
* A backup gives the content back if and only if the path has no `|` (`BackupRoundTripExactlyWhen`).
* A file's activity counts are complete if and only if every recorded touch of its paths names the file at the flush
  that follows it (`CountsAreCompleteExactlyWhen`, `UnresolvedIsLost`).

## Model

| member | source | states |
|---|---|---|
| `ImportGuarantees.CrashAtomicity` | src/core/bundled_folder_manager.cpp:2366-2600 | without torn journals and failing deletes (of files, and of rows that a commit has written), after any number of crashes in the import and in its recoveries, one completed recovery leaves index, content, metadata and folder and file rows as before the import or as after it; only a failure after the store commit may leave the committed rows |
| `ImportGuarantees.TornJournalsKeepTheReachableTree` | src/core/bundled_folder_manager.cpp:2059-2082 | with journals cut short at any write and deletes that give up anywhere, what the index reaches after recovery is still the old tree or the complete new one |
| `ImportGuarantees.RollbackIsExact` | src/core/bundled_folder_manager.cpp:2394-2487 | every failing branch restores the index and the cached parent; the store is the old one if nothing failed after its commit, and else the old one plus exactly the bundle's rows; unless deletes give up, both targets are gone, and the staging directory is gone too except when the very first journal write failed, where it may hold a readable journal |
| `ImportGuarantees.SuccessIsComplete` | src/core/bundled_folder_manager.cpp:2477-2502 | a successful import has published everything, its rows are committed and, unless deletes give up, no journal is left |
| `AttachedTree.IndexKeepsTheParent` | src/core/bundled_folder_manager.cpp:2477-2481 | the new index keeps the parent's id, name, time of creation, metadata, file records and children, and has one more child, last |
| `AttachedTree.AttachedIsGraft` | src/core/bundled_folder_manager.cpp:2409-2488 | the notebook's config tree after an attached import is the old one with the published configs grafted in under the destination |
| `AttachedTree.AttachedIds` | src/core/bundled_folder_manager.cpp:2329-2364 | so after an admitted import all ids of the tree are distinct, and exactly the bundle's have joined them |
| `AttachedTree.AttachedRowsMirror` | src/core/bundled_folder_manager.cpp:2440-2463 | after an attached import the store's rows of every folder and file of the bundle say what its config says, with parent, tags and attachments |
| `AttachedTree.CollectGathersAll` | src/core/bundled_folder_manager.cpp:2285-2327 | the flattening has a row for every folder in reach, under its parent, and for each of its files, with all their fields, tags and attachments |
| `ImportGuarantees.RecoveryIsIdempotent` | src/core/bundled_folder_manager.cpp:2505-2600 | after a completed recovery in which no delete gave up, opening, crashing and recovering again never change the disk |
| `ImportGuarantees.ImportSucceedsExactlyWhen` | src/core/bundled_folder_manager.cpp:2366-2502 | the successful end state can be reached if and only if the store knows the destination and none of the ids, and no file of the bundle lists a tag twice; a successful import adds exactly the bundle's rows |
| `ImportGuarantees.AtomicExactlyWhen` | src/core/bundled_folder_manager.cpp:2505-2600 | every completed recovery ends in the old or the new tree if and only if the parent's index was read before it was journaled (or the import cannot get so far as to change it), its restore cannot fail, no journal write is cut short and no delete gives up |
| `ImportGuarantees.DurableExactlyWhen` | src/core/bundled_folder_manager.cpp:2488-2499 | a reported import survives every later crash and recovery if and only if no delete gives up (or the import cannot succeed at all): when the last journal write and the removal of the staging directory both fail, the next open takes the import back |
| `ImportGuarantees.FailedRemovalsLeaveOnlyOrphans` | src/core/bundled_folder_manager.cpp:2098-2109 | with deletes that give up, recovery still leaves the index as before the import, with the old rows untouched, or all of it as after the import; unlisted files and, if deletes of rows fail, rows of the bundle's ids are all that may stay behind |
| `ImportGuarantees.OldOrNewExactlyWhen` | src/core/bundled_folder_manager.cpp:2558-2590 | every completed recovery ends with tree and rows together old or new (or with the rows of a late failure) if and only if the conditions for the tree hold and the deletes of rows, whose results the program ignores, do not fail (or there is no commit for them to take back) |
| `ImportGuarantees.FailedRowDeletesKeepRows` | src/core/bundled_folder_manager.cpp:2568-2569 | a run with failing row deletes: recovery ends in the old tree with all rows of the bundle in the store |
| `ImportGuarantees.FailedRestoreKeepsNewIndex` | src/core/bundled_folder_manager.cpp:2573-2585 | a run whose restore cannot open the index: recovery leaves the new index over targets and rows that it has deleted |
| `ImportGuarantees.FailedFirstWriteLeavesJournal` | src/core/bundled_folder_manager.cpp:2387-2390 | a run in which the first journal write fails after its bytes are on disk: the import is reported as failed and its journal stays |
| `ImportGuarantees.ReplayOverwritesIndex` | src/core/bundled_folder_manager.cpp:2573-2585 | from any state with such a journal, replay reaches the disk without targets and recorded rows, with the saved bytes put back over whatever the parent's index holds by then |
| `ImportGuarantees.UnsavedIndexBreaks` | src/core/bundled_folder_manager.cpp:2573-2585 | without the saved index, a run whose recovery leaves the index naming a folder that it deleted |
| `ImportGuarantees.TornJournalLeavesOrphans` | src/core/bundled_folder_manager.cpp:2528-2534 | a run with a torn journal that recovers with published directories still in place and the index old |
| `ImportGuarantees.LateFailureKeepsRows` | src/core/bundled_folder_manager.cpp:2471-2474 | a run that fails after the commit and ends with the bundle's rows in the store and nothing on disk |
| `ImportGuarantees.ReachesRecovered` | src/core/bundled_folder_manager.cpp:2505-2600 | what a finished recovery of the running program means, by the faults admitted: the journal is gone, the index decides, index and rows are old or new, or all of it is |
| `LeftOverJournals.RecoveryKeepsExactlyWhen` | src/core/bundled_folder_manager.cpp:2505-2600 | over every history of imports, recovery from all the journals that are left, in any order, keeps each reported import (listed, with its files, configs and rows) if and only if no uncommitted journal shares an id, or the parent (and, where its index was not saved, the name), with an import reported at the same time or later |
| `LeftOverJournals.WithoutConflictNothingChanges` | src/core/bundled_folder_manager.cpp:2505-2600 | without such a conflict, recovery from all left journals changes nothing at all |
| `LeftOverJournals.ConflictUndoes` | src/core/bundled_folder_manager.cpp:2551-2586 | a conflicting journal undoes the reported import whatever state it is replayed on |
| `LeftOverJournals.RetriedImportIsTakenBack` | src/core/bundled_folder_manager.cpp:2387-2390 | the nearest failure: an import fails and leaves its first journal, is tried again and reported, and the next open takes it back |
| `LeftOverJournals.Recovery.RecoverImports` | src/core/bundled_folder_manager.cpp:2517-2600 | the loop over the staging directories replays every readable journal that has not committed, in the order found, discards the others and counts the readable ones |
| `LeftOverJournals.ReplayIsReached` | src/core/bundled_folder_manager.cpp:2551-2590 | one replay on the notebook is a recovery of the import machine |
| `LeftOverJournals.AttachedRows` | src/core/bundled_folder_manager.cpp:2440-2469 | when the machine has attached an import, every id of the bundle has a row and all other rows are the old ones, as the histories assume |
| `ImportMachine.InvStep` | src/core/bundled_folder_manager.cpp:2366-2600 | the protocol invariant is kept by every step and by a crash inside every step |
| `ImportMachine.InvRun` | src/core/bundled_folder_manager.cpp:2366-2600 | the protocol invariant holds after every run of steps, failures, crashes and recoveries |
| `ImportMachine.ForwardStep` | src/core/bundled_folder_manager.cpp:2409-2488 | each forward step leaves the disk in a state its journal phase can be undone from |
| `ImportMachine.RecoverKeepsInv` | src/core/bundled_folder_manager.cpp:2541-2590 | each replay step keeps what the journal promises to undo |
| `ImportMachine.CrashFromForward` | src/core/bundled_folder_manager.cpp:2409-2488 | a crash before the commit point leaves a journal from which recovery can go back |
| `ImportMachine.CrashFromRecovery` | src/core/bundled_folder_manager.cpp:2541-2590 | a crash inside recovery leaves a state recovery can start from again |
| `BundledImport.AdmittedBundle` | src/core/bundled_folder_manager.cpp:2216-2364 | an admitted bundle is well formed, its ids are pairwise distinct across folders and files and new to the notebook, and the name is free |
| `BundledImport.AdmittedExactlyWhen` | src/core/bundled_folder_manager.cpp:2216-2364 | a bundle is admitted if and only if the notebook is writable, the name safe and free, the staging complete and named so, the destination readable, the targets free, the staged tree sound, and its ids distinct and new |
| `BundledImport.RefusedWith` | src/core/bundled_folder_manager.cpp:2216-2364 | the code of each refusal, the first failing check deciding |
| `BundledImport.RepeatedTagDefeatsImport` | src/db/file_db.cpp:823-867 | the folder A with the file B tagged t, t passes every admission check, and no run of its import succeeds |
| `BundledImport.BundledFolderManager.CheckAdmission` | src/core/bundled_folder_manager.cpp:2216-2364 | runs the admission checks in the program's order, with the program's error for each |
| `BundledImport.BundledFolderManager.AttachImportedFolder` | src/core/bundled_folder_manager.cpp:2214-2502 | refuses without a trace, or ends in a state of a machine run: attached with both staged trees published, the bundle's rows in the store and one more child in an otherwise unchanged parent, rolled back with the store fixed by whether the failure was late, or crashed |
| `BundledImport.BundledFolderManager.PublishBundle` | src/core/bundled_folder_manager.cpp:2394-2438 | journal and the two renames: each outcome is a run of machine steps |
| `BundledImport.BundledFolderManager.CommitBundle` | src/core/bundled_folder_manager.cpp:2440-2488 | transaction, journal and index replacement: each outcome is a run of machine steps |
| `BundledImport.BundledFolderManager.RunTransaction` | src/core/bundled_folder_manager.cpp:2440-2468 | the inserts and the commit, each of which may fail or crash, make steps of the machine |
| `BundledImport.BundledFolderManager.SaveParentAtomic` | src/core/bundled_folder_manager.cpp:2115-2159 | the index is replaced by one rename of a complete temporary file, or not at all; the new one has one more child and is otherwise the parent's |
| `BundledImport.BundledFolderManager.Rollback` | src/core/bundled_folder_manager.cpp:2394-2407 | undoes the transaction and the two publications in reverse order |
| `BundledImport.BundledFolderManager.RecoverImports` | src/core/bundled_folder_manager.cpp:2505-2600 | replays whatever journal it finds; a completed replay ends as far in the old or the new state as the faults admitted allow, and counts a readable journal once |
| `MetadataStore.CleanupRestoresExactlyWhenIdsAbsent` | src/core/bundled_folder_manager.cpp:2558-2571 | deleting the recorded ids gives the old store back if and only if it had no row of these ids |
| `MetadataStore.DeleteNodesKeepsBase` | src/core/bundled_folder_manager.cpp:2558-2571 | the cascade never takes along a row that was there before the import |
| `MetadataStore.DeleteNodesRemoves` | src/core/bundled_folder_manager.cpp:2558-2571 | no row of a recorded id survives the cleanup |
| `MetadataStore.DeleteFolderIs` | src/db/db_schema.h:27-48 | a folder delete takes along exactly the folders that have it among their parents, and their files; foreign keys are kept |
| `MetadataStore.StoredTagsAreTheListExactlyWhen` | src/db/file_db.cpp:823-867 | the tags written for a file are its list, one for one, if and only if the list has no repetition |
| `MetadataStore.StoredTagsStopAtRepetition` | src/db/file_db.cpp:823-867 | the tags written are those before the first repetition; the ones behind it are lost |
| `ImportRows.InsertsExactlyTheBundle` | src/core/bundled_folder_manager.cpp:2440-2463 | the insert-only statements all succeed and add exactly the bundle's rows when the parent is known, the ids are new and no file lists a tag twice |
| `ImportRows.AllRowsGoInExactlyWhen` | src/db/sqlite_metadata_store.cpp:385-413 | the statements all succeed if and only if the parent is known, the ids are new and no file lists a tag twice |
| `ImportRows.TransactionExtendsBase` | src/core/bundled_folder_manager.cpp:2440-2463 | every prefix of the statements only adds rows of the bundle's ids |
| `ImportRows.KeysAreRecorded` | src/core/bundled_folder_manager.cpp:2440-2463 | every row the transaction writes has an id that the journal records |
| `StagedTree.CollectIsWellGathered` | src/core/bundled_folder_manager.cpp:2285-2327 | the flattened rows have each parent before its children, every file in a listed folder and no empty id |
| `StagedTree.Collector.Walk` | src/core/bundled_folder_manager.cpp:2285-2327 | the recursive walk that appends to one accumulator computes the flattening, with the program's errors |
| `NodeWalk.IdCollector.Walk` | src/core/bundled_folder_manager.cpp:2161-2212 | gathers exactly the non-empty ids in reach of the root, skips missing and unsafe children, and fails exactly on a missing root or an unreadable config in reach |
| `NodeWalk.CollectHasId` | src/core/bundled_folder_manager.cpp:2285-2327 | the flattening lists an id if and only if some folder or file of the staged tree has it |
| `NodeWalk.CollectOkExactlyWhen` | src/core/bundled_folder_manager.cpp:2285-2327 | the flattening accepts a staged tree if and only if every folder in reach has an id, gives its files ids and lists safe names of readable configs only |
| `NodeWalk.DistinctBundleIsUnique` | src/core/bundled_folder_manager.cpp:2347-2364 | distinct gathered ids mean that no two folders or files of the staged tree share an id |
| `NodeWalk.AttachAddsExactlyTheBundle` | src/core/bundled_folder_manager.cpp:2329-2364 | attaching an admitted bundle keeps all ids distinct and adds exactly the staged ids |
| `FolderTree.GraftIds` | src/core/bundled_folder_manager.cpp:2477-2488 | hanging a tree with new ids under a folder keeps ids distinct and adds exactly its ids |
| `FolderTree.GraftAddsOneChild` | src/core/bundled_folder_manager.cpp:2477-2488 | the parent of a graft gets one more child, last, and keeps all else but its time |
| `FolderTree.PruneIds` | src/core/bundled_folder_manager.cpp:803-808 | cutting off a subtree splits the ids in two disjoint parts |
| `FolderTree.ReachInGraft` | src/core/bundled_folder_manager.cpp:2161-2212 | below the graft exactly the grafted tree is reachable |
| `FolderTree.ReachInPrune` | src/core/bundled_folder_manager.cpp:2161-2212 | after pruning exactly the rest is reachable |
| `TreeEdits.NewFolderIds` | src/core/bundled_folder_manager.cpp:362-382 | a created folder adds its id and nothing else |
| `TreeEdits.AddFileIds` | src/core/bundled_folder_manager.cpp:1119-1130 | a created file adds its id and nothing else |
| `TreeEdits.MoveFileIds` | src/core/bundled_folder_manager.cpp:1668-1695 | moving a file record conserves the ids |
| `TreeEdits.MoveIsPruneAndGraft` | src/core/bundled_folder_manager.cpp:789-815 | renaming the config directory and editing the two lists cuts the subtree off and grafts it at the destination |
| `TreeEdits.PruneAndGraftMoves` | src/core/bundled_folder_manager.cpp:789-815 | path by path: the first entry of the name leaves the old parent's list, the new parent has one more child, last, all configs below move along and nothing else changes |
| `TreeEdits.MoveFolderIds` | src/core/bundled_folder_manager.cpp:789-815 | moving a folder conserves the ids and keeps them distinct |
| `TreeEdits.CopyIsGraft` | src/core/bundled_folder_manager.cpp:1053-1073 | listing a processed copy in its parent grafts it, and adds exactly the new ids |
| `TreeEdits.OnlyListedIsGraft` | src/core/bundled_folder_manager.cpp:1053-1073 | what a copy leaves, all as it was but the new folder and its entry in the parent's list, is the old tree with the new one grafted in |
| `TreeEdits.CopyMirrorsSource` | src/core/bundled_folder_manager.cpp:833-975 | each folder of the copy is the source's config without the entries that have no content, under new ids and times, the root under its new name |
| `TreeEdits.FolderEditor.CreateFolder` | src/core/bundled_folder_manager.cpp:320-400 | on success the parent has one more child, the new config has the id, name and times and is empty, its row is in the store and nothing else has changed, so the tree is grafted and ids stay distinct; it is refused exactly when a check fails, with that check's code, and changes nothing then |
| `TreeEdits.FolderEditor.CreateFile` | src/core/bundled_folder_manager.cpp:1079-1144 | on success the folder lists the new record last, its row is in the store, nothing else has changed and ids stay distinct; it is refused exactly when a check fails, with that check's code, and changes nothing then |
| `TreeEdits.FolderEditor.MoveFile` | src/core/bundled_folder_manager.cpp:1536-1717 | the first record of the name leaves one folder and is the last of the other, unchanged but for its time, and nothing else changes; the ids are conserved; it is refused exactly when a check fails, with that check's code |
| `TreeEdits.FolderEditor.MoveFolder` | src/core/bundled_folder_manager.cpp:719-831 | the folder leaves one list and joins the other, all configs below move along and nothing else changes; the ids are conserved; it cannot go into itself; it is refused exactly when a check fails, with that check's code |
| `TreeEdits.FolderEditor.CopyFolder` | src/core/bundled_folder_manager.cpp:977-1077 | on success a fresh copy is grafted in, its rows mirror it in the store up to repeated tags, all ids stay distinct and the rest of the tree is untouched; a failing check refuses it with its code and without a trace |
| `TreeEdits.FolderEditor.ProcessCopiedFolderTree` | src/core/bundled_folder_manager.cpp:833-975 | gives the folder tree fresh ids, keeps names, order, tags, attachments and metadata, drops entries without content, writes mirroring rows; a child listed twice is processed twice, the second time as a copy of its copy; a missing config below is an error |
| `TreeEdits.FolderEditor.RenewRecords` | src/core/bundled_folder_manager.cpp:844-898 | one new id per folder and file record in order, everything else but the times is kept |
| `TreeEdits.FolderEditor.WriteRows` | src/core/bundled_folder_manager.cpp:945-960 | the store gains exactly the rows of this folder and its files, each file's tags as far as its list goes without repetition |
| `FolderCopy.AllPartsFinished` | src/core/bundled_folder_manager.cpp:962-971 | a renewed folder and its finished children make a finished tree: fresh, isomorphic and mirrored |
| `FolderCopy.TrimmedDropsTheMissing` | src/core/bundled_folder_manager.cpp:859-895 | exactly the entries whose content did not arrive are dropped; the others stay in their order and as often as they were listed |
| `FolderCopy.StaysFinished` | src/core/bundled_folder_manager.cpp:962-971 | processing one subfolder does not undo another |
| `LazySync.ConfigCache.GetFolderConfig` | src/core/bundled_folder_manager.cpp:281-318 | terminates in any order of calls, answers with the config on disk, caches it, and keeps the store the result of syncing exactly the fetched folders; every stale folder that it syncs has all its listed children with readable configs cached and synced when the outermost call ends, and nothing is cached but the folder, those above it and such children |
| `LazySync.ConfigCache.GetParentFolderId` | src/core/bundled_folder_manager.cpp:2602-2618 | returns the parent config's id, with the parent's row in the store before the child needs it |
| `LazySync.ConfigCache.SyncFolderToStore` | src/core/bundled_folder_manager.cpp:2620-2676 | a stale folder ends up with exactly its config's file rows and names, with each tag list up to its first repetition, and is followed into all its listed children; a folder that is not stale is left alone |
| `LazySync.ConfigCache.SyncChildren` | src/core/bundled_folder_manager.cpp:2660-2673 | every listed child with a readable config is cached afterwards, and whatever that fetch syncs is followed in turn |
| `FetchedTree.FetchRoot` | src/core/bundled_folder_manager.cpp:281-318 | the first fetch of the root caches and syncs exactly the folders in reach of it through the lists of stale folders; from an empty store that is every folder in reach, and its rows and its files' rows then say what its config says |
| `FetchedTree.SyncedByTime` | src/core/bundled_folder_manager.cpp:2630-2658 | a synced folder's row is left alone if it is at least as new as the config, and else says what the config says |
| `LazySync.ConfigCache.SyncFilesToStore` | src/core/bundled_folder_manager.cpp:67-120 | the folder's file rows become exactly the config's, tags up to the first repetition of a list; a row keeps its attachments if it was this folder's and said what the config says, and has none otherwise; a row of this folder keeps its time of creation; orphans are deleted, rows of other files stay |
| `LazySync.AttachmentsStayExactlyWhen` | src/core/bundled_folder_manager.cpp:94-118 | over a run of fetches, the row of a fetched folder's file keeps its attachments if and only if the folder was not stale, the row was this folder's with the config's name, time and metadata, or there were none |
| `LazySync.MirroredTagsExactlyWhen` | src/core/bundled_folder_manager.cpp:103-118 | a mirrored file has the tags of its config, one for one, if and only if the config lists none of them twice |
| `LazySync.ConfigCache.DeleteOrphans` | src/core/bundled_folder_manager.cpp:82-92 | deletes exactly the listed rows that the config does not have |
| `LazySync.FetchedOneMore` | src/core/bundled_folder_manager.cpp:2620-2676 | one more synced folder extends the run: stale folders mirror their configs, new rows hang on their parent's row, all else is unchanged |
| `LazySync.FilesSyncedKeepsForeignKeys` | src/core/bundled_folder_manager.cpp:67-120 | syncing a folder's files keeps every file row in an existing folder |
| `Reorder.SortsAgreeExactlyOnPermutations` | src/core/bundled_folder_manager.cpp:3734-3770 | sorting both lists and comparing accepts exactly the permutations |
| `Reorder.RecordsSurviveExactlyWhen` | src/core/bundled_folder_manager.cpp:3799-3813 | picking the first record of each submitted name keeps the multiset of full file records if and only if no two records of one name differ |
| `Reorder.OutcomeKeepsFilesExactlyWhen` | src/core/bundled_folder_manager.cpp:3772-3814 | an accepted reordering keeps every file record if and only if it leaves the order of the files as it is, or no two records of one name differ |
| `Reorder.DuplicateNameLosesARecord` | src/core/bundled_folder_manager.cpp:3799-3813 | with two different records of one name an accepted order can lose one |
| `Reorder.OutcomeHasSubmittedOrder` | src/core/bundled_folder_manager.cpp:3772-3814 | the result has the submitted order and a new time, keeps all else, takes the first record of each name and, with one record per name, every record; an order that changes nothing leaves the config as it is |
| `Reorder.FolderOrder.SetChildrenOrder` | src/core/bundled_folder_manager.cpp:3681-3836 | permutations are applied and announced with the arrays that changed; anything else, and a no-op, leaves config and events alone |
| `Reorder.IsPermutation` | src/core/bundled_folder_manager.cpp:3737-3770 | accepts exactly the permutations |
| `SharePaths.ProveReachable` | src/api/vxcore_folder_api.cpp:902-957 | accepts a path when no component is at fault, and else reports the first fault, each code with what is wrong |
| `SharePaths.AcceptedExactlyWhenReachable` | src/api/vxcore_folder_api.cpp:902-957 | a path is accepted if and only if it is reachable through the index, listed once and real at every step |
| `SharePaths.CountFolderChild` | src/api/vxcore_folder_api.cpp:787-799 | counts the occurrences of a name |
| `TagForest.CreateKeepsForest` | src/core/notebook.cpp:385-415 | creating a tag keeps names unique, parents defined and chains acyclic |
| `TagForest.PathCreatedIsThere` | src/core/notebook.cpp:417-447 | all components of a path are tags afterwards, old tags stay as they were, new ones hang under the component before them |
| `TagForest.MoveKeepsForest` | src/core/notebook.cpp:518-569 | a move that passes the parent walk keeps the forest |
| `TagForest.DeleteKeepsForest` | src/core/notebook.cpp:449-516 | deleting a subtree keeps the forest and removes exactly the tag and its descendants |
| `TagForest.ForestHasNoCycle` | src/core/notebook.cpp:544-554 | in a forest no tag is below its own parent chain |
| `NotebookTags.ForestOverRuns` | src/core/notebook.cpp:385-569 | over every run of tag operations names stay unique, parents defined and chains acyclic |
| `NotebookTags.FilesTaggedOverRuns` | src/core/notebook.cpp:449-516 | over every run whose tag lists have no duplicates, every file's tags stay defined and duplicate-free |
| `NotebookTags.DeleteTagCleansEverything` | src/core/notebook.cpp:461-507 | the tag and its descendants vanish from the vector and from every file, and every other tag survives in order |
| `NotebookTags.CollectSubtree` | src/core/notebook.cpp:461-475 | the worklist ends and holds exactly the tag and its descendants, each once |
| `NotebookTags.Notebook.CreateTag` | src/core/notebook.cpp:385-415 | accepted if and only if the notebook is writable, the name new and the parent defined; appends exactly that tag, and refuses with the code of the first failing check and without a trace |
| `NotebookTags.Notebook.CreateTagPath` | src/core/notebook.cpp:417-447 | creates the path, or a prefix of it when a write fails |
| `NotebookTags.Notebook.MoveTag` | src/core/notebook.cpp:518-569 | accepted if and only if tag and parent are defined and the parent is not below the tag; gives exactly that tag the new parent, and refuses with the code of the first failing check and without a trace |
| `NotebookTags.Notebook.HasAncestor` | src/core/notebook.cpp:544-554 | the walk up ends, and finds the tag exactly when it is an ancestor |
| `NotebookTags.Notebook.DeleteTag` | src/core/notebook.cpp:449-516 | takes exactly the tag and its descendants from the vector and from every file with defined and unrepeated tags; all else stays in order; a refusal changes nothing |
| `NotebookTags.Notebook.CleanFiles` | src/core/notebook.cpp:477-498 | every file's list is shortened as the erase loop does it |
| `NotebookTags.Notebook.UpdateFileTags` | src/core/bundled_folder_manager.cpp:1256-1314 | accepted if and only if the file exists and all tags are defined; that file has exactly these tags then and nothing else changes |
| `NotebookTags.Notebook.TagFile` | src/core/bundled_folder_manager.cpp:1316-1364 | accepted if and only if the tag is defined and the file lacks it; that file has its old tags and then the new one, and nothing else changes |
| `NotebookTags.Notebook.UntagFile` | src/core/bundled_folder_manager.cpp:1366-1410 | accepted if and only if the file has the tag; that file has lost the first occurrence of it, and that alone, and nothing else changes |
| `NotebookTags.NonEmptyIsTheRest` | src/core/notebook.cpp:417-447 | a tag path's components are the non-empty pieces between the slashes, in order |
| `FileTags.DeleteCleansFileExactlyWhen` | src/core/notebook.cpp:480-495 | a file loses exactly the deleted tags if and only if it lists none of them, or each at most once with all its other tags defined |
| `FileTags.DuplicateTagSurvives` | src/core/notebook.cpp:483-489 | a tag listed twice survives its own deletion |
| `FileTags.EraseOneMore` | src/core/notebook.cpp:483-489 | the erase loop takes out one occurrence of every deleted tag, in any order |
| `TagSync.ComputeDepths` | src/core/notebook.cpp:229-251 | the fixpoint ends and holds the true depth of every tag |
| `TagSync.SortedWritesMirror` | src/core/notebook.cpp:253-278 | in any order sorted by depth every parent is written before its children, and the store then has each tag under its own parent |
| `TagSync.SortedIsParentsFirst` | src/core/notebook.cpp:253-264 | any depth-sorted order has parents first |
| `TagSync.DeleteOrphanKeepsMirror` | src/core/notebook.cpp:280-292 | the cascade of an orphan never takes a tag of the vector along |
| `TagSync.TagMirror.SyncTagsToMetadataStore` | src/core/notebook.cpp:195-321 | a sync that succeeds leaves for every tag a row with its own parent and metadata, and with all orphans deleted the store's tags are the vector's; a failed one leaves the store alone; a skipped one had nothing to write |
| `SymbolSubstitution.ExpansionIsOnePass` | src/core/snippet_manager.cpp:629-727 | with at most 100 pairs of known names among at most 1000 pairs, and fixed %-free replacements for the names that occur, the iterated rewriting is the left-to-right substitution |
| `SymbolSubstitution.ExpansionIs` | src/core/snippet_manager.cpp:629-727 | for any content whose own names have fixed %-free replacements, the result is the left-to-right substitution of the part the two budgets reach, followed by the rest unchanged |
| `SymbolSubstitution.ExpansionIsOnePassExactlyWhen` | src/core/snippet_manager.cpp:715-722 | that is the substitution of the whole content if and only if no pair of a known name lies behind the point where a budget runs out |
| `SymbolSubstitution.PassTakesPercents` | src/core/snippet_manager.cpp:629-727 | every known pair costs the text its two % characters |
| `SymbolSubstitution.FixedNamesResolve` | src/core/snippet_manager.cpp:664-694 | overrides, constant callbacks and unindented text snippets without %, and unknown names, meet the hypothesis of the substitution theorems |
| `SymbolSubstitution.CaretFollowsItsText` | src/core/snippet_manager.cpp:706-713 | a caret outside the pairs ends right behind what the loop makes of the text before it, whether or not a budget runs out |
| `SymbolSubstitution.CaretInsideAPair` | src/core/snippet_manager.cpp:706-713 | a caret strictly inside a pair ends in front of what replaces the pair; it keeps its place in a pair that is unknown or beyond the budgets' reach |
| `SymbolExpansion.CaretStaysWithin` | src/core/snippet_manager.cpp:629-727 | for arbitrary lookups, self-referring or time-dependent, the caret never leaves the text and an unset caret stays unset |
| `SymbolSubstitution.FewPercentsAreOnePass` | src/core/snippet_manager.cpp:629-727 | with fixed replacements without % for the names that occur, a content with fewer than 202 % characters is expanded to its left-to-right substitution |
| `SymbolSubstitution.OneHundredPairsIsTheLimit` | src/core/snippet_manager.cpp:715-722 | 202 are too many: the text of 101 pairs that all vanish keeps its last one |
| `SymbolSubstitution.OneThousandPairsIsTheLimit` | src/core/snippet_manager.cpp:629-727 | a known pair behind n unknown ones is replaced if and only if n is less than 1000 |
| `SymbolSubstitution.OnePassSplits` | src/core/snippet_manager.cpp:629-727 | cutting a text outside its pairs cuts its substitution |
| `SymbolExpansion.ExpandSymbols` | src/core/snippet_manager.cpp:629-727 | the in-place loop with its two limits ends and computes the expansion |
| `SymbolExpansion.ApplyMarksAndExpand` | src/core/snippet_manager.cpp:580-599 | marks, then symbols; the caret is unset or within the text |
| `Snippets.ReplaceAll` | src/core/snippet_manager.cpp:437-446 | exchanges the marks found left to right, never one that a replacement brought in |
| `Snippets.IndentedLines` | src/core/snippet_manager.cpp:457-481 | the first line and an empty last line stay, every other line is indented, none is added or lost |
| `Snippets.IndentLines` | src/core/snippet_manager.cpp:457-481 | the loop computes the indented text |
| `Snippets.ApplySnippetRaw` | src/core/snippet_manager.cpp:448-501 | indents, cuts at the first cursor mark and exchanges selection marks on both sides; the caret stands between the halves |
| `Snippets.CaretSplitsContent` | src/core/snippet_manager.cpp:483-500 | with no selection mark and nothing indented, text before the caret, mark and text behind it are the content, and no mark stands before the caret |
| `Snippets.MarksAreExchanged` | src/core/snippet_manager.cpp:483-500 | the template reads left pieces, cursor mark, right pieces with the selection mark between the pieces of each side; the text before the caret is the left pieces with the selection between them, the text behind it the right ones |
| `Snippets.IndentationIsTheBlanks` | src/core/snippet_manager.cpp:612-627 | the indentation is all the leading blanks of the line that holds the position |
| `Snippets.ExtractIndentation` | src/core/snippet_manager.cpp:612-627 | returns the leading blanks of the line |
| `Snippets.LineStartsBehindNewline` | src/core/snippet_manager.cpp:613-620 | the line starts behind the last newline before the position |
| `Text.PiecesDecompose` | src/core/snippet_manager.cpp:437-446 | taking a text apart at its marks and joining it gives it back, and no piece holds a mark |
| `Text.SplitFinds` | src/core/snippet_manager.cpp:437-446 | searching on from a position finds the first mark of the rest |
| `IsoWeek.IsoWeekIsTheWeekOfItsThursday` | src/core/snippet_manager.cpp:39-84 | for every year, day and weekday the number is the week of that week's Thursday, between 1 and 53 |
| `IsoWeek.SameWeekSameNumber` | src/core/snippet_manager.cpp:39-84 | all seven days from Monday to Sunday have one number, also across a year's end |
| `IsoWeek.NextWeekNextNumber` | src/core/snippet_manager.cpp:39-84 | the next week has the next number, or number 1 where the ISO year ends |
| `Session.ReconciledRoots` | src/core/notebook_manager.cpp:28-139 | at most one record per root, and no root lost |
| `Session.UnchangedExactlyWhen` | src/core/notebook_manager.cpp:134-138 | the list stays as it is if and only if each root has one record and no id is stale |
| `Session.ReconcileIsIdempotent` | src/core/notebook_manager.cpp:28-139 | a second run changes nothing |
| `Session.ScanIsReconciled` | src/core/notebook_manager.cpp:44-132 | the loop's slots are the first loadable record of each root, healed, or else its first phantom, in order of first occurrence |
| `Session.ReconciledIs` | src/core/notebook_manager.cpp:44-132 | which record stands where, position by position: leading positions in order, each with the first record of its root that loads, healed, or else as it is |
| `Session.FlagOfTheDuplicateIsLive` | src/core/notebook_manager.cpp:69-113 | the smallest failure: of two loadable records of one root the first is kept in the list and the second one's flag is live |
| `Session.LiveFlagsExactlyWhen` | src/core/notebook_manager.cpp:70-113 | every kept record tells the open notebook's read-only flag if and only if each loadable record that is the first of its root agrees with the last record that opens the same notebook |
| `Session.OpenedIsLast` | src/core/notebook_manager.cpp:70-112 | the open notebook of an id is the one of the last record that opens it |
| `Session.NotebookManager.LoadOpenNotebooks` | src/core/notebook_manager.cpp:28-139 | the list becomes one record for each root, where the root's first record was: the first of the root's records that loads, under its notebook's id, or the first of all if none does; reports a change exactly when the list differs |
| `Session.UpdateLeavesOneMatch` | src/core/notebook_manager.cpp:419-447 | appended to the records left, a record is the only one with its id and the only one with its cleaned root; one record per root is kept |
| `Session.NotebookManager.UpdateNotebookRecord` | src/core/notebook_manager.cpp:419-447 | the list becomes exactly the records that have neither the id nor the cleaned root of the new one, each in its place, and then the new one, which alone has its id and alone has its root |
| `Session.NotebookManager.CloseNotebook` | src/core/notebook_manager.cpp:277-314 | the list becomes exactly the records that have neither the notebook's id nor its cleaned root, each in its place |
| `Session.NoMatchNoChange` | src/core/notebook_manager.cpp:426-431 | without a match nothing is removed |
| `Sublists.RestIsUnique` | src/core/notebook_manager.cpp:426-431 | keeping exactly the records without a match, in order, determines the list |
| `Buffer.FlagsAreRightAfterEveryCheck` | src/core/buffer.cpp:381-445 | over any run of disk changes and checks each check flags missing or changed exactly when that is so |
| `Buffer.CheckIsRight` | src/core/buffer.cpp:381-445 | one check flags rightly and keeps the buffer in step with its stamp |
| `Buffer.CheckedDoes` | src/core/buffer.cpp:381-445 | case by case: a buffer never loaded is left alone, a failed save stays flagged unless the file is missing or changed, and the stamp follows a file of the same lines |
| `Buffer.SameLinesExactlyWhenNormalizedEqual` | src/core/buffer.cpp:26-41 | two byte strings compare equal if and only if they have the same lines, whatever ends them |
| `Buffer.CheckIsRightExactlyWhen` | src/core/buffer.cpp:381-445 | for any buffer that checks at all, one check flags rightly if and only if the file is gone, has another time stamp, or holds the buffer's lines |
| `Buffer.BackupRoundTripExactlyWhen` | src/core/buffer.cpp:125-235 | recovery reads the backed-up content out of the file if and only if the path has no vertical bar |
| `Buffer.NormalizeEol` | src/core/buffer.cpp:26-41 | the loop turns CRLF and lone CR into LF |
| `Buffer.Buffer.LoadContent` | src/core/buffer.cpp:276-323 | a successful load puts the buffer in step with the file; a failed one flags it missing |
| `Buffer.Buffer.SaveContent` | src/core/buffer.cpp:325-369 | a successful save writes the content and its stamp; a failed one touches no other file |
| `Buffer.Buffer.CheckExternalChanges` | src/core/buffer.cpp:381-445 | does one check against the file as it is |
| `Buffer.Buffer.FileContentMatchesBuffer` | src/core/buffer.cpp:447-472 | true exactly when file and buffer agree up to line endings |
| `Buffer.Buffer.WriteBackup` | src/core/buffer.cpp:125-164 | writes header and content beside the file |
| `Buffer.Buffer.RecoverBackup` | src/core/buffer.cpp:174-235 | content back in buffer and file and the backup gone, or the backup still there |
| `Activity.CountsAreCompleteExactlyWhen` | src/core/activity_manager.cpp:186-196 | a file's flushed counts are what was recorded for its paths less what strayed, and all of it if and only if every recorded touch of the paths names the file at the flush that follows it |
| `Activity.NothingElseHappens` | src/core/activity_manager.cpp:186-196 | at any time, credited, still pending and strayed add up to what was recorded |
| `Activity.RecordIsKept` | src/core/activity_manager.cpp:104-160 | each recording call keeps persisted plus pending equal to everything recorded |
| `Activity.TotalsCount` | src/core/activity_manager.cpp:104-160 | a day's counters are the number of its creations, of its reads and of its saves and edits, and the sum of its positive focus times |
| `Activity.FlushIsKept` | src/core/activity_manager.cpp:169-218 | a flush moves everything pending into the rows and credits files by what their paths then resolve to |
| `Activity.UnresolvedIsLost` | src/core/activity_manager.cpp:186-196 | the smallest loss: a record whose path does not resolve at its flush is not made up for later |
| `Activity.ActivityManager.FlushLocked` | src/core/activity_manager.cpp:169-218 | afterwards nothing is pending and every counter of every day is what was recorded |
| `Activity.ActivityManager.GetDay` | src/core/activity_manager.cpp:220-227 | a query sees everything recorded up to now |
| `Activity.ActivityManager.GetFileCount` | src/core/activity_manager.cpp:238-245 | a query sees every record at a path that resolves to the file |
| `Activity.ActivityManager.OnFileSaved` | src/core/activity_manager.cpp:104-128 | one edit of the day and one editing touch of the file are counted, and nothing else |
| `Activity.ActivityManager.OnFileCreated` | src/core/activity_manager.cpp:104-128 | one created note of the day is counted, and nothing else |
| `Activity.ActivityManager.AddFocusTime` | src/core/activity_manager.cpp:130-136 | a positive amount is added to the day's focus time, and nothing else |
| `Activity.ActivityManager.RecordRead` | src/core/activity_manager.cpp:138-148 | one read of the day and one reading touch of the file are counted, and nothing else |
| `Activity.ActivityManager.RecordEdit` | src/core/activity_manager.cpp:150-160 | one edit of the day and one editing touch of the file are counted, and nothing else |
| `History.BoundedIsFirstFifty` | src/core/history_manager.cpp:50-79 | after any sequence of opens the bounded list is the first fifty of the unbounded one |
| `History.FullIsMostRecentFirst` | src/core/history_manager.cpp:50-79 | the unbounded list has every opened file once, with the time of an open that no later open of it follows, latest first |
| `History.HistoryStore.RecordFileOpen` | src/core/history_manager.cpp:50-79 | removes, prepends and cuts; a refused write leaves the old list |
| `History.HistoryStore.ClearHistory` | src/core/history_manager.cpp:81-86 | empties the list or leaves it |
| `BundledImport.BundledFolderManager.WriteJournalFile` | src/core/bundled_folder_manager.cpp:2372-2390 | a journal write succeeds, fails or crashes, and leaves the new journal, the old one or a torn one, as the machine allows |
| `BundledImport.BundledFolderManager.Publish` | src/core/bundled_folder_manager.cpp:2410-2432 | one rename publishes the whole directory or nothing |
| `BundledImport.BundledFolderManager.InsertRows` | src/core/bundled_folder_manager.cpp:2440-2463 | inserts in order and stops at the first row that is rejected |
| `BundledImport.BundledFolderManager.InsertRow` | src/core/bundled_folder_manager.cpp:2441-2447 | a row goes in as the insert-only store allows, else the import fails with the store's code; a file that lists a tag twice is rejected |
| `BundledImport.BundledFolderManager.CommitTransaction` | src/core/bundled_folder_manager.cpp:2465-2469 | the commit makes all rows durable or none |
| `BundledImport.BundledFolderManager.Protocol` | src/core/bundled_folder_manager.cpp:2366-2502 | every way through the steps ends attached, rolled back or crashed, in a state the machine reaches |
| `BundledImport.BundledFolderManager.Undo` | src/core/bundled_folder_manager.cpp:2551-2586 | replay of an uncommitted journal removes targets, rows and the index entry, or crashes |
| `ImportGuarantees.ReachesOutcome` | src/core/bundled_folder_manager.cpp:2366-2502 | every reported success is complete, and every reported failure is rolled back: the store old or, if late, with the bundle's rows, the staging directory gone or left by the failed first write |
| `TreeEdits.FolderEditor.MoveConfigs` | src/core/bundled_folder_manager.cpp:793-815 | the config directory and the two lists end up as cut off and grafted |
| `TreeEdits.FolderEditor.ProcessChildren` | src/core/bundled_folder_manager.cpp:962-971 | all subfolders are finished copies with ids of their own, in ranges that do not overlap |
| `TreeEdits.FolderEditor.RenewFolder` | src/core/bundled_folder_manager.cpp:836-960 | the folder's own config and rows are renewed, or nothing is |
| `NotebookTags.Notebook.EraseTags` | src/core/notebook.cpp:500-507 | erasing found tags one by one leaves the vector without them, in order |
| `NotebookTags.Shorten` | src/core/notebook.cpp:480-489 | one occurrence of every deleted tag is erased, and a change is noticed |
| `TagSync.DepthPass` | src/core/notebook.cpp:240-251 | one round learns a true depth, or there is nothing more to learn |
| `TagSync.TagMirror.DeleteOrphans` | src/core/notebook.cpp:280-292 | deletes rows that no tag has, and keeps the mirror |
| `TagSync.TagMirror.WriteAll` | src/core/notebook.cpp:266-278 | writes the tags in the given order or stops |
| `SymbolExpansion.Resolve` | src/core/snippet_manager.cpp:664-694 | overrides, then callbacks, then text snippets with the indentation of the line |
| `SymbolExpansion.NextPair` | src/core/snippet_manager.cpp:643-653 | the next two % characters are the first pair of the rest |
| `Snippets.SplitAtMark` | src/core/snippet_manager.cpp:483-491 | cuts at the first cursor mark |
| `LazySync.ConfigCache.SyncOwnRows` | src/core/bundled_folder_manager.cpp:2620-2676 | the folder row is created under its parent or updated when stale |
| `LazySync.ConfigCache.CacheConfig` | src/core/bundled_folder_manager.cpp:202-205 | the folder is cached and in flight until its sync is done |
| `LazySync.ConfigCache.ClearCache` | src/core/bundled_folder_manager.cpp:1937 | an empty cache starts a new run from the store as it is |
| `Session.OpenedAre` | src/core/notebook_manager.cpp:56-113 | the open notebooks are exactly those some record loads |
| `Activity.ActivityManager.FlushFiles` | src/core/activity_manager.cpp:186-196 | every pending count goes to the file its path resolves to, or is dropped |
| `Activity.ActivityManager.FlushDaily` | src/core/activity_manager.cpp:177-184 | every pending daily count is added to its row |
| `History.RecordedTake` | src/core/history_manager.cpp:50-79 | cutting before recording and cutting after it come to the same |

## Left out

- A failed save in the tree edits: the contracts of `TreeEdits.FolderEditor` say nothing about the tree after an I/O error in the middle of an operation, because the program leaves memory and disk apart there.
- TreeEdits.FolderEditor.CreateFolder: the name is one path component; the program accepts a name with a separator unchecked. After a failed write the half-made folder may be listed without a config; not stated.
- TreeEdits.FolderEditor.CreateFile: the name is one path component; the program accepts a name with a separator unchecked.
- TreeEdits.FolderEditor.CopyFolder: the new name is one path component; the program accepts a name with a separator unchecked. Asset directories, link rewriting and linked files are not modelled, only ids, index records and rows; copying a folder into itself ends in an I/O error, as the endless directory copy of the program does.
- TreeEdits.FolderEditor.MoveFolder: assumes that the paths it is given name indexed folders; configs that nothing lists are outside the id theorems. The update of the row in the store, with its own clock and cycle check, is not modelled.
- TreeEdits.FolderEditor.MoveFile: the update of the row in the store is not modelled.
- LazySync.ConfigCache.GetFolderConfig: store writes succeed but for a tag list that repeats a tag; any other failed write, which the program only logs, is not modelled.
- BundledImport.BundledFolderManager.RecoverImports: one staging directory per recovery, under all faults; the loop over all of them is `LeftOverJournals.Recovery.RecoverImports`, without faults.
- LeftOverJournals.RecoveryKeepsExactlyWhen: the histories consist of imports, a failed one leaves tree and store as they were (no late failure), the store has no rows but those of the tree, and recovery itself neither fails nor crashes. What a replay does to other edits of the parent made since is `ImportGuarantees.ReplayOverwritesIndex`.
- BundledImport.BundledFolderManager.AttachImportedFolder: events and their handlers are left out. Folders other than the destination are not part of the import's state, since no step touches them.
- ImportGuarantees.CrashAtomicity: assumes that the store has no row of the imported ids before the import (the admission check looks at the index, not at the store), that the journal holds the parent's bytes if the import can get so far as to change them, that the write which restores them does not fail, and that the deletes of files and rows do what they are asked to; the program only logs or ignores these failures and discards the journal. `AtomicExactlyWhen` and `OldOrNewExactlyWhen` say what that costs. The rows of the tag table that an import or a rolled back one adds for new tag names are not part of the store of the model; recovery leaves them.
- NotebookTags.Notebook.DeleteTag: the files are given in the order of the tree walk, and the rows of their tags in the store are not modelled.
- NotebookTags.Notebook.CreateTagPath: reading the path text is taken from the splitting of strings at '/', empty components dropped.
- TagSync.TagMirror.SyncTagsToMetadataStore: rows that tie files to tags are not modelled; `std::sort` is any depth-sorted order in the lemmas and an insertion sort in the method.
- UpdateNotebookConfig may overwrite the whole tag vector and is not one of the operations of a run.
- SymbolSubstitution.ExpansionIs: a name whose replacement depends on the indentation of its line, on the time or on the selection has no fixed replacement; for such names only `SymbolExpansion.CaretStaysWithin` holds.
- SymbolExpansion.ExpandSymbols: lengths are unbounded integers; the program keeps the caret offset in an int.
- Buffer.Buffer.CheckExternalChanges: a file that exists can be read; the time stamp is compared in milliseconds by the program.
- Session.NotebookManager.LoadOpenNotebooks: opening a notebook is a fixed answer per root (bundled) or per root and id (raw); what opening does on disk is not modelled.
- Activity.ActivityManager.FlushLocked: the store's writes succeed; the display path of a file row and renames, which only change it, are left out.
- RenameFolder, DeleteFolder, recycle bin, raw notebooks, sync, search and templates: not modelled. Rename and delete do not keep the cache coherent below the renamed folder.
- JSON text, SQLite, UTF-8 paths, fsync and rename retries: abstract steps that succeed, fail or crash. A torn file is one that does not parse.
- The sibling calls that import or index existing directories (ImportFolder, IndexNode) use the same creation steps and would add easy members.
