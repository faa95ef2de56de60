# FSFS commit engine, format-10 admin area and JUnit logger of SVNKit, in Dafny

This project models three parts of SVNKit, the Java implementation of Subversion.

**The FSFS commit engine** (`FSCommitter`). It edits a transaction's tree of revision nodes:
- delete a node;
- change a node property;
- make a file or a directory;
- copy a node, with or without history.

Each edit first makes the path mutable by cloning its nodes into the transaction. Each edit logs a change record. The engine keeps each directory's count of merge-info-carrying nodes in step with the edit. It checks locks. When the transaction is out of date, it merges the transaction's root against the youngest revision: a three-way directory merge with the base revision as ancestor. Then it commits, and retries if another writer published in the meantime.

**The working-copy administrative area of format 10** (`SVNAdminArea16`):
- the text form `peg:revision:path` of a file external kept in an entry, and its reading back;
- the location of a file external relative to the repository root;
- the count of empty fields when an entry is written;
- the tree conflicts recorded on the directory's own entry.

**The JUnit-style result logger of the test harness** (`JUnitTestLogger`):
- the rendering of elapsed milliseconds as seconds;
- the result file name of a suite;
- the per-suite test and failure counters.

Layout:
- `results.dfy`: `Option` and `Result`.
- `decimal.dfy`: digit strings and their values (Java's `Long.toString`).
- `text.dfy`: `IndexOf`.
- `junit_logger.dfy`: module `JUnitLog`.
- `admin_area16.dfy`: module `AdminArea16`.
- `fs_types.dfy`: module `FsTypes`, the node identities, revision nodes, change records, locks and errors.
- `fs_locks.dfy`: module `FsLocks`, the lock checks.
- `fs_merge.dfy`: module `FsMerge`, the outcome of a directory merge (`DirMerged`), its merge-info increment (`MergeInc`), when a merge goes through (`MergeClean`, with the nodes it rewrites, `MergeWrites`) and the loop invariants of the merge.
- `fs_store.dfy`: module `FsStore`. It holds the `Repository` and `Transaction` classes and the pure definitions the engine is specified with: path walks, clone and copy nodes, merge-info count shifts, the three-way entry rule and the folding of the change log.
- `fs_committer.dfy`: module `FsCommitter`, the class `Committer` with one method per engine operation.

The repository's node store is a map from node identity to revision node. Every operation keeps the invariant `Committer.Valid`:
- the transaction root is a transaction node in the store;
- transaction-local node and copy numbers are below the next ones to be handed out;
- a committed directory names only committed nodes.

Every operation keeps `Preserves(old, new)`, which is copy-on-write isolation: no node disappears and no committed node changes.

## Model

| member | source | states |
|---|---|---|
| JUnitLog.TimeString | svnkit-test/src/main/java/org/tmatesoft/svn/core/test/JUnitTestLogger.java:118-125 | a decimal text longer than three characters gets a point before its last three; a shorter one is prefixed by "0." as is |
| JUnitLog.TimeStringFaithfulFromOneSecond | svnkit-test/src/main/java/org/tmatesoft/svn/core/test/JUnitTestLogger.java:118-125 | from 1000 ms on, the rendered seconds read back as exactly the milliseconds given |
| JUnitLog.TimeStringShortValueMisread | svnkit-test/src/main/java/org/tmatesoft/svn/core/test/JUnitTestLogger.java:123-124 | 5 ms is rendered "0.5", which reads back as 500 ms |
| JUnitLog.TimeStringPadded | svnkit-test/src/main/java/org/tmatesoft/svn/core/test/JUnitTestLogger.java:118-125 | the rendering with the fraction padded to three digits reads back as the milliseconds for every value |
| JUnitLog.SuiteFileName | svnkit-test/src/main/java/org/tmatesoft/svn/core/test/JUnitTestLogger.java:145-147 | the file name is "TEST-", then the suite name, then ".xml" |
| JUnitLog.SuiteFileNameInjective | svnkit-test/src/main/java/org/tmatesoft/svn/core/test/JUnitTestLogger.java:133-147 | two suites with the same result file are the same suite |
| JUnitLog.TestNumber | svnkit-test/src/main/java/org/tmatesoft/svn/core/test/JUnitTestLogger.java:22 | a test number in the "000" pattern has at least three digits and reads back as the number |
| JUnitLog.FailedCountBound | svnkit-test/src/main/java/org/tmatesoft/svn/core/test/JUnitTestLogger.java:50-65 | failures never exceed tests; they are equal exactly when every recorded test failed |
| JUnitLog.JUnitTestLogger.StartSuite | svnkit-test/src/main/java/org/tmatesoft/svn/core/test/JUnitTestLogger.java:42-48 | a new suite starts with no records, zero counters and both clocks at the start time |
| JUnitLog.JUnitTestLogger.HandleTest | svnkit-test/src/main/java/org/tmatesoft/svn/core/test/JUnitTestLogger.java:50-65 | one record is appended with its name, elapsed time, failure flag and output (kept only for a failed test); the counters keep describing the records |
| AdminArea16.AsString | svnkit/src/main/java/org/tmatesoft/svn/core/internal/wc/admin/SVNAdminArea16.java:188-199 | HEAD and non-negative numbers have a text without ':' (the number's digits); every other revision is an illegal-parameter error |
| AdminArea16.SerializeExternal | svnkit/src/main/java/org/tmatesoft/svn/core/internal/wc/admin/SVNAdminArea16.java:175-186 | no path gives no text; with a path, the text exists exactly when both revisions are storable |
| AdminArea16.RevisionOfAsString | svnkit/src/main/java/org/tmatesoft/svn/core/internal/wc/admin/SVNAdminArea16.java:216-233 | parsing the text of a storable revision gives back the revision |
| AdminArea16.ExternalRoundTrip | svnkit/src/main/java/org/tmatesoft/svn/core/internal/wc/admin/SVNAdminArea16.java:175-214 | reading back a stored file external restores path, peg revision and revision, even for a path containing ':' |
| AdminArea16.ParseRevision | svnkit/src/main/java/org/tmatesoft/svn/core/internal/wc/admin/SVNAdminArea16.java:216-233 | without a ':' the buffer is untouched and the result is an error; otherwise the revision before the first ':' is returned and the buffer keeps what follows it |
| AdminArea16.UnserializeExternal | svnkit/src/main/java/org/tmatesoft/svn/core/internal/wc/admin/SVNAdminArea16.java:201-214 | no text gives undefined revisions and no path; a text is read as peg, revision, then the rest as the path, and an error is reported when a ':' is missing |
| AdminArea16.FileExternalLocation | svnkit/src/main/java/org/tmatesoft/svn/core/internal/wc/admin/SVNAdminArea16.java:96-114 | no URL clears the fields; otherwise the path is the URL past the repository root, made absolute, with the revisions as given |
| AdminArea16.FileExternalLocationRecoversUrl | svnkit/src/main/java/org/tmatesoft/svn/core/internal/wc/admin/SVNAdminArea16.java:96-114 | the repository root followed by the stored path, less the added '/', gives back the URL |
| AdminArea16.WriteString | svnkit/src/main/java/org/tmatesoft/svn/core/internal/wc/admin/SVNAdminArea16.java:158-173 | a present, non-empty field is written after exactly the pending number of empty lines and resets the count; an absent or empty one writes nothing and counts one more pending field |
| AdminArea16.WriteExtraOptions | svnkit/src/main/java/org/tmatesoft/svn/core/internal/wc/admin/SVNAdminArea16.java:158-173 | the tree-conflict field is written first (an error still leaves it written); it fails exactly when the external does not serialize, with that error; otherwise the external's field follows, the lines written are exactly those of the two fields, and the returned pending count is 0, 1 or the given count plus two as the source computes it |
| AdminArea16.AdminArea.GetTreeConflict | svnkit/src/main/java/org/tmatesoft/svn/core/internal/wc/admin/SVNAdminArea16.java:52-59 | the victim's conflict when it has one, none otherwise |
| AdminArea16.AdminArea.AddTreeConflict | svnkit/src/main/java/org/tmatesoft/svn/core/internal/wc/admin/SVNAdminArea16.java:61-79 | a second conflict on a victim is a corruption error and changes nothing; otherwise the conflict is recorded |
| AdminArea16.AdminArea.DeleteTreeConflict | svnkit/src/main/java/org/tmatesoft/svn/core/internal/wc/admin/SVNAdminArea16.java:81-94 | the victim's conflict is removed and returned; the other conflicts stay |
| AdminArea16.AdminArea.SetFileExternalLocation | svnkit/src/main/java/org/tmatesoft/svn/core/internal/wc/admin/SVNAdminArea16.java:96-114 | the entry's file-external fields become the computed location; tree conflicts are untouched |
| FsLocks.VerifyLock | svnkit/src/main/java/org/tmatesoft/svn/core/internal/io/fs/FSCommitter.java:728-745 | allowed exactly when a user is named, owns the lock and holds its token; no user, another owner and a missing token each give their own error |
| FsLocks.AllowLockedOperation | svnkit/src/main/java/org/tmatesoft/svn/core/internal/io/fs/FSCommitter.java:704-726 | succeeds exactly when every lock on the path (and, when recursive, below it) verifies; an error is the verdict of one such lock |
| FsLocks.SortPaths | svnkit/src/main/java/org/tmatesoft/svn/core/internal/io/fs/FSCommitter.java:678-680 | the changed paths in String.compareTo order, each once |
| FsLocks.CoveredBelow | svnkit/src/main/java/org/tmatesoft/svn/core/internal/io/fs/FSCommitter.java:686-689 | a path below a recursively checked path needs no check of its own |
| FsLocks.VerifyLocks | svnkit/src/main/java/org/tmatesoft/svn/core/internal/io/fs/FSCommitter.java:677-702 | succeeds exactly when every changed path has its locks held (the path alone for a modification, everything at or below it otherwise), in spite of the skipped paths |
| FsStore.SuccessorCount | svnkit/src/main/java/org/tmatesoft/svn/core/internal/io/fs/FSCommitter.java:665-675 | the predecessor count of a successor is one more, except that an unknown count (-1) stays unknown |
| FsStore.NewNode | svnkit/src/main/java/org/tmatesoft/svn/core/internal/io/fs/FSCommitter.java:238-244 | a new node is empty, has no predecessor and no copy source, and takes its parent's copy root |
| FsStore.CopyOf | svnkit/src/main/java/org/tmatesoft/svn/core/internal/io/fs/FSCommitter.java:403-419 | a copy with history has the source's content, the source as predecessor, one more predecessor, the copy source recorded and no copy root |
| FsStore.CloneOf | svnkit/src/main/java/org/tmatesoft/svn/core/internal/io/fs/FSCommitter.java:369 | a clone has the child's content and merge-info flag, the child as predecessor, one more predecessor and no copy source |
| FsStore.WithProp | svnkit/src/main/java/org/tmatesoft/svn/core/internal/io/fs/FSCommitter.java:127-131 | a value sets the property, no value removes it, and every other property stays |
| FsStore.MergeInfoIncrement | svnkit/src/main/java/org/tmatesoft/svn/core/internal/io/fs/FSCommitter.java:113-120 | the increment is +1 only when adding merge info to a node without it and -1 only when removing it from a node with it: the count follows the flag |
| FsStore.IncrementAllEffect | svnkit/src/main/java/org/tmatesoft/svn/core/internal/io/fs/FSCommitter.java:394-399 | along a chain of distinct nodes, each node's merge-info count moves by the increment exactly once and no other node changes |
| FsStore.IncrementAllOnlyCounts | svnkit/src/main/java/org/tmatesoft/svn/core/internal/io/fs/FSCommitter.java:394-399 | shifting merge-info counts changes nothing else about any node |
| FsStore.IncrementAllPreserves | svnkit/src/main/java/org/tmatesoft/svn/core/internal/io/fs/FSCommitter.java:394-399 | shifting the counts of transaction nodes leaves every committed node unchanged |
| FsStore.Walk | svnkit/src/main/java/org/tmatesoft/svn/core/internal/io/fs/FSCommitter.java:139 | a resolved path names one existing node per component, each the named entry of the directory before it |
| FsStore.Classify | svnkit/src/main/java/org/tmatesoft/svn/core/internal/io/fs/FSCommitter.java:580-632 | unchanged in the source keeps the target; unchanged in the target takes the source or drops the entry; changed on both sides recurses exactly when all three are directories on the ancestor's line of copies |
| FsStore.MergeFastForward | svnkit/src/main/java/org/tmatesoft/svn/core/internal/io/fs/FSCommitter.java:580-656 | a target directory still equal to the ancestor merges without conflict into exactly the source's nodes |
| FsStore.MergeKeepsTargetChanges | svnkit/src/main/java/org/tmatesoft/svn/core/internal/io/fs/FSCommitter.java:580-656 | a source directory still equal to the ancestor merges without conflict into the target's entries |
| FsStore.MergeBothChangedFileConflicts | svnkit/src/main/java/org/tmatesoft/svn/core/internal/io/fs/FSCommitter.java:605-616 | an entry replaced on both sides where a file is involved is a conflict |
| FsStore.Applied | svnkit/src/main/java/org/tmatesoft/svn/core/internal/io/fs/FSCommitter.java:584-603 | taking the source sets the entry, dropping removes it, anything else leaves the directory; other names are unchanged |
| FsStore.MergedAncestorStep | svnkit/src/main/java/org/tmatesoft/svn/core/internal/io/fs/FSCommitter.java:580-637 | handling one more ancestor entry extends the merged part of the target by that name |
| FsStore.MergedSourceStep | svnkit/src/main/java/org/tmatesoft/svn/core/internal/io/fs/FSCommitter.java:639-656 | adding one more entry only the source has extends the merged part by that name |
| FsStore.MergedAll | svnkit/src/main/java/org/tmatesoft/svn/core/internal/io/fs/FSCommitter.java:580-656 | once all ancestor and source names are handled, every target entry is the merged entry |
| FsStore.ChangedPaths | svnkit/src/main/java/org/tmatesoft/svn/core/internal/io/fs/FSCommitter.java:678 | every changed path is the path of some logged change |
| FsCommitter.Committer.SetEntry | svnkit/src/main/java/org/tmatesoft/svn/core/internal/io/fs/FSCommitter.java:249 | an entry is set or removed exactly in a mutable directory; a file or a committed directory is an error and changes nothing |
| FsCommitter.Committer.ReserveCopyId | svnkit/src/main/java/org/tmatesoft/svn/core/internal/io/fs/FSCommitter.java:387-392 | the reserved copy number is the next transaction-local one, no node of the store uses it, and the counter moves on |
| FsCommitter.Committer.CreateNode | svnkit/src/main/java/org/tmatesoft/svn/core/internal/io/fs/FSCommitter.java:427-434 | the new node gets the next transaction-local node number, an identity not yet in the store, and nothing else changes |
| FsCommitter.Committer.AddChange | svnkit/src/main/java/org/tmatesoft/svn/core/internal/io/fs/FSCommitter.java:253-267 | exactly one change record is appended to the transaction's log |
| FsCommitter.Committer.IncrementMergeInfoUpTree | svnkit/src/main/java/org/tmatesoft/svn/core/internal/io/fs/FSCommitter.java:394-399 | every node from the path's node up to the root gets the increment |
| FsCommitter.Committer.OpenPath | svnkit/src/main/java/org/tmatesoft/svn/core/internal/io/fs/FSCommitter.java:73-74 | an existing path resolves to a chain from the transaction root, one linked step per name; a missing entry or a file in the middle is an error |
| FsCommitter.Committer.OpenParent | svnkit/src/main/java/org/tmatesoft/svn/core/internal/io/fs/FSCommitter.java:184-188 | the parent directory of a path resolves to a linked chain, with the node the path names if it exists |
| FsCommitter.Committer.CloneChild | svnkit/src/main/java/org/tmatesoft/svn/core/internal/io/fs/FSCommitter.java:369 | a committed parent or a bad name is an error; a transaction child is returned as is; a committed child is replaced in the parent by a new transaction clone of it |
| FsCommitter.Committer.MakePathMutable | svnkit/src/main/java/org/tmatesoft/svn/core/internal/io/fs/FSCommitter.java:326-385 | every node of the path up to the root becomes a transaction node linked from its parent, keeping its content and merge-info flag; a cloned node descends from the one it replaced |
| FsCommitter.Committer.CloneBelow | svnkit/src/main/java/org/tmatesoft/svn/core/internal/io/fs/FSCommitter.java:326-385 | the steps above are made mutable, then the committed step is cloned below them and named by the same entry |
| FsCommitter.Committer.ExtendMutable | svnkit/src/main/java/org/tmatesoft/svn/core/internal/io/fs/FSCommitter.java:339-369 | a committed step below an already mutable chain is cloned and linked from the mutable parent |
| FsCommitter.Committer.CloneStep | svnkit/src/main/java/org/tmatesoft/svn/core/internal/io/fs/FSCommitter.java:339-369 | an unknown copy style is an error; otherwise the step's node is replaced by a mutable clone named by the same entry of its now-mutable parent |
| FsCommitter.Committer.DeleteNode | svnkit/src/main/java/org/tmatesoft/svn/core/internal/io/fs/FSCommitter.java:72-95 | the root cannot be deleted; the lock check is recursive; the entry leaves its mutable parent; the parent chain's merge-info counts drop by the deleted node's positive count; one deletion is logged |
| FsCommitter.Committer.ChangeNodeProperty | svnkit/src/main/java/org/tmatesoft/svn/core/internal/io/fs/FSCommitter.java:97-135 | the lock check is not recursive; the mutable node gets the property set or removed; merge info flips the flag and shifts the chain's counts by +1 or -1; no change is logged when the node has no properties and the value is absent |
| FsCommitter.Committer.SetProperty | svnkit/src/main/java/org/tmatesoft/svn/core/internal/io/fs/FSCommitter.java:106-134 | after the checks, the path is made mutable and the property is written and logged as ChangeNodeProperty states |
| FsCommitter.Committer.WriteProperty | svnkit/src/main/java/org/tmatesoft/svn/core/internal/io/fs/FSCommitter.java:107-134 | the property is set on the mutable node; no change is logged exactly when the node has no properties and the value is absent |
| FsCommitter.Committer.ChangeProperty | svnkit/src/main/java/org/tmatesoft/svn/core/internal/io/fs/FSCommitter.java:113-134 | the property is set, merge info shifts the chain's counts, and one modification is logged |
| FsCommitter.Committer.MakeEntry | svnkit/src/main/java/org/tmatesoft/svn/core/internal/io/fs/FSCommitter.java:221-251 | a bad name, a non-directory parent and a committed parent each give their error; otherwise a new empty node with the parent's copy number is named in the parent |
| FsCommitter.Committer.MakeFile | svnkit/src/main/java/org/tmatesoft/svn/core/internal/io/fs/FSCommitter.java:181-199 | an existing path is an error; the lock check is not recursive; a new empty file is named in its mutable parent and its addition is logged |
| FsCommitter.Committer.MakeDir | svnkit/src/main/java/org/tmatesoft/svn/core/internal/io/fs/FSCommitter.java:201-219 | an existing path is an error; the lock check is recursive; a new empty directory is named in its mutable parent and its addition is logged |
| FsCommitter.Committer.MakeNode | svnkit/src/main/java/org/tmatesoft/svn/core/internal/io/fs/FSCommitter.java:181-219 | the shared body of makeFile and makeDir: the root, a failed parent walk and an existing path are errors; otherwise the lock check and the new entry |
| FsCommitter.Committer.AddEntry | svnkit/src/main/java/org/tmatesoft/svn/core/internal/io/fs/FSCommitter.java:190-198 | a lock not held is an error; otherwise the new node is created below the mutable parent chain and logged |
| FsCommitter.Committer.PlaceNode | svnkit/src/main/java/org/tmatesoft/svn/core/internal/io/fs/FSCommitter.java:194-198 | the parent chain is made mutable and the new node entered under the last name |
| FsCommitter.Committer.EnterNode | svnkit/src/main/java/org/tmatesoft/svn/core/internal/io/fs/FSCommitter.java:221-251 | a bad name changes nothing; otherwise a fresh transaction node, empty, with its parent's copy number, is named in the parent and its addition logged |
| FsCommitter.Committer.Copy | svnkit/src/main/java/org/tmatesoft/svn/core/internal/io/fs/FSCommitter.java:401-425 | it succeeds exactly in a mutable directory; without history the entry names the source node itself, with history a new successor with a fresh copy number |
| FsCommitter.Committer.MakeCopy | svnkit/src/main/java/org/tmatesoft/svn/core/internal/io/fs/FSCommitter.java:137-179 | a copy onto the node already there changes nothing; otherwise the copy is linked into the mutable parent chain, whose merge-info counts move by the source's count less the replaced node's, and an addition or replacement with its copy source is logged |
| FsCommitter.Committer.CopyTo | svnkit/src/main/java/org/tmatesoft/svn/core/internal/io/fs/FSCommitter.java:141-179 | a failed destination walk or recursive lock check is reported and logs nothing; a copy onto the node already there changes nothing; otherwise the copy is linked and logged as an addition where no node was and as a replacement where one was |
| FsCommitter.Committer.CopyInto | svnkit/src/main/java/org/tmatesoft/svn/core/internal/io/fs/FSCommitter.java:163-179 | the copy is linked into the mutable parent chain, the chain's merge-info counts shift by the source's count less the replaced node's, and exactly one change carrying the copy source is logged |
| FsCommitter.Committer.PlaceCopy | svnkit/src/main/java/org/tmatesoft/svn/core/internal/io/fs/FSCommitter.java:163-179 | once the parent chain is mutable, the copy is linked under the last name, the chain's counts shift, and one change is logged |
| FsCommitter.Committer.LinkCopy | svnkit/src/main/java/org/tmatesoft/svn/core/internal/io/fs/FSCommitter.java:163-165 | the destination's parent chain becomes mutable and its last directory names the copy, as Copy states |
| FsCommitter.Committer.Unlink | svnkit/src/main/java/org/tmatesoft/svn/core/internal/io/fs/FSCommitter.java:85-94 | the entry leaves its mutable parent, the parent chain's merge-info counts drop by the deleted node's count when it is positive, and one deletion is logged |
| FsCommitter.Committer.RemoveEntry | svnkit/src/main/java/org/tmatesoft/svn/core/internal/io/fs/FSCommitter.java:85-94 | the parent chain is made mutable, the entry removed, the counts dropped and one deletion logged; a failed clone logs nothing |
| FsCommitter.Committer.UnlinkMutable | svnkit/src/main/java/org/tmatesoft/svn/core/internal/io/fs/FSCommitter.java:86-94 | once the parent chain is mutable, the entry leaves it, the counts drop by the deleted node's positive count, and exactly one deletion is logged |
| FsCommitter.Committer.AdjustMergeInfo | svnkit/src/main/java/org/tmatesoft/svn/core/internal/io/fs/FSCommitter.java:88-93 | with merge info supported and a non-zero shift every node of the chain moves by the shift; otherwise the store is unchanged |
| FsCommitter.Committer.Merge | svnkit/src/main/java/org/tmatesoft/svn/core/internal/io/fs/FSCommitter.java:550-663 | an ancestor equal to the target is a bad merge; a source equal to the ancestor or the target is a no-op; non-directories or changed target properties conflict; a successful merge is DirMerged: no entry conflict, the target descends from the source with one more predecessor, the reported increment is MergeInc, every target entry is the merged entry, and every subdirectory changed on both sides is merged in turn; a clean merge (MergeClean) of committed source and ancestor succeeds, rewriting no more than MergeWrites |
| FsCommitter.Committer.MergeDirs | svnkit/src/main/java/org/tmatesoft/svn/core/internal/io/fs/FSCommitter.java:576-663 | the merge of three directories after the checks: the ancestor loop, then the source loop and the end of the merge, with the DirMerged outcome; it succeeds when the merge is clean |
| FsCommitter.Committer.MergeAncestorEntries | svnkit/src/main/java/org/tmatesoft/svn/core/internal/io/fs/FSCommitter.java:580-637 | every ancestor name is handled: none conflicts, each one changed on both sides has its sub-merge, the store changes only at the target and what the sub-merges rewrote, and the increment is the sum of the names' increments; with clean entries the loop succeeds and each sub-merge keeps within its clean writes |
| FsCommitter.Committer.MergeAncestorName | svnkit/src/main/java/org/tmatesoft/svn/core/internal/io/fs/FSCommitter.java:581-636 | one ancestor name handled extends the loop's progress by that name; in a clean merge it succeeds and its sub-merge keeps within its clean writes |
| FsCommitter.Committer.MergeSourceSide | svnkit/src/main/java/org/tmatesoft/svn/core/internal/io/fs/FSCommitter.java:639-663 | after the ancestor loop, the source loop and the end of the merge give the DirMerged outcome; a clean merge succeeds and rewrites no more than MergeWrites |
| FsCommitter.Committer.FinishMerge | svnkit/src/main/java/org/tmatesoft/svn/core/internal/io/fs/FSCommitter.java:657-675 | the target takes the source as predecessor with one more predecessor, its merge-info count moves by the increment when merge info is supported, and the merge is DirMerged; it fails exactly on a committed target, and the merge rewrote the target and its sub-merges' nodes |
| FsCommitter.Committer.TakeEntry | svnkit/src/main/java/org/tmatesoft/svn/core/internal/io/fs/FSCommitter.java:602-604 | it succeeds exactly on a mutable directory; only the target's entry of that name is set or removed; the increment is reported unchanged |
| FsCommitter.Committer.MergeAncestorStep | svnkit/src/main/java/org/tmatesoft/svn/core/internal/io/fs/FSCommitter.java:581-636 | one ancestor name merged by MergeEntry extends the loop's progress, recording the sub-merge under that name when it needed one; a clean entry in a mutable directory succeeds within its clean writes |
| FsCommitter.Committer.PublishAttempt | svnkit/src/main/java/org/tmatesoft/svn/core/internal/io/fs/FSCommitter.java:284-298 | the merged revision becomes the base; other writers' roots become the next revisions; the publication is out of date exactly when there were any, and otherwise succeeds exactly when every lock is held, as the revision after the base |
| FsMerge.MergeCleanMoved | svnkit/src/main/java/org/tmatesoft/svn/core/internal/io/fs/FSCommitter.java:550-663 | whether a merge is clean, and what it rewrites, depends only on the committed nodes and the nodes it rewrites |
| FsMerge.CleanUnshared | svnkit/src/main/java/org/tmatesoft/svn/core/internal/io/fs/FSCommitter.java:606-634 | sub-merges that keep within their clean writes leave the directory alone and rewrite disjoint nodes |
| FsMerge.KidsWithinWrites | svnkit/src/main/java/org/tmatesoft/svn/core/internal/io/fs/FSCommitter.java:606-634 | such sub-merges together rewrite no more than the clean merge's sub-merges |
| FsMerge.EntryCleanAt | svnkit/src/main/java/org/tmatesoft/svn/core/internal/io/fs/FSCommitter.java:581-634 | during the ancestor loop of a clean merge, an entry not handled yet is still clean in the current store, and its sub-merge would rewrite the same nodes |
| FsMerge.KidUntouched | svnkit/src/main/java/org/tmatesoft/svn/core/internal/io/fs/FSCommitter.java:606-634 | what a sub-merge not run yet rewrites is untouched by the directory's edits and the earlier sub-merges |
| FsMerge.AncestorNameClean | svnkit/src/main/java/org/tmatesoft/svn/core/internal/io/fs/FSCommitter.java:581-636 | in a clean merge the next ancestor name is clean and the target is still a directory |
| FsMerge.SourceSideClean | svnkit/src/main/java/org/tmatesoft/svn/core/internal/io/fs/FSCommitter.java:639-663 | after the ancestor loop of a clean merge, the target was left to the merge alone, its source-only names are free, and the writes are within MergeWrites |
| FsMerge.MergeIncCommitted | svnkit/src/main/java/org/tmatesoft/svn/core/internal/io/fs/FSCommitter.java:591-600 | the merge increment depends only on committed nodes: stores that agree on them give the same increment |
| FsMerge.DirMergedMoved | svnkit/src/main/java/org/tmatesoft/svn/core/internal/io/fs/FSCommitter.java:550-663 | a merge's outcome does not depend on nodes it neither read as committed nor rewrote, so the sub-merges' outcomes survive the later writes of their siblings |
| FsMerge.AncestorEntryStep | svnkit/src/main/java/org/tmatesoft/svn/core/internal/io/fs/FSCommitter.java:585-605 | an ancestor name taken, dropped or kept extends the ancestor loop's progress, with that name's increment |
| FsMerge.AncestorRecurseStep | svnkit/src/main/java/org/tmatesoft/svn/core/internal/io/fs/FSCommitter.java:606-634 | an ancestor name merged one level down extends the loop's progress with the sub-merge and its increment |
| FsMerge.SourceStep | svnkit/src/main/java/org/tmatesoft/svn/core/internal/io/fs/FSCommitter.java:639-656 | a source-only name added to the target extends the source loop's progress with the added node's merge-info count |
| FsMerge.LoopsDone | svnkit/src/main/java/org/tmatesoft/svn/core/internal/io/fs/FSCommitter.java:580-656 | after both loops every target entry is the merged entry, and the increment is MergeInc |
| FsMerge.FinishIntro | svnkit/src/main/java/org/tmatesoft/svn/core/internal/io/fs/FSCommitter.java:657-675 | the new ancestry and count of the target complete the DirMerged outcome, framed to the target and the sub-merges' writes |
| FsCommitter.Committer.MergeEntry | svnkit/src/main/java/org/tmatesoft/svn/core/internal/io/fs/FSCommitter.java:581-634 | a conflicting entry reports its path and changes nothing; a taken or dropped entry changes only that entry of the target and reports the replaced node's merge-info count traded for the source's; an entry changed on both sides is merged one level down (SubMerged); a clean entry in a mutable directory succeeds |
| FsCommitter.Committer.MergeSourceEntries | svnkit/src/main/java/org/tmatesoft/svn/core/internal/io/fs/FSCommitter.java:639-656 | an entry added in the source that the target also has is a conflict; otherwise every source-only entry is added, only the target changes, the increment grows by the added nodes' merge-info counts, and the target's entries become the merged ones for those names; with no such conflict, stored source entries and a mutable target directory it succeeds |
| FsCommitter.Committer.UpdateAncestry | svnkit/src/main/java/org/tmatesoft/svn/core/internal/io/fs/FSCommitter.java:665-675 | only a mutable target may be updated; it then descends from the source with one more predecessor |
| FsCommitter.Committer.MergeChanges | svnkit/src/main/java/org/tmatesoft/svn/core/internal/io/fs/FSCommitter.java:534-548 | the ancestor defaults to the base root, the transaction root's predecessor; a transaction root still equal to its ancestor is an error and changes nothing; otherwise the root is merged (DirMerged) against the source, which becomes the new base root; a clean merge of committed source and ancestor succeeds |
| FsCommitter.Committer.BaseRoot | svnkit/src/main/java/org/tmatesoft/svn/core/internal/io/fs/FSCommitter.java:538-540 | the base root is the transaction root's predecessor, the node it was cloned or merged from |
| FsCommitter.Committer.Commit | svnkit/src/main/java/org/tmatesoft/svn/core/internal/io/fs/FSCommitter.java:436-501 | out of date exactly when the base is not the youngest revision; then it succeeds exactly when every changed path has its locks held, publishing the transaction root as the next revision; a failure publishes nothing |
| FsCommitter.Committer.CommitAttempt | svnkit/src/main/java/org/tmatesoft/svn/core/internal/io/fs/FSCommitter.java:277-298 | the transaction is merged (DirMerged) with the youngest revision, which becomes its base root and base revision, and a clean merge succeeds; a merge error is the result and publishes nothing; after the merge the other writers' roots are the next revisions, the publication is out of date exactly when there were any, and otherwise it succeeds exactly when every lock is held; earlier revisions stay |
| FsCommitter.Committer.PublishOthers | svnkit/src/main/java/org/tmatesoft/svn/core/internal/io/fs/FSCommitter.java:292-297 | other writers' roots become the next revisions, in order, one number each; earlier revisions stay |
| FsCommitter.Committer.CommitTxn | svnkit/src/main/java/org/tmatesoft/svn/core/internal/io/fs/FSCommitter.java:269-324 | a commit lands as the revision right after its base revision, with all locks held, and its root is the last merge (DirMerged) of the transaction with that base revision's root, taken against the then base root, which it now descends from; earlier revisions stay; the result is never out of date; with no other writer, a clean merge and every lock held it succeeds |

## Left out

- The hooks, the write lock on the repository, the writing of revision and transaction files, and all file I/O. The store is a map from node identity to revision node; the new revision's root is the transaction root's identity (writeFinalRevision is not part of this model).
- Other writers during a commit: `CommitTxn` takes, for each retry, the roots other writers publish while it merges.
- FsCommitter.Committer.Merge: the recursion into subdirectories is bounded by a depth parameter; beyond it the merge reports `DepthExceeded`, which the Java code never does.
- FsCommitter.Committer.Merge: properties are compared by content, while the Java code compares property representations.
- FsCommitter.Committer.Merge: an entry whose node is missing from the store gives `NotFound`; in the Java code the store always has it.
- FsCommitter.Committer.Merge: the store does not enforce a tree shape, so the conclusions about the merged entries and the sub-merges (DirMerged) are stated for committed source and ancestor and for sub-merges that rewrote disjoint nodes other than the target; the reported increment needs only the first.
- FsCommitter.Committer.Merge: success is promised for a clean merge (`MergeClean`): besides no conflict and a mutable target, it asks that every ancestor and source entry names a node of the store, that the depth bound reaches every sub-merge, and that sub-merges rewrite disjoint nodes other than their directory. The Java code gets the last two from the tree shape of FSFS revisions, which the store does not enforce.
- FsCommitter.Committer.CommitTxn: success is promised only for a commit that no other writer interrupts; with other writers, the outcome of each retry is stated by `CommitAttempt`.
- FsCommitter.Committer.DeleteNode: the store does not enforce a tree shape, so that the parent path still resolves and the deleted path no longer does is stated only for paths that visit no node twice (`DistinctSteps`); the edit of the parent chain itself is stated for every path.
- FsCommitter.Committer.MakeCopy: likewise, that the destination path resolves to the copy is stated only for paths that visit no node twice, or where the name was free; the edit of the parent chain is stated for every path.
- Revision nodes are values read from the store; the Java `target` object that `incrementMergeInfoCount` writes back is modelled by re-reading the store.
- FsCommitter.Committer.BaseRoot: the transaction's base node identity is not a separate field; it is read as the predecessor of the transaction root, which cloning the root and each merge set (FSCommitter.java:671). The check of makePathMutable that the root is not its base (FSCommitter.java:375) is made against it.
- The rethrow of an out-of-date error at the end of `commitTxn` is not modelled as a path: the loop retries exactly while the error is out of date and the youngest revision moved, and the contract proves that no out-of-date error is reported.
- Property validation (`validateProperty`) and path canonicalisation (`canonicalizeAbsolutePath`, `checkPathIsValid`). Paths are sequences of names.
- The copy-style computation inside `openPath`: `StyleOf` derives it from the node identities. `FSTransactionRoot.cloneChild`, `createSuccessor` and `getNewTxnNodeId` are not part of this model; their effects are the documented ones (`CloneOf`, `CreateNode`).
- FsCommitter.Committer.CloneChild: a child whose copy style is unknown gives `Unknown`.
- FsCommitter.Committer.CloneChild: a clone identity already present in the store gives `Unknown` and changes nothing; `createSuccessor` is not part of this model, and the store does not rule out such a clash.
- FsStore.CopyOf: the copy's root path is left empty, as FSCommitter.java:418 sets it; `createSuccessor` (FSCommitter.java:419), which then makes the copy its own copy root, is not part of this model, so later clones below a copy inherit an empty copy root.
- FsStore.ChangedPaths: the folding of the change log follows the documented rules; the code that folds it is not part of this model, so only the origin of each path is stated.
- `SVNRevision.parse` is modelled for HEAD and revision numbers; any other text gives an undefined revision.
- AdminArea16.WriteString: the superclass's `writeString` is not part of this model; it is modelled as writing a present, non-empty field after the pending empty fields.
- `readExtraOptions` and the entry parser of the superclass.
- JUnitLog.JUnitTestLogger.HandleTest: the clock is a parameter read once per test; the Java code reads it twice.
- JUnitLog.JUnitTestLogger.HandleTest: requires a started suite, since the Java code fails on a null list before the first `startSuite`.
- `endSuite` (the XML report) and `openSuiteFile` (file creation).
- Java's 32-bit `int` and 64-bit `long` wrap-around: counters and revision numbers are unbounded.
- JUnitLog.TestNumber: takes a natural number; a negative Java `int` test number, which the "000" pattern would render with a minus sign, is not modelled.
- AdminArea16.FileExternalLocation: requires a URL at least as long as the repository root; for a shorter one the Java `substring` throws an index-out-of-bounds exception, which is not modelled.
- FsLocks.StrLess: compares characters as Unicode scalar values, while Java's `String.compareTo` compares UTF-16 code units; the orders differ only between characters above U+FFFF and those from U+E000 to U+FFFF.

## Findings

| source | as written | input that shows it | evidently intended | confidence | as-written member | corrected member |
|---|---|---|---|---|---|---|
| svnkit-test/src/main/java/org/tmatesoft/svn/core/test/JUnitTestLogger.java:118-125 | a time of up to three digits is prefixed by "0." without padding | 5 ms is rendered "0.5", which reads as 500 ms | the fraction padded to three digits ("0.005") | not executed | JUnitLog.TimeStringShortValueMisread | JUnitLog.TimeStringPadded |
