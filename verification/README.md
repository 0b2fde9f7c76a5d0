# SQLite protocols in Dafny

This project models the protocols of SQLite 3.7.13 that its interface header specifies, as the library
implements them, and proves what the header promises about them. Where code and header disagree the
model follows the code, and a lemma says exactly when the promise holds.

The code is the amalgamation `libs/sqlite/src/sqlite3/sqlite3.c`; the table below cites the promises in
the header, and the notes here say which functions of the amalgamation each component follows.

| component | files | functions followed (lines of sqlite3.c) |
|---|---|---|
| unlock notification | BlockedList, WaitsFor, UnlockNotifyRuns, UnlockHistory, CallbackGroups, UnlockNotify | notify.c, 116697-117029 |
| online backup | BackupCopy, BackupRuns, BackupResults, BackupCodes, OnlineBackup | backup.c, 58516-59234 |
| page cache | PageTable, PageContract, PageCache, CachedReads | pcache1.c, 37571-38538 |
| change counters | TriggerTrace, ChangeCounters, Vdbe | 61996-62037, 62409-62460, 62500-62660, 63555, 66563-66608, 67172-67174, 68682-68703, 69790-69936, 70939-71044, 71203-71250, 72038 |
| quoting and printing | Quoting, Literals, StrAccum | 19617, 20067-20109, 20165-20270, 20368, 112912-112942, 21342-21370 |
| URI filenames | UriDecoding, UriParser, UriBuffer, UriFlags, UriOptions, UriEffects, UriOpen | 115508-115714, 116626-116637, 15045 |
| memory accounting | Memory | 13440-13460, 18956-19260 |
| BLOB handles | BlobRuns, BlobHandles | 50683-50696, 54067-54095, 54262-54280, 57448-57470, 58427-58459, 72130-72182, 72436-72546 |
| interrupt | Interrupt | 61826, 62664, 64017-64036, 65787, 113083, 114703 |
| checkpoint | Checkpoint | 115151-115173 |

The files Lists, Options and CStrings hold what several components share.

Each component has a specification in values (states, steps, runs) with the theorems about it. Where the
code updates objects in place there is a class whose methods are proved against that specification: the
linked list of blocked connections, the backup object and its source, the page cache, the virtual
machine's counters, the string accumulator, the memory counters and the BLOB handles.

## Where the code departs from the header

- Unlock notification: calling `sqlite3_unlock_notify()` again does not replace the old callback when no
  blocking connection is recorded any more (`CallbackGroups.ReplacesIffBlocked`). The list's debug check
  on adjacent callbacks can fail (`CallbackGroups.DebugCheckCanFail`), without harm to bundling.
- Backup: a step returns SQLITE_BUSY, not SQLITE_LOCKED, while the source connection is writing; the code
  of a refused last step reaches `sqlite3_backup_finish()`; the extended code of a shared-cache lock is
  fatal; `sqlite3_backup_remaining()` can be negative. A page whose copying is refused with SQLITE_BUSY or
  SQLITE_LOCKED is passed over, so that SQLITE_DONE no longer means a copy (`BackupRuns.DoneIsCopyIff`).
- Page cache: `xRekey` does not discard an entry that is already under the new key. The pager drops such
  an entry first, which is what the client theorem asks for.
- Change counters: the count is not saved when a trigger starts, so inside a statement it can be the
  count left by a trigger. A statement undone only by a rollback of the whole transaction still counts its
  rows, and one that aborts without a savepoint of its own keeps rows that it does not count
  (`ChangeCounters.ChangesRightIff`, `TotalRightIff`, `AbortWithoutSavepoint`). When a statement stops
  inside a trigger, the trigger's last rowid is written back after the halt; and the rowid of a row inserted
  by an aggregate, a collation or a hook is overwritten with that of the statement that runs it.
- URI filenames: mode limits are compared as numbers that include the in-memory bit, so after
  `mode=memory` any mode is accepted (`UriOptions.NotWiderIff` says when the limit holds); an empty `vfs`
  is not the default.
- Memory statistics: the counters are 32-bit integers.
- BLOB handles: the range check comes before the check for an aborted handle, and its sum can overflow
  (`BlobRuns.RangeCheckIff`, `SecondCheckIff`). A handle also expires when a row of the same number in
  another table of the file is changed, or when all rows of any table are deleted at once.
- Interrupt: a call between the two steps with which a first statement starts is not a no-op.

## Model

| member | source | states |
|---|---|---|
| WaitsFor.DeadlockIsCycle | include/eggs/sqlite/detail/sqlite3/sqlite3.h:6647-6658 | registering would deadlock if and only if the new edge closes a cycle, of any length |
| WaitsFor.NewEdgeKeepsAcyclic | include/eggs/sqlite/detail/sqlite3/sqlite3.h:6647-6658 | an edge that passes the chain walk leaves the waits-for relation free of cycles |
| WaitsFor.FewerEdgesKeepAcyclic | include/eggs/sqlite/detail/sqlite3/sqlite3.h:6603-6610 | cancelling, closing and ending transactions cannot create a cycle |
| WaitsFor.SomeoneCanProceed | include/eggs/sqlite/detail/sqlite3/sqlite3.h:6639-6658 | in every state of the invariant, the chain from any connection ends within as many hops as there are connections at an open connection that waits for nobody |
| WaitsFor.VisitedGrows | include/eggs/sqlite/detail/sqlite3/sqlite3.h:6656-6658 | along a chain every hop meets a new open connection, so the deadlock walk terminates |
| UnlockNotifyRuns.StepKeepsInv | include/eggs/sqlite/detail/sqlite3/sqlite3.h:6603-6617 | every entry point keeps the whole invariant: list membership, pointers to open connections, no cycles, registered entries grouped by callback |
| UnlockNotifyRuns.ReachableInv | include/eggs/sqlite/detail/sqlite3/sqlite3.h:6603-6658 | the invariant holds in every reachable state of any number of connections |
| UnlockNotifyRuns.RefusedIffCycle | include/eggs/sqlite/detail/sqlite3/sqlite3.h:6647-6658 | in every reachable state a registration returns SQLITE_LOCKED exactly if it would close a cycle; then nothing changes and nothing is called |
| UnlockNotifyRuns.StepConserves | include/eggs/sqlite/detail/sqlite3/sqlite3.h:6581-6610 | one step: registrations pending before plus accepted equal pending after plus delivered plus dropped, for each pair of callback and context pointer |
| UnlockNotifyRuns.RunConserves | include/eggs/sqlite/detail/sqlite3/sqlite3.h:6581-6610 | over every run each accepted context pointer is delivered once, dropped once by replacement, cancelling or closing, or still pending |
| UnlockNotifyRuns.PendingReleased | include/eggs/sqlite/detail/sqlite3/sqlite3.h:6588-6590 | the end of a transaction delivers exactly the callbacks registered on it and leaves the others pending |
| UnlockHistory.BlockerIff | include/eggs/sqlite/detail/sqlite3/sqlite3.h:6584-6592 | over every run, told from the calls alone: the recorded blocker is that of the latest SQLITE_LOCKED, unless since then the connection has cancelled, the blocker has ended its transaction, or either has closed |
| UnlockHistory.WaiterIff | include/eggs/sqlite/detail/sqlite3/sqlite3.h:6584-6606 | over every run a connection waits, with the callback and pointer of its last accepted call, for just the connection that was its recorded blocker then |
| UnlockHistory.ImmediateIff | include/eggs/sqlite/detail/sqlite3/sqlite3.h:6592-6596 | over every run a callback is invoked within the call if and only if no blocker is recorded, with just its own pointer |
| UnlockHistory.RefusedIffWaitsBack | include/eggs/sqlite/detail/sqlite3/sqlite3.h:6647-6658 | over every run SQLITE_LOCKED is returned if and only if a path of waiting connections leads from the recorded blocker back to the caller |
| UnlockHistory.DeliversToWaiters | include/eggs/sqlite/detail/sqlite3/sqlite3.h:6588-6590 | over every run the end of a transaction delivers a callback and pointer as often as there are connections waiting for it with both |
| CallbackGroups.BundleDelivers | include/eggs/sqlite/detail/sqlite3/sqlite3.h:6628-6635 | bundling equal callbacks loses, adds and reorders no context pointer |
| CallbackGroups.BundleOnce | include/eggs/sqlite/detail/sqlite3/sqlite3.h:6628-6633 | if equal callbacks stand together, each callback function is invoked at most once |
| CallbackGroups.DueIsContiguous | include/eggs/sqlite/detail/sqlite3/sqlite3.h:6628-6633 | in every state of the invariant the callbacks owed to one transaction end do stand together, so that bundling invokes each function once |
| CallbackGroups.AllGroupedIffNotTorn | include/eggs/sqlite/detail/sqlite3/sqlite3.h:6628-6633 | the code's debug check that all equal callbacks are adjacent survives a transaction end if and only if no group is torn by an entry that keeps a blocker but loses its callback |
| CallbackGroups.DebugCheckCanFail | include/eggs/sqlite/detail/sqlite3/sqlite3.h:6628-6633 | a reachable run after which that debug check fails |
| CallbackGroups.ReplacesIffBlocked | include/eggs/sqlite/detail/sqlite3/sqlite3.h:6603-6606 | calling again replaces the earlier callback exactly if a blocking connection is still recorded, or it is the same callback and pointer |
| CallbackGroups.OldCallbackCanSurvive | include/eggs/sqlite/detail/sqlite3/sqlite3.h:6592-6606 | a reachable run in which the new callback is invoked at once and the old one stays registered |
| UnlockNotify.Notifier.AddToBlockedList | include/eggs/sqlite/detail/sqlite3/sqlite3.h:6628-6635 | the linked list gets the connection in front of the first entry with the same callback |
| UnlockNotify.Notifier.RemoveFromBlockedList | include/eggs/sqlite/detail/sqlite3/sqlite3.h:6607-6610 | the linked list loses exactly that connection; no effect if it is not there |
| UnlockNotify.Notifier.ConnectionBlocked | include/eggs/sqlite/detail/sqlite3/sqlite3.h:6581-6588 | records the blocking connection, as the step relation says |
| UnlockNotify.Notifier.ChainReaches | include/eggs/sqlite/detail/sqlite3/sqlite3.h:6647-6658 | the pointer walk over pUnlockConnection answers whether registering would deadlock |
| UnlockNotify.Notifier.UnlockNotify | include/eggs/sqlite/detail/sqlite3/sqlite3.h:6592-6617 | the method on the linked objects is the step: cancel, immediate callback, SQLITE_LOCKED or registration |
| UnlockNotify.Notifier.ReleaseAll | include/eggs/sqlite/detail/sqlite3/sqlite3.h:6619-6635 | one pass over the list delivers what is due in list order, bundled if memory allows, and leaves exactly the entries that still wait |
| UnlockNotify.Notifier.ConnectionUnlocked | include/eggs/sqlite/detail/sqlite3/sqlite3.h:6588-6590 | the end of a transaction on the linked objects is the step, and keeps the invariant |
| UnlockNotify.Notifier.ConnectionClosed | include/eggs/sqlite/detail/sqlite3/sqlite3.h:6608-6610 | closing a connection on the linked objects is the step, and keeps the invariant |
| UnlockNotify.OweDelivers | include/eggs/sqlite/detail/sqlite3/sqlite3.h:6628-6635 | adding one context pointer to the open bundle keeps all deliveries in order, also when the array cannot grow and the bundle is sent early |
| UnlockNotify.OweBundles | include/eggs/sqlite/detail/sqlite3/sqlite3.h:6628-6635 | with memory for the array the pointer joins the open call if that is for the same callback, and starts a new one otherwise |
| UnlockNotify.CollectOwes | include/eggs/sqlite/detail/sqlite3/sqlite3.h:6628-6635 | over the whole list the calls made and the open bundle deliver what is owed; with memory they are the bundles |
| BackupRuns.OpKeepsInv | include/eggs/sqlite/detail/sqlite3/sqlite3.h:6468-6482 | every operation, rollback of the source's transaction included, keeps the invariant: the copied part is current unless a restart is pending or the page was missed, and nothing is committed before the end |
| BackupRuns.RunKeepsInv | include/eggs/sqlite/detail/sqlite3/sqlite3.h:6468-6482 | the invariant holds after every interleaving of steps with any answers, writes and rollbacks by the same connection, foreign changes, growth and shrinkage |
| BackupRuns.DoneIsCopyIff | include/eggs/sqlite/detail/sqlite3/sqlite3.h:6429-6435 | whatever the environment answers, when a step first returns SQLITE_DONE the committed destination equals the source page for page and in length (the lock page and, on page 1, the change counter and the version fields that the destination writes itself apart; its schema cookie is one more than that of the destination before the backup) if and only if the pages that the backup passed over when their copying was refused, or that changed while it was not attached, have arrived after all |
| BackupRuns.DoneIsCopy | include/eggs/sqlite/detail/sqlite3/sqlite3.h:6429-6460 | if nothing but locks was refused, the destination is such a copy whenever a step first returns SQLITE_DONE, with the schema cookie of the destination before the backup plus one |
| BackupRuns.EarlyFinishRestores | include/eggs/sqlite/detail/sqlite3/sqlite3.h:6489-6492 | finishing before SQLITE_DONE leaves the destination as it was before the backup |
| BackupRuns.UpdateKeepsCopied | include/eggs/sqlite/detail/sqlite3/sqlite3.h:6479-6482 | a page written through the same connection is not yet copied, or mirrored at once, or counts as missed because the backup is not attached |
| BackupRuns.CompleteIsCopyIff | include/eggs/sqlite/detail/sqlite3/sqlite3.h:6432-6435 | cookie update, truncation and commit, which stamps the header fields of page 1, turn a completed copy into an equal file if and only if the missed pages agree |
| BackupResults.StepAdvances | include/eggs/sqlite/detail/sqlite3/sqlite3.h:6429-6435 | where a step resumes (at the first page after a foreign change) and stops, that SQLITE_DONE is returned exactly if no page is left, and that a step refused a lock changes neither |
| BackupResults.QuietSteps | include/eggs/sqlite/detail/sqlite3/sqlite3.h:6429-6435 | with no change of the source during the backup and step size n > 0 it is done with successful step number ceil(pages / n), however many steps are refused in between |
| BackupResults.QuietProgress | include/eggs/sqlite/detail/sqlite3/sqlite3.h:6451-6460 | refused steps change nothing and k successful ones copy k * n pages |
| BackupResults.NegativeStepIsDone | include/eggs/sqlite/detail/sqlite3/sqlite3.h:6431-6431 | a negative step size never leaves pages over, also when a foreign change restarts the copy |
| BackupResults.NextStaysBounded | include/eggs/sqlite/detail/sqlite3/sqlite3.h:6510-6520 | over every run the next page to copy is at most one beyond the largest page number, so the counters do not overflow |
| BackupResults.CountersAddUp | include/eggs/sqlite/detail/sqlite3/sqlite3.h:6510-6520 | after a successful step of any run copied plus remaining equals the page count, and remaining is not negative if and only if the source has not shrunk below the part that counts as copied |
| BackupResults.RemainingCanBeNegative | include/eggs/sqlite/detail/sqlite3/sqlite3.h:6510-6520 | a run after which sqlite3_backup_remaining() is -1 |
| BackupResults.FatalStays | include/eggs/sqlite/detail/sqlite3/sqlite3.h:6460-6466 | after a fatal error no operation changes the backup any more, apart from the place where it would resume |
| BackupResults.FinishOkIff | include/eggs/sqlite/detail/sqlite3/sqlite3.h:6496-6505 | finish returns SQLITE_OK if and only if nothing failed and the last step was not refused with SQLITE_BUSY or SQLITE_LOCKED |
| BackupResults.FailureIsKept | include/eggs/sqlite/detail/sqlite3/sqlite3.h:6499-6501 | a recorded failure is returned by every later step and by finish |
| BackupResults.BusyReachesFinish | include/eggs/sqlite/detail/sqlite3/sqlite3.h:6503-6505 | a run in which finish returns SQLITE_BUSY, against the documentation |
| BackupResults.ExtendedLockedIsFailure | include/eggs/sqlite/detail/sqlite3/sqlite3.h:6451-6460 | a lock refused with the extended code SQLITE_LOCKED_SHAREDCACHE ends the backup |
| BackupResults.CopiedIffWritten | include/eggs/sqlite/detail/sqlite3/sqlite3.h:6429-6435 | after one round of the loop the copied part is current if and only if the page was written, is the lock page, or was equal already |
| BackupResults.RefusedCopyLosesPage | include/eggs/sqlite/detail/sqlite3/sqlite3.h:6451-6460 | if copying a page were refused with SQLITE_BUSY the retried step would be done without that page |
| BackupCodes.StepCode | include/eggs/sqlite/detail/sqlite3/sqlite3.h:6429-6466 | a step returns the first answer that is not SQLITE_OK, in the order in which locks, pages, cookie and commit are asked for, and else SQLITE_DONE or SQLITE_OK; after any code but SQLITE_OK, SQLITE_BUSY and SQLITE_LOCKED it does nothing and returns that code again |
| BackupCodes.RefusedLeavesProgress | include/eggs/sqlite/detail/sqlite3/sqlite3.h:6451-6460 | a step that is refused a lock leaves the progress, both counters, the source and the committed destination as they were |
| BackupCodes.MirroredIff | include/eggs/sqlite/detail/sqlite3/sqlite3.h:6479-6482 | a write reaches a backup if and only if that is attached, has not failed and has passed the page; then it is in the destination or its error is recorded, and no other page changes |
| BackupCodes.LockPageIsNeverCopied | include/eggs/sqlite/detail/sqlite3/sqlite3.h:6429-6435 | over every run the destination's lock page is as it was, or a zero page |
| BackupCodes.FinishCode | include/eggs/sqlite/detail/sqlite3/sqlite3.h:6496-6505 | after any run finish returns SQLITE_OK if a step returned SQLITE_DONE, else the first failure, else the code of the last step |
| OnlineBackup.BackupObject.CopyLoop | include/eggs/sqlite/detail/sqlite3/sqlite3.h:6429-6435 | the loop copies the pages that the specification function says and stops with its result code |
| OnlineBackup.BackupObject.BackupStep | include/eggs/sqlite/detail/sqlite3/sqlite3.h:6429-6482 | the method on the object is the specified step, attaches the object to the source once, and restarts the other backups of that source exactly if a foreign change was noticed |
| OnlineBackup.BackupObject.BackupFinish | include/eggs/sqlite/detail/sqlite3/sqlite3.h:6489-6505 | detaches this object only, rolls back or keeps the destination, and returns the specified code |
| OnlineBackup.SourcePager.BackupRestart | include/eggs/sqlite/detail/sqlite3/sqlite3.h:6474-6479 | every attached backup starts over |
| OnlineBackup.SourcePager.BackupUpdate | include/eggs/sqlite/detail/sqlite3/sqlite3.h:6479-6482 | every attached backup is told about the page with its own result code |
| OnlineBackup.SourcePager.Write | include/eggs/sqlite/detail/sqlite3/sqlite3.h:6479-6482 | a write changes the source and every attached backup consistently |
| OnlineBackup.SourcePager.Replace | include/eggs/sqlite/detail/sqlite3/sqlite3.h:6474-6479 | pages put back by a rollback, or taken over by an in-memory commit, restart every attached backup |
| PageTable.AddPlaced | include/eggs/sqlite/detail/sqlite3/sqlite3.h:6247-6262 | a page entered in the chain of its key keeps the table exact: every page once, in its chain |
| PageTable.DropPlaced | include/eggs/sqlite/detail/sqlite3/sqlite3.h:6281-6284 | a page unlinked from its chain keeps the table exact |
| PageTable.MoveOneMore | include/eggs/sqlite/detail/sqlite3/sqlite3.h:6247-6262 | moving one page into the larger table keeps that table exact for the pages moved so far |
| PageCache.Rehash | include/eggs/sqlite/detail/sqlite3/sqlite3.h:6247-6262 | a larger hash table holds the same pages |
| PageCache.PCache1.Pagecount | include/eggs/sqlite/detail/sqlite3/sqlite3.h:6243-6245 | returns the number of entries, pinned and unpinned |
| PageCache.PCache1.Find | include/eggs/sqlite/detail/sqlite3/sqlite3.h:6256-6262 | the chain search finds a page if and only if there is one under the key |
| PageCache.PCache1.Fetch | include/eggs/sqlite/detail/sqlite3/sqlite3.h:6256-6273 | a hit returns the same page with its content and pins it; without a hit it says, from the number of entries, the pinned and unpinned ones and the cache size, when a page is given for each createFlag and which page is recycled; nothing else changes |
| PageCache.PCache1.RefusedIff | include/eggs/sqlite/detail/sqlite3/sqlite3.h:6263-6273 | with createFlag 1 a new page is refused if and only if the pinned pages reach the cache size or nine tenths of it, or memory is short |
| PageCache.PCache1.RecyclesIff | include/eggs/sqlite/detail/sqlite3/sqlite3.h:6287-6292 | an unpinned page is used again if and only if one more page would reach the cache size, or memory is short |
| PageCache.PCache1.Unpin | include/eggs/sqlite/detail/sqlite3/sqlite3.h:6281-6292 | the page leaves if discarded or the cache is over its size, and else heads the list of unpinned pages; the size limits stay |
| PageCache.PCache1.Rekey | include/eggs/sqlite/detail/sqlite3/sqlite3.h:6294-6299 | exactly that page changes its key |
| PageCache.PCache1.SetContent | include/eggs/sqlite/detail/sqlite3/sqlite3.h:6247-6254 | a client writes the buffer of one page; the cache stays consistent and no other page changes |
| PageCache.PCache1.NoMoreRecyclable | include/eggs/sqlite/detail/sqlite3/sqlite3.h:6243-6245 | the unpinned pages are never more than the entries, so the number of pinned pages is not negative |
| PageCache.RekeyMeetsContractIff | include/eggs/sqlite/detail/sqlite3/sqlite3.h:6294-6299 | afterwards the new key has this page only, as documented, if and only if no other entry was under it; none is left under the old key |
| PageCache.StaleAfterRekey | include/eggs/sqlite/detail/sqlite3/sqlite3.h:6294-6299 | otherwise the entry that was there is found again, with its stale content, once the moved page is gone |
| PageCache.PCache1.Truncate | include/eggs/sqlite/detail/sqlite3/sqlite3.h:6301-6305 | removes exactly the keys at or above the limit, pinned or not, and keeps the order of the unpinned pages |
| PageCache.PCache1.TruncateUnsafe | include/eggs/sqlite/detail/sqlite3/sqlite3.h:6301-6305 | the walk over all chains with removal leaves exactly the pages below the limit |
| PageCache.PCache1.EnforceMaxPage | include/eggs/sqlite/detail/sqlite3/sqlite3.h:6287-6288 | evicts from the end of the list of unpinned pages only, down to the limit |
| PageCache.PCache1.Cachesize | include/eggs/sqlite/detail/sqlite3/sqlite3.h:6235-6241 | pinned pages stay, unpinned ones go from the end of the list, and the limit is kept or no unpinned page is left |
| PageCache.PCache1.Shrink | include/eggs/sqlite/detail/sqlite3/sqlite3.h:6314-6319 | a purgeable cache is left with exactly its pinned pages |
| PageCache.TruncateMeetsContract | include/eggs/sqlite/detail/sqlite3/sqlite3.h:6301-6305 | the built-in cache's truncation meets what the interface asks of any cache |
| CachedReads.StepCoherent | include/eggs/sqlite/detail/sqlite3/sqlite3.h:6256-6305 | for any cache that meets the interface, with any evictions, each event keeps cache, disk and store coherent and each read answers as the store does |
| CachedReads.MoveCoherent | include/eggs/sqlite/detail/sqlite3/sqlite3.h:6294-6299 | moving a page to a free key is, for a client, moving its content |
| CachedReads.CutCoherent | include/eggs/sqlite/detail/sqlite3/sqlite3.h:6301-6305 | truncation is, for a client, forgetting the keys at or above the limit |
| CachedReads.ReadsAgree | include/eggs/sqlite/detail/sqlite3/sqlite3.h:6256-6305 | over every run a client that fills new pages, saves before unpinning and moves only to free keys reads what a client without a cache reads |
| CachedReads.StoreIsLastGiven | include/eggs/sqlite/detail/sqlite3/sqlite3.h:6256-6305 | the client without a cache has under a key the content given to it last by a write or a move, unless it was forgotten, moved away or cut off since |
| CachedReads.ReadReturnsLastGiven | include/eggs/sqlite/detail/sqlite3/sqlite3.h:6256-6305 | over every run a read through the cache returns the last content given to its key |
| TriggerTrace.WorkRuns | include/eggs/sqlite/detail/sqlite3/sqlite3.h:1719-1741 | for any nesting of triggers and recursive statements the flat machine leaves the values the tree of statements says |
| TriggerTrace.TriggerRuns | include/eggs/sqlite/detail/sqlite3/sqlite3.h:1719-1741 | a whole trigger leaves the count and the rowid of its statement alone, adds all its rows to the total, and leaves the connection's count at that of a statement cut short, or 0 |
| TriggerTrace.DirectIsOwnRows | include/eggs/sqlite/detail/sqlite3/sqlite3.h:1713-1717 | the count of a statement is the number of counted rows in its own list of changes, and its rowid the last one there |
| TriggerTrace.AllIsAllRows | include/eggs/sqlite/detail/sqlite3/sqlite3.h:1755-1763 | with its triggers it changes the counted rows in the list of all changes at any depth, beside what called statements add |
| ChangeCounters.StatementEnds | include/eggs/sqlite/detail/sqlite3/sqlite3.h:1701-1741 | the three values after any statement, finished or stopped anywhere inside nested triggers, for each way to end and whatever the transaction and the other writers do |
| ChangeCounters.EndingTable | include/eggs/sqlite/detail/sqlite3/sqlite3.h:1701-1767 | for each way to end, inside a transaction and at the end of one, with and without a savepoint: the exact count, the growth of the total, and whether the rows are kept |
| ChangeCounters.FinishedStatement | include/eggs/sqlite/detail/sqlite3/sqlite3.h:1701-1767 | a finished statement: the count is its direct rows, the total grows by all rows of all contexts and of called statements, the rowid is that of its own last insert or of the last one by a function it calls |
| ChangeCounters.ChangesRightIff | include/eggs/sqlite/detail/sqlite3/sqlite3.h:1713-1717 | the count equals the direct rows that are still there if and only if there were none, or the statement counts nothing and is undone, or it counts and is not undone |
| ChangeCounters.AbortWithoutSavepoint | include/eggs/sqlite/detail/sqlite3/sqlite3.h:1713-1717 | an UPDATE in a transaction that fails at its second row keeps the first, and neither the count nor the total has it |
| ChangeCounters.RowidRevertsIff | include/eggs/sqlite/detail/sqlite3/sqlite3.h:1666-1671 | the rowid reverts if and only if no trigger still open at the end has inserted a row or called a function that has, or the last one got the same rowid |
| ChangeCounters.RowidOfAbortedTriggerStays | include/eggs/sqlite/detail/sqlite3/sqlite3.h:1666-1671 | an aborted statement after which the rowid of its trigger stays |
| ChangeCounters.TotalRightIff | include/eggs/sqlite/detail/sqlite3/sqlite3.h:1755-1767 | the total grows by the rows of all contexts that are kept if and only if a statement that is undone has counted nothing, and one that is not undone counts its direct rows and does not stop inside a trigger that has changed rows itself |
| ChangeCounters.FailMissesUnfinished | include/eggs/sqlite/detail/sqlite3/sqlite3.h:1755-1767 | after OR FAIL the total lacks exactly the rows of unfinished statements in open triggers |
| ChangeCounters.InterruptedAmongWriters | include/eggs/sqlite/detail/sqlite3/sqlite3.h:1713-1717 | an interrupted statement is undone; it counts nothing while another write statement is active, and its rows otherwise |
| ChangeCounters.CallIsStatement | include/eggs/sqlite/detail/sqlite3/sqlite3.h:1727-1728 | a statement stepped recursively acts on the connection as its whole run on a machine of its own, and its last rowid reaches the caller exactly through a scalar function |
| ChangeCounters.LatestRowidIff | include/eggs/sqlite/detail/sqlite3/sqlite3.h:1659-1661 | after a finished statement the last rowid is that of the most recent insert, called statements included, if and only if an aggregate, collation or hook has not made it, or it got the same rowid |
| ChangeCounters.SeenIsChanges | include/eggs/sqlite/detail/sqlite3/sqlite3.h:1730-1741 | what sqlite3_changes() returns at any point inside nested triggers and recursive statements |
| ChangeCounters.SeenRightIff | include/eggs/sqlite/detail/sqlite3/sqlite3.h:1727-1741 | that is the count of the statement completed last in the same context, recursive ones included, if and only if no trigger has ended during the running statement since its last recursive one, or the last one left the same number |
| ChangeCounters.SeenIsLost | include/eggs/sqlite/detail/sqlite3/sqlite3.h:1730-1741 | inside a trigger the count of a completed statement is lost while a later statement fires a trigger |
| ChangeCounters.RunCounters | include/eggs/sqlite/detail/sqlite3/sqlite3.h:1755-1767 | over every run of statements the total is the sum over all statements and contexts, and the count is that of the last statement |
| ChangeCounters.FinishedRun | include/eggs/sqlite/detail/sqlite3/sqlite3.h:1755-1763 | if every statement finishes, every counted row of every context is in the total exactly once |
| Vdbe.Machine.CloseAllCursors | include/eggs/sqlite/detail/sqlite3/sqlite3.h:1666-1671 | the loop to the outermost frame restores the statement's own count |
| Vdbe.Machine.VdbeHalt | include/eggs/sqlite/detail/sqlite3/sqlite3.h:1701-1741 | the branches of the halt set the counters as specified, and roll back the transaction or the savepoint exactly when the specification says |
| Vdbe.Machine.Exec | include/eggs/sqlite/detail/sqlite3/sqlite3.h:1666-1741 | the instruction loop and the halt compute what the specification machine computes, including the rowid written back after the halt |
| Vdbe.Machine.Step | include/eggs/sqlite/detail/sqlite3/sqlite3.h:1701-1767 | one statement, from the connection's counters before to the counters after, and whether its rows are undone |
| Quoting.Convert | include/eggs/sqlite/detail/sqlite3/sqlite3.h:2060-2064 | %q, %Q and %w give the doubled text within a buffer of exactly the computed size, terminated by zero |
| Quoting.PrecisionLimits | include/eggs/sqlite/detail/sqlite3/sqlite3.h:2060-2064 | a precision cuts the text to that many characters, and a negative one does not cut it |
| Literals.GetToken | include/eggs/sqlite/detail/sqlite3/sqlite3.h:2066-2095 | the tokenizer ends a literal at its closing quote, and reports an unterminated one |
| Literals.Dequote | include/eggs/sqlite/detail/sqlite3/sqlite3.h:2066-2095 | in place, the buffer becomes the decoded text, terminated by zero, with the rest untouched |
| Literals.QuotedIsRead | include/eggs/sqlite/detail/sqlite3/sqlite3.h:2097-2109 | for every text and precision the literal of %Q decodes to the text, and ends at its last quote if and only if no further quote follows |
| Literals.InsideQuotesIsRead | include/eggs/sqlite/detail/sqlite3/sqlite3.h:2060-2100 | %q between single quotes and %w between double quotes are read back as the text, for every text and precision |
| Literals.NullIsNULL | include/eggs/sqlite/detail/sqlite3/sqlite3.h:2097-2100 | %Q of a NULL pointer is NULL without quotes |
| Literals.ClosingIs | include/eggs/sqlite/detail/sqlite3/sqlite3.h:2066-2095 | a quoted text ends with the same quote, one in brackets with the other bracket, and nothing else is quoted |
| Literals.QuotedIsUnique | include/eggs/sqlite/detail/sqlite3/sqlite3.h:2097-2109 | %Q distinguishes NULL from every text and any two texts from each other |
| Literals.NullLooksLikeText | include/eggs/sqlite/detail/sqlite3/sqlite3.h:2097-2100 | %q does not: NULL and the text (NULL) look the same |
| Literals.TruncatedLiteral | include/eggs/sqlite/detail/sqlite3/sqlite3.h:2047-2051 | a literal cut short by a small buffer is rejected or reads as a shorter text that ends before a quote |
| StrAccum.Accum.Append | include/eggs/sqlite/detail/sqlite3/sqlite3.h:2027-2051 | a fixed buffer holds the longest prefix that fits; an allocated one holds everything or is given up |
| StrAccum.Accum.AppendSpace | include/eggs/sqlite/detail/sqlite3/sqlite3.h:2024-2025 | padding appends exactly that many spaces |
| StrAccum.PaddedFillsField | include/eggs/sqlite/detail/sqlite3/sqlite3.h:2024-2025 | a conversion fills its field width with spaces on the side its text is not justified to |
| StrAccum.OutputConcat | include/eggs/sqlite/detail/sqlite3/sqlite3.h:2024-2051 | the output of a format is that of its pieces in order |
| StrAccum.Snprintf | include/eggs/sqlite/detail/sqlite3/sqlite3.h:2047-2051 | within n bytes: the longest prefix of the output that fits, then a zero; nothing is written if n is not positive |
| StrAccum.Mprintf | include/eggs/sqlite/detail/sqlite3/sqlite3.h:2027-2032 | all of the output or NULL; NULL if and only if memory fails or the output reaches both the limit and the size of the first buffer |
| UriDecoding.UnitsDecode | include/eggs/sqlite/detail/sqlite3/sqlite3.h:2637-2644 | decoding turns each character or %HH of a part into its byte |
| UriDecoding.HexToIntIff | include/eggs/sqlite/detail/sqlite3/sqlite3.h:2637-2644 | a character has a hexadecimal value if and only if it is one of 0-9, a-f and A-F, and then the value of that digit |
| UriDecoding.SpellsIff | include/eggs/sqlite/detail/sqlite3/sqlite3.h:2637-2644 | decoding gives a text if and only if each unit is its character or the two digits of its code in either case |
| UriDecoding.PercentStands | include/eggs/sqlite/detail/sqlite3/sqlite3.h:2637-2644 | a percent sign without two digits after it stands for itself |
| UriDecoding.ZeroEndsPart | include/eggs/sqlite/detail/sqlite3/sqlite3.h:2637-2644 | after %00 the rest of the path, name or value is ignored, up to where that part ends |
| UriDecoding.ParamDecodes | include/eggs/sqlite/detail/sqlite3/sqlite3.h:2565-2568 | one parameter, with or without a value, becomes its two fields; one without a name is ignored |
| UriDecoding.QueryDecodes | include/eggs/sqlite/detail/sqlite3/sqlite3.h:2551-2568 | a whole query becomes the fields of its named parameters, up to a fragment |
| UriParser.UriIsParsed | include/eggs/sqlite/detail/sqlite3/sqlite3.h:2551-2562 | every URI, however its characters are escaped, is parsed to its path and its named parameters; splitting comes before decoding |
| UriParser.SpelledUriIsParsed | include/eggs/sqlite/detail/sqlite3/sqlite3.h:2551-2568 | however its bytes are spelled, plainly or escaped in either case, a URI is parsed to just its path and its named parameters |
| UriParser.OtherAuthority | include/eggs/sqlite/detail/sqlite3/sqlite3.h:2552-2555 | an authority is accepted if and only if it is empty or localhost |
| UriParser.EveryNameHasUri | include/eggs/sqlite/detail/sqlite3/sqlite3.h:2637-2644 | for every path and parameters the URI that escapes every byte, with digits of either case, is parsed to them |
| UriParser.FindEach | include/eggs/sqlite/detail/sqlite3/sqlite3.h:2678-2682 | with distinct names each parameter is found with its value |
| UriParser.FindFirst | include/eggs/sqlite/detail/sqlite3/sqlite3.h:2678-2682 | a value is found if and only if a parameter has the name and it, and no earlier one has the name |
| UriParser.UriParameter | include/eggs/sqlite/detail/sqlite3/sqlite3.h:2670-2682 | the walk over the buffer returns the value of the first parameter with the name, or nothing |
| UriBuffer.DecodeInto | include/eggs/sqlite/detail/sqlite3/sqlite3.h:2637-2644 | the parsing loops never leave the buffer they allocate, for any input, and fill it as specified |
| UriOpen.DecodeHasLayout | include/eggs/sqlite/detail/sqlite3/sqlite3.h:2670-2682 | whatever the URI, the buffer is a path and a list of named parameters in the format that a VFS reads |
| UriOpen.LayoutUnique | include/eggs/sqlite/detail/sqlite3/sqlite3.h:2670-2682 | a buffer holds one path and one list of parameters only |
| UriOpen.WrittenUriIsOpened | include/eggs/sqlite/detail/sqlite3/sqlite3.h:2551-2568 | a URI written by the rules is opened with just the path and parameters it was written from |
| UriOpen.ReadOptions | include/eggs/sqlite/detail/sqlite3/sqlite3.h:2566-2607 | the loop over the buffer interprets its parameters in order and stops at the first that is refused |
| UriOpen.IsUriIff | include/eggs/sqlite/detail/sqlite3/sqlite3.h:2541-2550 | a name is taken as a URI if and only if it begins with file: and URIs are enabled for the call or globally |
| UriOpen.PlainNameIsOpened | include/eggs/sqlite/detail/sqlite3/sqlite3.h:2541-2550 | any other name is opened as it is, without parameters and with the URI flag cleared, if and only if its VFS is there |
| UriFlags.WithoutUriIs | include/eggs/sqlite/detail/sqlite3/sqlite3.h:2541-2550 | the URI flag and no other is cleared in the flags of a name that is not a URI |
| UriOpen.ParseUri | include/eggs/sqlite/detail/sqlite3/sqlite3.h:2541-2607 | the whole function for every filename, flags and VFS list |
| UriOpen.LastVfsIsOpened | include/eggs/sqlite/detail/sqlite3/sqlite3.h:2573-2577 | a URI with acceptable parameters is opened if and only if the VFS of its last vfs parameter is there; an empty name is looked up like any other and does not give the default |
| UriOptions.WiderModeIff | include/eggs/sqlite/detail/sqlite3/sqlite3.h:2579-2592 | a mode with wider access than the flags is accepted if and only if the flags say in-memory |
| UriOptions.LastModeDecides | include/eggs/sqlite/detail/sqlite3/sqlite3.h:2579-2592 | the access of an accepted URI is that of its last mode parameter, and the caller's if it has none |
| UriOptions.NotWiderIff | include/eggs/sqlite/detail/sqlite3/sqlite3.h:2579-2592 | over every accepted list of parameters the access is no wider than the caller's flags if and only if there is no mode parameter or the last one is no wider |
| UriOptions.NeverWider | include/eggs/sqlite/detail/sqlite3/sqlite3.h:2579-2592 | in particular it is not wider unless a mode is set while the flags say in-memory |
| UriOptions.MemoryThenCreate | include/eggs/sqlite/detail/sqlite3/sqlite3.h:2579-2592 | two mode parameters turn read-only flags into read-write and create |
| UriOptions.VfsIsLast | include/eggs/sqlite/detail/sqlite3/sqlite3.h:2575-2577 | the last vfs parameter takes precedence over earlier ones and over the caller's |
| UriEffects.CacheParameter | include/eggs/sqlite/detail/sqlite3/sqlite3.h:2594-2601 | the cache parameter sets one of the two cache flags and clears the other, leaves all else alone, and any other value is an error |
| UriEffects.ModeParameter | include/eggs/sqlite/detail/sqlite3/sqlite3.h:2579-2592 | the mode parameter replaces the access flags by those of its value exactly when that is allowed, leaves all else alone, and an unknown value is an error |
| UriEffects.OtherParameter | include/eggs/sqlite/detail/sqlite3/sqlite3.h:2569-2577 | any other parameter changes no flag, and only vfs the VFS |
| UriEffects.FlagsOfUri | include/eggs/sqlite/detail/sqlite3/sqlite3.h:2579-2601 | over every accepted list the access flags are those of the last mode, the cache flags those of the last cache parameter, and all other flags the caller's |
| Memory.Mem0.Malloc | include/eggs/sqlite/detail/sqlite3/sqlite3.h:2128-2133 | fails exactly for sizes out of range or lack of memory; otherwise one allocation of at least that size is added |
| Memory.Mem0.Free | include/eggs/sqlite/detail/sqlite3/sqlite3.h:2135-2143 | removes that allocation; a NULL pointer changes nothing |
| Memory.Mem0.Realloc | include/eggs/sqlite/detail/sqlite3/sqlite3.h:2145-2161 | the NULL, non-positive, failing and successful cases; success keeps the first min(old, new) bytes, failure keeps the old allocation; the counters make the specified step |
| Memory.Mem0.MemoryUsed | include/eggs/sqlite/detail/sqlite3/sqlite3.h:2201-2203 | the sum of all live allocation sizes if and only if that is below 2 GiB |
| Memory.Mem0.MemoryHighwater | include/eggs/sqlite/detail/sqlite3/sqlite3.h:2203-2215 | returns the mark as it was, and a reset sets it to the current value |
| Memory.MarkIsLargest | include/eggs/sqlite/detail/sqlite3/sqlite3.h:2203-2215 | over any sequence of operations the mark is the largest value the 32-bit counter has had since the last reset |
| Memory.HighwaterRightIff | include/eggs/sqlite/detail/sqlite3/sqlite3.h:2203-2215 | over any sequence of malloc, realloc, free and resets the mark is the most memory in use since the last reset if and only if that is below 2 GiB |
| Memory.MaxIsLargest | include/eggs/sqlite/detail/sqlite3/sqlite3.h:2203-2206 | the maximum of a sequence is one of its values, and none is larger |
| Memory.InUseAdd | include/eggs/sqlite/detail/sqlite3/sqlite3.h:2201-2203 | a new allocation adds its size to the memory in use |
| Memory.CounterRightIff | include/eggs/sqlite/detail/sqlite3/sqlite3.h:2201-2206 | the 32-bit counter is right exactly below 2 GiB |
| BlobRuns.RangeCheckIff | include/eggs/sqlite/detail/sqlite3/sqlite3.h:5391-5395 | the range check is the documented one if and only if offset plus length does not overflow 32 bits |
| BlobRuns.SecondCheckIff | include/eggs/sqlite/detail/sqlite3/sqlite3.h:5391-5395 | of the requests that pass the range check the check of the b-tree lets those within the content through, and stops the others if and only if its own 32-bit sum does not wrap around |
| BlobRuns.EscapesIff | include/eggs/sqlite/detail/sqlite3/sqlite3.h:5391-5395 | a request passes both checks beyond the content if and only if the handle can be used for it and the place of the content in its record, offset and length together reach 2^32 |
| BlobRuns.UsableIff | include/eggs/sqlite/detail/sqlite3/sqlite3.h:5287-5294 | over every run a handle can be used exactly as long as no later event has changed a row of the number it was put on, in whatever table, cleared a table, or moved the handle or tried to |
| BlobRuns.AccessOkIff | include/eggs/sqlite/detail/sqlite3/sqlite3.h:5387-5403 | over every run a read or write succeeds if and only if nothing has taken the handle off its row, the bytes lie within that row's content and a writer was opened for writing |
| BlobRuns.AccessAbortsIff | include/eggs/sqlite/detail/sqlite3/sqlite3.h:5397-5398 | over every run a read or write is SQLITE_ABORT if and only if something has taken the handle off its row and the request is not out of its last range |
| BlobRuns.AccessTable | include/eggs/sqlite/detail/sqlite3/sqlite3.h:5387-5436 | over every run the code of each read and write: out of range, off the row, read-only, within the content, beyond it |
| BlobRuns.OpenOkIff | include/eggs/sqlite/detail/sqlite3/sqlite3.h:5331-5339 | over every run opening succeeds if and only if the row has a blob or text, and moving if in addition the handle was never aborted |
| BlobRuns.BytesIff | include/eggs/sqlite/detail/sqlite3/sqlite3.h:5372-5375 | over every run the size told is that of the content the handle was last put on, and zero once it is aborted |
| BlobRuns.AbortedForEver | include/eggs/sqlite/detail/sqlite3/sqlite3.h:5335-5339 | once a use answered SQLITE_ABORT or a move failed, nothing through the handle succeeds, returns a byte or changes anything, over the rest of the run |
| BlobRuns.HandlesKeepSizes | include/eggs/sqlite/detail/sqlite3/sqlite3.h:5298-5301 | over every stretch of a run without statements, no row appears, vanishes or changes its size |
| BlobRuns.BytesIsSize | include/eggs/sqlite/detail/sqlite3/sqlite3.h:5372-5375 | as long as nothing has taken the handle off its row the size it tells is that of the content |
| BlobRuns.ByteIsLastPut | include/eggs/sqlite/detail/sqlite3/sqlite3.h:5294-5296 | over every run each byte of a row is the one put there by the last successful write that covered it or the last statement that changed the row, or the original one if there was neither |
| BlobRuns.ReadReturnsLastPut | include/eggs/sqlite/detail/sqlite3/sqlite3.h:5387-5389 | a successful read returns exactly those bytes of the row the handle was last put on |
| BlobRuns.OtherTableExpires | include/eggs/sqlite/detail/sqlite3/sqlite3.h:5287-5291 | a change in another table of a row with the same number, or of all rows there, expires the handle although its own row stays as it is |
| BlobHandles.Table.Open | include/eggs/sqlite/detail/sqlite3/sqlite3.h:5287-5301 | opening on the objects is the step: a new handle, or SQLITE_ERROR and none |
| BlobHandles.Table.Reopen | include/eggs/sqlite/detail/sqlite3/sqlite3.h:5331-5339 | moving a handle on the objects is the step, and no other handle changes |
| BlobHandles.Table.Read | include/eggs/sqlite/detail/sqlite3/sqlite3.h:5387-5403 | reading through the objects is the step: code, bytes and handles |
| BlobHandles.Table.Write | include/eggs/sqlite/detail/sqlite3/sqlite3.h:5415-5436 | writing through the objects is the step, negative lengths included: code, rows and handles |
| BlobHandles.Table.InvalidateIncrblobCursors | include/eggs/sqlite/detail/sqlite3/sqlite3.h:5287-5293 | the loop expires all handles on rows of that number and no other, or all of them |
| BlobHandles.Table.ChangeRow | include/eggs/sqlite/detail/sqlite3/sqlite3.h:5287-5296 | a statement on the objects is the step |
| BlobHandles.Table.ClearTable | include/eggs/sqlite/detail/sqlite3/sqlite3.h:5287-5293 | deleting all rows at once is the step |
| BlobHandles.Table.ClearElsewhere | include/eggs/sqlite/detail/sqlite3/sqlite3.h:5287-5293 | deleting all rows of another table is the step that expires all handles |
| Interrupt.InterruptedIff | include/eggs/sqlite/detail/sqlite3/sqlite3.h:1801-1810 | over every run a check aborts its statement if and only if a call is in the documented scope or slipped in between the two steps of a start |
| Interrupt.DocumentedScopeIff | include/eggs/sqlite/detail/sqlite3/sqlite3.h:1801-1810 | with no call at that moment the scope is exactly the documented one |
| Interrupt.SlippedCallStops | include/eggs/sqlite/detail/sqlite3/sqlite3.h:1808-1810 | a call made while nothing was running that stops a statement |
| Interrupt.EffectStays | include/eggs/sqlite/detail/sqlite3/sqlite3.h:1801-1805 | while some statement is running a call in effect stays in effect, and only a call puts one in effect |
| Interrupt.FlagIff | include/eggs/sqlite/detail/sqlite3/sqlite3.h:1801-1810 | at every point of every run the flag is set if and only if there was a call that no start of a prepare or first statement has wiped out since |
| Interrupt.EarlierCallsAreWiped | include/eggs/sqlite/detail/sqlite3/sqlite3.h:1806-1810 | a call before a prepare, while nothing is running, stops neither the parser nor anything after it |
| Checkpoint.CheckpointDatabases | include/eggs/sqlite/detail/sqlite3/sqlite3.h:6859-6868 | all databases up to and including the first failure other than SQLITE_BUSY are tried; returns that failure, else SQLITE_BUSY if any was busy, else SQLITE_OK |

## Left out

- The SQL compiler, the virtual machine apart from its counters, the b-tree, the pager and the WAL file format.
- The C++ wrapper headers, the VFS, file locks, busy handlers and clocks; their answers are parameters.
- Unlock notification: re-entrant callbacks (undefined by the header), and mutexes; each entry point is one step.
- Backup: sources and destinations with different page sizes, WAL destinations with another page size, in-memory destinations, the reserved lock page in files of other page sizes, pages that the pager does not write, and failures of `sqlite3_backup_init()`.
- Backup: a foreign change during a read transaction of a WAL source is modelled as one right after it, since the connection does not see it before.
- Page cache: page groups shared by several caches, memory-pressure policy beyond its yes-or-no answer, `xInit`, `xShutdown` and `xDestroy`, and page sizes; a buffer is one value. The list of unpinned pages is a sequence, so its pointer surgery is not modelled. `pcache1Fetch()` leaves nCurrentPage alone when it recycles a page; here it falls and rises by one within the call.
- CachedReads.ReadsAgree: a key that was forgotten, cut off or moved away has no agreed content until it is written again.
- Change counters: widths of the counters, which statements open a savepoint, why a commit or the end of a savepoint fails, row changes that fail in the b-tree or in a virtual table after they have been counted, the limit on trigger depth (a statement that hits it stops like any other), and the switch that disables recursive triggers. What a called statement counts is taken as the rows that it keeps. Saved frames are a sequence instead of linked objects.
- Quoting: widths of counters, running out of memory for the conversion buffer, and all conversions other than %q, %Q and %w, which enter StrAccum.Snprintf as finished text.
- StrAccum.Mprintf: memory is available for all allocations of one call or for none.
- URI filenames: `sqlite3_uri_boolean()` and `sqlite3_uri_int64()`, invalid UTF-8, and lengths near the limit of a 32-bit integer.
- Memory: alignment, alarms and the soft heap limit, scratch and lookaside memory, and configurations without statistics.
- BLOB handles: finding the column, indexed and foreign-key columns, closing handles, transactions, I/O errors, and what happens to a request that passes both range checks beyond the content (`BlobRuns.EscapesIff` says which those are).
- Interrupt: where in a statement the checks are.
- Checkpoint: what a checkpoint of one database does, and the output parameters.
