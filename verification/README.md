# RMDB, verified

A Dafny model of the storage and transaction core of RMDB, a small relational engine in C++, with proofs of what
that core promises. `dafny verify dfyconfig.toml` checks the whole project.

- **B+ tree index** (`Index*.dfy`). Class `IxIndexHandle` holds the pages and the file header as the source does and
  changes them in place. Beside them stands a ghost *tower*: one row of boxes per level, each row listing the first
  keys of the row below. The invariant `Valid` says: the pages are the boxes of the tower; parent pointers are right;
  every separator is exactly the first key of its child; all leaves have the same depth; keys ascend; sizes of pages
  other than the root lie in [min, max); the circular leaf list through page 1 is the lowest row; page 2 is its first
  leaf and `last_leaf_` its last; `num_pages_` is two more than the number of tree pages. Insert and delete
  refine a finite map, scans a range of it. Keys are integers: `IndexOrder.dfy` says what `ix_compare` makes of
  integers, floats and strings, and shows that keys without NaN are ordered as integers.
- **Log and recovery** (`Log*.dfy`, `StalePages.dfy`, `Recovery.dfy`). Records as bytes, the buffered log writer, and
  analyze, redo and undo over a log read in chunks. `RecoverExact` says exactly when recovery comes to its end and with
  which rows, for every log, all rows and all page LSNs; `RedoExact` and `UndoExact` say exactly when redo repeats history
  and when undo then leaves the rows of the finished transactions; `RecoverLatchedIs` says what page latches add to that.
- **Transactions** (`TableIndexes.dfy`, `Rollback.dfy`, `TransactionSteps.dfy`, `Transactions.dfy`, `Restart.dfy`). Begin,
  the three write executors, commit and abort over rows, page LSNs, unique indexes, log and write sets; commit and abort
  release their locks in one step and log their end in another. Every step is stated from any state (`Sane`), with exactly
  when it keeps transactions out of each other's way (`Coherent`) and able to roll back (`Valid`). `Restart.Recover` puts
  it together. After a crash at any moment, exactly the committed transactions are back if the log in the file is isolated,
  all pages on disk hold their history up to their LSN, and no slot of a transaction whose end is not in the log file was
  written later by one whose end is; the exact condition is that of `CommittedExact`, `RedoExact` and `RecoverLatchedIs`.
- **Table locks** (`Lock*.dfy`). A state machine of requests, wake-ups and releases; safety and serializability over
  all of its runs; the class `LockManager` does its steps with the loops of the source. `LockAnswers.dfy` says what a
  call answers in terms of who has asked and who holds what.
- **Buffer pool** (`ClockReplacer.dfy`, `BufferPool.dfy`) and **heap file** (`Bitmap.dfy`, `HeapPages.dfy`,
  `HeapFile.dfy`), and the **gaps** of index predicates (`Gaps.dfy`).

Where the code falls short of what one would expect, the model follows the code:

- Table locking is not serializable: an upgrade from S to X gives up its S while it waits, and an older transaction
  may be granted X meanwhile (`LockAnomaly`). `Serializable` holds for all runs without such overtaking, and
  `OvertakingBreaks` shows that no run with one is safe from then on.
- Commit releases locks before it logs COMMIT, and abort before it logs ABORT. If others write the same rows in between
  and the log file ends there, recovery can take back an update whose COMMIT is in the file
  (`EarlyReleaseLosesUpdate`) or fail (`EarlyReleaseStopsRecovery`). `CommittedExact` says exactly when it does neither.
- Undo logs nothing, so a second recovery redoes and undoes the same records again and can fail
  (`SecondRecoveryFails`, `SecondRedoFails`). `SecondRecoveryExact` says exactly when it ends with the right rows.
- Abort does not raise page LSNs, so redo can fail on a page written after an abort (`RollbackLeavesStaleLsn`). It can
  also wait for ever: deleting a row that is not there throws with the page latched, redo swallows the error, and the next
  insert or delete on that page never returns (`RollbackHangsRedo`). `RollbackExact` says exactly when it does neither.
- Writers of an indexed table take no table lock. A write into a slot, or of a key, that a running transaction would
  bring back spoils its rollback (`ReusedSlot`). `UndoableExact` says that no other write does, and `RollbackRowsExact`
  exactly when a rollback still ends with the right rows.
- A float column with NaN has no order: 1.0 and 2.0 both equal NaN (`NanBreaksOrder`). Without NaN, keys have one
  (`Compare`).
- `persist_lsn_` starts at 0 and so covers the first record before it is in the file (`PersistedExact`).
- An update record whose two images differ in size does not read back (`RecordRoundTrip`).
- A range scan whose bounds are crossed runs off the last leaf if a stored key lies between them (`RangeScan`).
- Inserting at a given rid can lose pages from the free list (`InsertRecordAt`), and a later insert then puts its record
  behind the last slot of a full page (`LoseRecord`).
- Analyze adds a page to a file whatever its free list holds, and the pages with room of before are lost from the list
  (`CreateNewPageHandle`).
- Dropping the pages of a file that are still pinned leaves the clock counting them (`DeleteAllPages`).
- A comment in `src/transaction/concurrency/lock_manager.cpp:1016` says that a younger transaction never gets to where an
  upgrade would have to wait. The code allows it and aborts it, and so does the model.

Concurrency is modelled as interleaved atomic steps, each what one call does while it holds `latch_`. The disk is a
map or a sequence of bytes. Frames chosen by hash order, page numbers and rids come from the state or as parameters.

## Model

| member | source | states |
|---|---|---|
| IndexHandle.IxIndexHandle.constructor | src/index/ix_manager.h:95-147 | a new index is a valid empty tree: root and first leaf are page 2, the leaf ring is page 1 and page 2, three pages in all |
| IndexHandle.IxIndexHandle.InsertEntry | src/index/ix_index_handle.cpp:500-561 | `IX_NO_PAGE` and no change at all if the key is present; otherwise the map gains exactly key -> value, the whole invariant holds again after any chain of splits up to a new root, and the page returned is the leaf that now holds the entry |
| IndexHandle.IxIndexHandle.DeleteEntry | src/index/ix_index_handle.cpp:568-618 | false and no change at all if the key is absent; in any case the map loses exactly the key, and the whole invariant holds again after any cascade of borrows, merges and root collapse |
| IndexHandle.IxIndexHandle.GetValue | src/index/ix_index_handle.cpp:329-348 | finds a key if and only if the map has it, with its rid |
| IndexHandle.IxIndexHandle.FindLeafPage | src/index/ix_index_handle.cpp:270-319 | the descent ends in the one leaf whose key interval covers the key |
| IndexHandle.IxIndexHandle.FindChild | src/index/ix_index_handle.h:190-201 | the slot of a child in its parent |
| IndexHandle.IxIndexHandle.Split | src/index/ix_index_handle.cpp:358-401 | a full page becomes two: the row gains a box, the entries below are the same in the same order, everything but the link to the row above holds |
| IndexHandle.IxIndexHandle.SplitPage | src/index/ix_index_handle.cpp:358-401 | what a split does to every page: halves, sibling links, parent pointers of moved children, nothing else |
| IndexHandle.IxIndexHandle.InsertIntoParent | src/index/ix_index_handle.cpp:418-468 | closes the gap a split left above it, splitting further up and growing a new root if need be; terminates; leaves are not touched |
| IndexHandle.IxIndexHandle.GrowRoot | src/index/ix_index_handle.cpp:430-450 | the two halves of a split root get a new root: one row more, invariant restored |
| IndexHandle.IxIndexHandle.MaintainParent | src/index/ix_index_handle.cpp:1001-1018 | stopping at the first ancestor whose key already agrees is enough: afterwards every separator is the first key of its child |
| IndexHandle.IxIndexHandle.CreateNode | src/index/ix_index_handle.cpp:988-994 | a fresh page number, a zeroed page, and one more in `num_pages_` |
| IndexHandle.IxIndexHandle.MaintainChild | src/index/ix_index_handle.cpp:1050-1060 | a child of an inner page names that page as its parent |
| IndexHandle.IxIndexHandle.EraseLeaf | src/index/ix_index_handle.cpp:1026-1036 | the leaf is out of the ring, its two neighbours are linked, no other page changes |
| IndexHandle.IxIndexHandle.AdjustRoot | src/index/ix_index_handle.cpp:627-655 | an inner root with one child hands over to it, an empty root leaf is page 2 already; entries unchanged, invariant restored |
| IndexHandle.IxIndexHandle.Redistribute | src/index/ix_index_handle.cpp:673-706 | borrowing from the left or right sibling restores every page size and separator and keeps all entries in order |
| IndexHandle.IxIndexHandle.Coalesce | src/index/ix_index_handle.cpp:728-773 | merging right into left drops one page and one separator, keeps all entries in order, leaves page 2 the leftmost leaf, and repairs the parent recursively |
| IndexHandle.IxIndexHandle.CoalesceOrRedistribute | src/index/ix_index_handle.cpp:786-856 | whatever page lost an entry, the tree is valid again with the same entries; the recursion climbs and ends |
| IndexHandle.IxIndexHandle.BorrowFromRight | src/index/ix_index_handle.cpp:685-695 | the pages after the first entry of the right sibling moved over |
| IndexHandle.IxIndexHandle.BorrowFromLeft | src/index/ix_index_handle.cpp:696-705 | the pages after the last entry of the left sibling moved over |
| IndexHandle.IxIndexHandle.MergePages | src/index/ix_index_handle.cpp:741-771 | the pages, `num_pages_` and `last_leaf_` after a merge |
| IndexHandle.IxIndexHandle.LowerBound | src/index/ix_index_handle.cpp:889-907 | a cursor at the first entry, in key order over the whole tree, whose key is at least the given one |
| IndexHandle.IxIndexHandle.UpperBound | src/index/ix_index_handle.cpp:915-937 | a cursor at the first entry whose key exceeds the given one |
| IndexHandle.IxIndexHandle.LeafBegin | src/index/ix_index_handle.cpp:960-963 | the never updated `first_leaf_` is a cursor at the first entry |
| IndexHandle.IxIndexHandle.LeafEnd | src/index/ix_index_handle.cpp:945-952 | `last_leaf_` and its size are the cursor behind the last entry |
| IndexHandle.IxIndexHandle.GetRid | src/index/ix_index_handle.cpp:868-879 | the rid at a cursor; the place behind the last entry is an error |
| IndexHandle.IxIndexHandle.PrevIid | src/index/ix_scan.cpp:58-81 | the cursor one place back, across leaves |
| IndexHandle.IxIndexHandle.PrevRid | src/index/ix_scan.cpp:83 | the rid of the entry before a cursor |
| IndexSearch.NodeLowerBound | src/index/ix_index_handle.cpp:48-64 | binary search: first slot of a sorted page whose key is at least the target |
| IndexSearch.NodeUpperBound | src/index/ix_index_handle.cpp:73-90 | binary search from slot 1: first such slot whose key exceeds the target |
| IndexSearch.CoversDown | src/index/ix_index_handle.cpp:295-316 | the child picked by the upper bound covers the key one row further down |
| IndexTower.KeyAgrees | src/index/ix_index_handle.cpp:1001-1018 | if the ancestor already holds the first key, all links above are in order |
| IndexTower.KeyMovesUp | src/index/ix_index_handle.cpp:1001-1018 | writing the first key into the parent moves the one stale separator a row up, and only if the child was the first |
| IndexTower.SplitLinks | src/index/ix_index_handle.cpp:358-401 | after a split all rows still index each other, except for the missing new box |
| IndexTower.FillHole | src/index/ix_index_handle.cpp:451-466 | inserting the new separator behind the old one closes the gap |
| IndexTower.ShiftLinks | src/index/ix_index_handle.cpp:673-706 | moving an entry between siblings and renewing one separator keeps all rows linked |
| IndexTower.MergeLinks | src/index/ix_index_handle.cpp:728-773 | a merge of neighbours and the removal of one separator keep all rows linked |
| IndexSteps.BorrowRightWhole | src/index/ix_index_handle.cpp:685-695 | the borrow, stated on pages, keeps the invariant of the whole file |
| IndexSteps.BorrowLeftWhole | src/index/ix_index_handle.cpp:696-705 | the same from the left |
| IndexSteps.MergeWhole | src/index/ix_index_handle.cpp:728-773 | the merge, stated on pages, keeps the invariant of the whole file: ring, parents, depth, `num_pages_`, last leaf |
| IndexSteps.CollapseStep | src/index/ix_index_handle.cpp:640-652 | dropping the top row keeps the invariant of the whole file |
| IndexScan.IxScan.Next | src/index/ix_scan.cpp:17-36 | one place forward, across leaves, never past the end of the last leaf |
| IndexScan.SamePlace | src/index/ix_scan.cpp:17-36 | two cursors are equal if and only if they denote the same place, so the end test of a scan is exact |
| IndexScan.RangeScan | src/execution/executor_index_scan.h:221-243 | terminates and yields exactly the entries with lo <= key <= hi, ascending, each once; it runs off the last leaf if and only if some stored key lies strictly between hi and lo |
| IndexScan.LastInRange | src/index/ix_scan.cpp:58-83 | the entry before `upper_bound(hi)` has the greatest key of a non-empty range |
| IndexOrder.Compare | src/index/ix_index_handle.h:46-57 | keys are decided by the first column that tells them apart; without NaN that is the order of one integer per key, so a tree over integers loses nothing |
| IndexOrder.CompareColumn | src/index/ix_index_handle.h:28-44 | an int column compares the integers its bytes encode, a float column the reals given by sign, exponent and fraction, the two zeros being equal, with NaN equal to everything, a string column the first bytes that differ |
| IndexOrder.FloatOrderIs | src/index/ix_index_handle.h:34-38 | IEEE 754 numbers are ordered as their bits are, sign aside: a float column has the order of an integer |
| IndexOrder.ColumnDecides | src/index/ix_index_handle.h:28-44 | there is one answer for two columns, but for its size |
| IndexOrder.KeysDecide | src/index/ix_index_handle.h:46-57 | and one for two keys |
| IndexOrder.NanBreaksOrder | src/index/ix_index_handle.h:34-38 | 1.0 and 2.0 both equal NaN, but not each other |
| IndexOrder.TreeOrder | src/index/ix_manager.h:80-93 | keys over 512 bytes are refused; otherwise the order exceeds 2, order + 1 entries fit into a page, and one more would not |
| LogCodec.RecordRoundTrip | src/recovery/log_manager.h:48-63 | whatever follows it in the log, a record reads back as itself if and only if it is no update with images of different sizes; its length field is its length |
| LogCodec.HeaderRoundTrip | src/recovery/log_manager.h:48-63 | type, LSN, length, transaction and previous LSN come back from the header |
| LogCodec.WriteRoundTrip | src/recovery/log_manager.h:212-238 | insert and delete records come back from their bytes |
| LogCodec.UpdateRoundTrip | src/recovery/log_manager.h:367-398 | update records with images of equal size come back from their bytes |
| LogLayout.HeaderLayout | src/recovery/log_manager.h:23-54 | the words at bytes 0, 4, 8, 12 and 16 are type code, LSN, total length, transaction and previous LSN, least significant byte first; update, insert, delete, begin, commit and abort are 0 to 5 |
| LogLayout.WriteLayout | src/recovery/log_manager.h:212-223 | behind the header of a write stand the size and the bytes of the row, both images of an update, then page, slot, length and name of the table, each at its offset |
| LogWriter.Serialize | src/recovery/log_manager.h:48-55 | the memcpy sequence leaves exactly the bytes of the record behind what the buffer held |
| LogWriter.SerializeWrite | src/recovery/log_manager.h:212-224 | size, images, rid, name size and name, in that order |
| LogWriter.LogManager.AddLogToBuffer | src/recovery/log_manager.cpp:20-30 | file followed by buffer is always the concatenation of all records added, in LSN order; the offset never exceeds the buffer; the LSN returned is the next one; the file changes if and only if the buffer has no room for the record, and then it holds everything before it |
| LogWriter.LogManager.FlushLogToDisk | src/recovery/log_manager.cpp:36-44 | afterwards the file holds every record; `persist_lsn_` is the last LSN given out, unless there was nothing to write |
| LogWriter.LogManager.constructor | src/recovery/log_manager.h:485-489 | an empty file and buffer; both LSNs start at 0 |
| LogWriter.PersistedExact | src/recovery/log_manager.h:488 | the records up to `persist_lsn_` are those in the file, except from the first record, if it has LSN 0, to the first flush |
| Recovery.RecoveryManager.Analyze | src/recovery/log_recovery.cpp:20-206 | for every log of complete records, whatever the chunk boundaries: terminates, visits each record once in order, collects exactly the active transactions with their last LSNs, the offset of every LSN and the LSNs to redo, leaves every page at the greater of its LSN on disk and the LSN of the last record that writes it, and sets next LSN and next transaction id just above all seen |
| Recovery.RecoveryManager.AnalyzeChunk | src/recovery/log_recovery.cpp:30-197 | takes every record that lies completely in the chunk, at least one, and stops at a record boundary |
| Recovery.RecoveryManager.TakeRecord | src/recovery/log_recovery.cpp:30-37 | a record is taken if and only if all of it is in the chunk, and then it is the next record of the log |
| Recovery.RecoveryManager.AnalyzeRecord | src/recovery/log_recovery.cpp:41-193 | what one record does to the transaction table, the LSN table, the redo list and the page LSNs, all of them exact for the log read so far |
| Recovery.NothingToRedo | src/recovery/log_recovery.cpp:104-106 | pages written back with the LSNs that analysis leaves need no redo after the next crash |
| Recovery.RecoveryManager.Redo | src/recovery/log_recovery.cpp:211-300 | from any pages, page LSNs and latches whatsoever: ends, fails or waits for ever exactly as the run of redo does, record by record, with its rows and the pages it leaves latched |
| LogRedo.RedoExact | src/recovery/log_recovery.cpp:211-300 | for every legal log, rows and page LSNs, latches aside: redo ends without error with the rows of the whole log if and only if each slot that no record above the LSN of its page writes is as its history up to that LSN, and each slot whose first such record is an update has a row |
| LogRedo.RedoRunIs | src/recovery/log_recovery.cpp:211-300 | redo of any log whatsoever, latches aside: no error if and only if every redone update finds a row, left by the last redone write of the slot or on the page; each slot ends as its last redone write leaves it, or as the page has it |
| LogRedo.PagesAtLsnRedo | src/recovery/log_recovery.cpp:211-300 | pages that hold their history up to their LSN meet that condition |
| LogLatches.RedoLatchedIs | src/recovery/log_recovery.cpp:211-300 | a delete that finds no row throws with its page latched, and redo goes on: redo comes to its end if and only if it would without latches and no such delete is followed by another redone insert or delete on its page; the pages of such deletes stay latched |
| LogLatches.UndoLatchedIs | src/recovery/log_recovery.cpp:305-431 | undo comes to its end if and only if it would without latches and no insert or delete is undone on a page that redo has left latched |
| LogLatches.RecoverLatchedIs | src/recovery/log_recovery.cpp:211-431 | recovery comes to its end with the given rows if and only if it would without latches and no redone delete that finds no row is followed, in redo or undo, by another insert or delete on its page; a page stays latched if and only if there was such a delete on it |
| LogLatches.EmptyFirst | src/recovery/log_recovery.cpp:211-300 | in a legal history a redone delete finds no row if and only if it is the first record above the LSN of its page that writes the slot, and the page has no row there |
| LogLatches.PagesAtLsnUnstuck | src/recovery/log_recovery.cpp:211-300 | if pages hold their history up to their LSN, every redone delete finds its row and no page stays latched |
| Recovery.RecoveryManager.FillHeap | src/recovery/log_recovery.cpp:308-313 | the heap starts with the last LSN of every active transaction, once each |
| Recovery.RecoveryManager.Undo | src/recovery/log_recovery.cpp:305-431 | on any log, rows and latches: ends, fails or waits for ever exactly as the run of undo does, with its rows; visits exactly the records of unfinished transactions, each once, by strictly decreasing LSN, up to there |
| LogUndo.TopIsLatest | src/recovery/log_recovery.cpp:316-318 | the top of the heap is the latest record of an unfinished transaction that is still to be undone |
| LogUndo.HeapStep | src/recovery/log_recovery.cpp:316-431 | replacing the top by its `prev_lsn_` keeps the heap the set of chain positions |
| LogUndoExact.UndoRunIs | src/recovery/log_recovery.cpp:305-431 | from any rows: undo ends without error with the given rows if and only if every unfinished insert and update finds a row, and every slot they wrote is as the first of these writes had found it |
| LogUndoExact.UndoExact | src/recovery/log_recovery.cpp:305-431 | undoing any set of transactions of a legal history, whatever the others did: no error and the rows of the others, if and only if every insert or update to be undone meets a row and no other transaction that wrote a slot later left it other than the first undone write had found it |
| LogUndoExact.GoneLastMeet | src/recovery/log_recovery.cpp:305-431 | that is so if no slot of an undone transaction is written later by another one |
| LogUndoExact.SecondUndoExact | src/recovery/log_recovery.cpp:305-437 | undo logs nothing, so the next start undoes the same records again, on whatever rows there are then: no error and the given rows, if and only if every slot they wrote should be as the first of these writes had found it and has a row unless the last of them was a delete, and all other slots are right |
| Recovery.RecoveryManager.Recover | src/recovery/log_recovery.cpp:20-431 | analyze, redo, undo on any well-formed log and any pages: does what the runs of redo and undo do; every page ends at the greater of its LSN on disk and the LSN of the last record that writes it, so the same log asks for no redo of it again; when redo can repeat a legal history, it ends with the rows of the finished transactions if and only if the condition of `UndoExact` holds and nothing waits for a page left latched |
| Recovery.RecoverRunIs | src/recovery/log_recovery.cpp:211-431 | the rows of recovery, slot by slot, for any log and any pages: no error and the given rows, if and only if every redone update and then every undone insert and update finds a row and the outcome is right |
| Recovery.RecoverExact | src/recovery/log_recovery.cpp:211-431 | recovery of any log from any pages comes to its end with the given rows if and only if that holds and no redone delete that finds no row is followed by another insert or delete on its page |
| Recovery.SecondRecoveryExact | src/recovery/log_recovery.cpp:211-437 | recovery after recovery, on the longer log and any pages: comes to its end with the given rows if and only if every redone update finds a row, what redo makes of the slots can be undone once more, and nothing waits for a page left latched |
| LogAnomaly.EarlyReleaseLosesUpdate | src/transaction/transaction_manager.cpp:70-84 | a log that commit allows, since it releases the locks before it logs COMMIT: undo takes back an update whose COMMIT is in the log |
| LogAnomaly.EarlyReleaseStopsRecovery | src/transaction/transaction_manager.cpp:70-84 | another such log: the row is deleted by a committed transaction, and undo of its insert fails |
| LogAnomaly.SecondRecoveryFails | src/recovery/log_recovery.cpp:305-437 | recovery undoes an insert; run again on the same log, it fails |
| LogAnomaly.SecondRedoFails | src/recovery/log_recovery.cpp:211-300 | recovery undoes a delete, then a committed transaction updates the row: the next recovery redoes the delete, and fails at the update |
| LogAnomaly.RollbackLeavesStaleLsn | src/transaction/transaction_manager.cpp:104-204 | a log and a page written after the rollback in it, with the LSN of the last own write: redo fails |
| LogAnomaly.RollbackHangsRedo | src/record/rm_file_handle.cpp:145-149 | an insert rolled back, its page written with the LSN of the insert, then an insert by another transaction on that page: redo waits for ever |
| StalePages.RollbackExact | src/transaction/transaction_manager.cpp:104-204 | any pages written after any rollback, with the LSN of the last own write, others at their LSN, and any log after it: redo comes to its end with the whole history if and only if no slot of these pages that was empty before the transaction was last written by it with an update, and no redone delete that finds no row is followed by another redone insert or delete on its page |
| StalePages.RollbackEmpties | src/transaction/transaction_manager.cpp:104-204 | which deletes these are: those that take back an insert into such an empty slot, as the last write of it by the transaction, and are the first above the LSN of the page |
| StalePages.RollbackMakesStale | src/transaction/transaction_manager.cpp:104-204 | a page that had seen all its writes is such a page after a rollback |
| LogIsolation.StrictLosersLast | src/recovery/log_recovery.cpp:305-431 | if a slot written by one transaction is written by another only after the end of the first is logged, no slot of an unfinished transaction is written later by a finished one |
| LogIsolation.KeptValue | src/recovery/log_recovery.cpp:305-431 | if the writes of a slot by one transaction are not interrupted by others, and left out transactions that others followed had cancelled themselves out there, replaying without them leaves the slot as the last of them found it, or else as the whole log does |
| LogIsolation.Invisible | src/transaction/transaction_manager.cpp:92-223 | in such a log, a transaction whose writes cancel out leaves no trace, its ABORT record logged or not |
| LogIsolation.CommittedExact | src/recovery/log_recovery.cpp:305-431 | undo of such a log ends without error with the rows of the committed transactions if and only if every unfinished insert or update meets a row and no committed transaction that wrote a slot later left it other than the first unfinished write had found it |
| LogIsolation.WinnersAreCommitted | src/recovery/log_recovery.cpp:305-431 | if unfinished transactions wrote their slots last, replaying without them gives exactly the committed ones: rolled back transactions leave no trace |
| Transactions.TransactionManager.constructor | src/transaction/transaction_manager.h:26-32 | an empty log, consistent indexes, nobody running |
| Transactions.TransactionManager.Begin | src/transaction/transaction_manager.cpp:27-49 | a new id and a BEGIN record that starts the chain of LSNs; nothing else changes, in whatever state the others are |
| Transactions.TransactionManager.InsertRow | src/execution/executor_insert.h:54-163 | from any state: refused, with nothing changed, if and only if a gap lock is in the way or the indexes have a key already, which means, as long as they are exact, that some row of the table agrees with the new one on every column of an index; otherwise the row, its page LSN, all indexes, one log record and the write set change together; the log stays isolated if and only if nobody else has written the slot since the transaction last did; if all transactions could be rolled back, they still can if and only if no other write set holds the slot, or the new key in a before-image |
| Transactions.TransactionManager.DeleteRow | src/execution/executor_delete.h:57-92 | from any state: an error and no change if there is no such row; otherwise row, page LSN, all its keys, log and write set change together; isolation and rollback as for insert |
| Transactions.TransactionManager.UpdateRow | src/execution/executor_update.h:67-165 | from any state: refused, with nothing changed, if and only if the row is missing or a key column is set and the indexes have another row for the key, which means, as long as they are exact, that another row agrees with the new one on every column of an index; exact indexes stay exact even where they are left alone because no key column is set; isolation and rollback as for insert, the latter given that the row changes |
| Transactions.TransactionManager.CheckKeys | src/execution/executor_update.h:88-112 | true if and only if every key of the row is unused, or used by the row itself where that is allowed |
| Transactions.TransactionManager.Commit | src/transaction/transaction_manager.cpp:56-85 | the two steps, from any state: locks released, COMMIT logged; rows, indexes and page LSNs as they are |
| Transactions.TransactionManager.ReleaseLocks | src/transaction/transaction_manager.cpp:66-75 | the write set is freed and the locks are gone while the last record is still missing; every other transaction can write the same rows from now on, and nothing that was kept is lost |
| Transactions.TransactionManager.LogEnd | src/transaction/transaction_manager.cpp:76-84 | COMMIT or ABORT after that; an ABORT keeps the log isolated if and only if the writes of the transaction cancel out |
| Transactions.TransactionManager.UndoLast | src/transaction/transaction_manager.cpp:104-204 | one turn of the rollback, between any steps of others and from any state: an error and no change if there is no row to take back; otherwise the inverse write, logged as an ordinary record, with the page LSN as it was; the log stays isolated if and only if the slot is as the write left it and nobody else has written it since |
| Transactions.TransactionManager.RollBack | src/transaction/transaction_manager.cpp:104-205 | the loop, from any state: it does the run that undoes the write set, last write first, and fails exactly if an insert or update meets no row; the compensation records are the inverses, last first; it ends with an isolated log if and only if nobody else has written a slot of the transaction since it last did |
| Transactions.TransactionManager.Abort | src/transaction/transaction_manager.cpp:92-223 | rollback, release of locks, ABORT record, from any state: the log stays isolated if and only if nobody else has written a slot of the transaction since it last did; then rows are those of replaying the log without this transaction, and indexes are exact for them if the write set could be undone; if all transactions could be rolled back, it never fails and all others go on as before; every page that had seen all its writes is left with the LSN of before |
| Transactions.CheckMeans | src/execution/executor_insert.h:74-97 | the uniqueness checks succeed exactly if the rows with the new one have unique keys |
| TransactionSteps.WriteOutcome | src/execution/executor_insert.h:104-163 | a write of a running transaction keeps chains, rows and write sets together in any case; it keeps the log isolated if and only if nobody else has written the slot since; it keeps all transactions able to roll back if it is apart from the other write sets, and, when it changes its slot, only if it is |
| TransactionSteps.UndoOutcome | src/transaction/transaction_manager.cpp:104-204 | the same for an inverse write; a rollback that nobody is in the way of meets every slot as it left it, to its end |
| TransactionSteps.SpoiledBreaks | src/transaction/transaction_manager.cpp:104-204 | a complete rollback of a transaction whose slots others have written since breaks the isolation of the log |
| TransactionSteps.UndoManaged | src/transaction/transaction_manager.cpp:104-204 | rolling one transaction back never gets in the way of another |
| TransactionSteps.RolledBackInvisible | src/transaction/transaction_manager.cpp:104-213 | the writes of a rolled back transaction cancel out, and in an isolated log it has left no trace, even before its ABORT record |
| TableIndexes.MakeKey | src/execution/executor_insert.h:80-83 | the key is as long as the columns of the index together, and holds at the sum of the lengths before a column the bytes of the record at the offset of that column |
| TableIndexes.SameKeyIff | src/execution/executor_insert.h:80-83 | two records have the same key if and only if they agree on every column of the index |
| TableIndexes.UniqueMeans | src/execution/executor_insert.h:86-100 | a new row keeps the keys unique if and only if no other row of the table agrees with it on every column of an index |
| TableIndexes.DoConsistent | src/execution/executor_update.h:114-128 | a write that leaves keys unique keeps every index the exact map from keys to rows |
| TableIndexes.CheckedUnique | src/execution/executor_update.h:100-110 | no key in use by another row, if and only if keys are unique with the new row |
| TableIndexes.IndexesDetermined | src/transaction/transaction_manager.cpp:92-223 | rows determine their indexes, so restored rows with exact indexes are restored indexes |
| Rollback.ReversedCancels | src/transaction/transaction_manager.cpp:104-204 | any writes followed by their inverses in reverse order leave every slot as it was found |
| Rollback.RollbackRowsExact | src/transaction/transaction_manager.cpp:104-204 | whatever others have written meanwhile: the rollback ends without error with the rows as if the transaction had never run, if and only if each of its inserts and updates meets a row and no other transaction that wrote a slot later left it other than its first write had found it |
| Rollback.UndoableExact | src/transaction/transaction_manager.cpp:104-204 | after a change by another transaction that leaves keys unique, a write set can still be undone if and only if it does not hold the slot, nor the new key in a before-image |
| Rollback.ReusedSlot | src/transaction/transaction_manager.cpp:140-165 | the slot of a deleted row is free for the next insert; rolling the delete back then overwrites the row found there |
| Rollback.RemainsLess | src/transaction/transaction_manager.cpp:104-204 | undoing the last write of a write set leaves the rest of it to be undone |
| Rollback.AppendIsolated | src/transaction/transaction_manager.cpp:41-47 | a record chained by `prev_lsn_` keeps the log isolated if and only if it finds its slot as it says, nobody else has written the slot since its transaction last did, and, for an abort, the writes cancel out |
| Rollback.OwnInTurn | src/transaction/transaction_manager.cpp:104-204 | in a legal log whose transactions do not interrupt each other, each write of a transaction finds what its own previous write of the slot left |
| Restart.AbortRestores | src/transaction/transaction_manager.cpp:92-223 | if everything since its begin is its own, abort restores the rows and every index of before |
| Restart.Recover | src/recovery/log_recovery.cpp:20-431 | for every history of begin, insert, delete, update and the steps of commit and of abort, in any order and whatever they do to each other, a crash with any flushed prefix of the log and any pages whatsoever: recovery does what the runs of redo and undo do; if the log in the file is isolated and the pages let redo repeat history, exactly the transactions whose commit reached the file are back if and only if the condition of `CommittedExact` holds and nothing waits for a page left latched; so it is if unfinished transactions wrote their slots last and pages hold their history up to their LSN; pages end at the greater of their LSN on disk and that of the last flushed record on them, and the counters just above what is in the file |
| LockManager.LockManager.constructor | src/transaction/concurrency/lock_manager.h:63-66 | no queue, no transaction |
| LockManager.LockManager.CheckLock | src/transaction/concurrency/lock_manager.cpp:16-33 | ended transactions are refused, shrinking ones die, others are growing from now on |
| LockManager.LockManager.LockSharedOnTable | src/transaction/concurrency/lock_manager.cpp:877-972 | the call does the step of the state machine and keeps its invariant: a granted X is alone, one request per transaction and table. Its answer: refused if the transaction has ended, death if it is shrinking; otherwise granted if and only if it holds the table afterwards, else death if an older transaction has a request for the table, else it waits with a request of its own; granted for sure if nobody has asked for X |
| LockManager.LockManager.LockExclusiveOnTable | src/transaction/concurrency/lock_manager.cpp:980-1107 | the same, upgrades included; granted if and only if it holds X afterwards, and for sure if nobody has asked for the table or it holds X already |
| LockManager.LockManager.Upgrade | src/transaction/concurrency/lock_manager.cpp:1000-1065 | a request by a transaction already in the queue does that same step |
| LockManager.LockManager.Notified | src/transaction/concurrency/lock_manager.cpp:926-953 | a woken waiter is granted if and only if no other transaction holds a lock that conflicts with its mode, and then as the state machine says |
| LockAnswers.SharedAnswer | src/transaction/concurrency/lock_manager.cpp:877-972 | what a request for S answers, from the requests and grants of the table alone, neither group mode nor oldest id |
| LockAnswers.ExclusiveAnswer | src/transaction/concurrency/lock_manager.cpp:980-1107 | what a request for X answers, new or as an upgrade, in the same terms |
| LockAnswers.WakeAnswer | src/transaction/concurrency/lock_manager.cpp:926-938 | the wait predicate in terms of who holds what |
| LockAnswers.FirstWriter | src/transaction/concurrency/lock_manager.cpp:980-1055 | in every run, as long as nobody has asked for X on a table, S is granted at once, and the first to ask for X gets it at once if and only if nobody else has a request |
| LockManager.LockManager.Unlock | src/transaction/concurrency/lock_manager.cpp:1353-1470 | the loops that remove the request and recompute mode and oldest id do the release step of the state machine |
| LockManager.LockManager.Finish | src/transaction/transaction_manager.cpp:70-75 | releasing the lock set leaves no request of the transaction behind and those of all others as they were; it ends committed or aborted as asked |
| LockManager.Recompute | src/transaction/concurrency/lock_manager.cpp:1444-1456 | one pass finds the strongest mode and the least id |
| LockManager.IsClear | src/transaction/concurrency/lock_manager.cpp:926-938 | the wait predicate: no other grant that conflicts |
| LockSteps.AskSharedStep | src/transaction/concurrency/lock_manager.cpp:877-972 | a shared request keeps the invariant, touches only its own request, and never weakens it |
| LockSteps.AskExclusiveStep | src/transaction/concurrency/lock_manager.cpp:980-1107 | an exclusive request keeps the invariant, touches only its own request, and gives up a grant only if an upgrade has to wait |
| LockSteps.WakeStep | src/transaction/concurrency/lock_manager.cpp:1033-1050 | a wake-up keeps the invariant and grants exactly that request |
| LockSteps.ReleaseStep | src/transaction/concurrency/lock_manager.cpp:1353-1470 | a release keeps the invariant, drops exactly that request and ends the growing phase |
| LockSafety.LoneHolder | src/transaction/concurrency/lock_manager.cpp:1004-1009 | if `shared_lock_num_` is one, the holder is the only grant, so upgrading in place is safe |
| LockSerial.RunSafe | src/transaction/concurrency/lock_manager.cpp:877-1107 | in every reachable state of every interleaving: one request per transaction and queue, a granted X is the only grant, group mode bounds every granted mode, `shared_lock_num_` bounds the shared grants, `oldest_txn_id_` is the least id |
| LockSerial.ConflictOrder | src/transaction/concurrency/lock_manager.cpp:877-1107 | of two conflicting accesses, the transaction of the earlier one releases its first lock before the later access, and the other one after it |
| LockSerial.Serializable | src/transaction/concurrency/lock_manager.cpp:877-1107 | the conflict graph of every run in which no waiting upgrade is overtaken has no cycle: its edges follow the order of first releases |
| LockSerial.NoWaitNoOvertaking | src/transaction/concurrency/lock_manager.cpp:1014-1050 | if no upgrade ever waits, none is overtaken |
| LockSerial.ViewEquivalent | src/transaction/concurrency/lock_manager.cpp:877-1107 | every access sees the version it would see if whole transactions ran one after another in that order |
| LockSerial.FinalEquivalent | src/transaction/concurrency/lock_manager.cpp:877-1107 | every table ends with the version that serial execution leaves |
| LockOvertaking.OvertakingBreaks | src/transaction/concurrency/lock_manager.cpp:1023-1089 | the condition is needed: after every overtaking of an upgrader that has read the table, four more steps give a possible run in which the two transactions precede each other |
| LockAnomaly.UpgradeOvertaken | src/transaction/concurrency/lock_manager.cpp:1023-1089 | overtaking happens: a run of seven steps |
| LockAnomaly.NotSerializable | src/transaction/concurrency/lock_manager.cpp:877-1107 | so table locking as coded has runs without a serial order |
| ClockReplacer.ClockReplacer.Victim | src/replacer/lru_replacer.h:61-75 | the hand moves on from where it stands and takes the first frame with pin counter zero whose reference bit is clear or that it meets in its second turn; a bit is clear afterwards if and only if it was, or its frame has counter zero and was passed; if no frame has counter zero, nothing changes; the bit of the frame taken was clear, or those of all unpinned frames were set |
| ClockReplacer.ClockReplacer.Pin | src/replacer/lru_replacer.h:77-80 | one more pin, for that frame only; its reference bit is set if that is the first pin, no other bit changes |
| ClockReplacer.ClockReplacer.Unpin | src/replacer/lru_replacer.h:82 | one pin less, for that frame only |
| BufferPool.BufferPoolInstance.constructor | src/storage/buffer_pool_instance.h:38-52 | all frames are free |
| BufferPool.BufferPoolInstance.FindVictimPage | src/storage/buffer_pool_instance.cpp:10-21 | the front of the free list, the clock untouched; if there is none, what the clock takes; fails if and only if every frame is pinned |
| BufferPool.BufferPoolInstance.UpdatePage | src/storage/buffer_pool_instance.cpp:31-58 | a dirty page is written back before its frame goes to another page |
| BufferPool.BufferPoolInstance.FetchPage | src/storage/buffer_pool_instance.cpp:68-122 | fails if and only if the page is not cached and every frame is pinned; a cached page is pinned once more and nothing else changes; any other comes from disk, clean and pinned once, into the first free frame or that of an unpinned page, which is written if dirty; no page looks different afterwards; pinned pages stay in their frames |
| BufferPool.BufferPoolInstance.NewPage | src/storage/buffer_pool_instance.cpp:199-218 | a zeroed, pinned frame, found in the same way; no other page looks different; pinned pages stay in their frames |
| BufferPool.BufferPoolInstance.WritePage | src/storage/page.h:81-95 | the user of a pinned page changes its bytes: that page holds them, no other page looks different |
| BufferPool.BufferPoolInstance.UnpinPage | src/storage/buffer_pool_instance.cpp:131-158 | false if and only if the page is not pinned; no page looks different; the pool stays in order if and only if the last user of a changed page does not call it clean |
| BufferPool.BufferPoolInstance.FlushPage | src/storage/buffer_pool_instance.cpp:165-190 | the disk has what the page holds, whose frame is clean now; no page looks different and no other frame changes |
| BufferPool.BufferPoolInstance.FlushAllPages | src/storage/buffer_pool_instance.cpp:267-284 | the disk has what every page of the file holds, their frames are clean; other files and frames are not touched |
| BufferPool.BufferPoolInstance.DeleteAllPages | src/storage/buffer_pool_instance.cpp:309-327 | the pages of the file leave the cache for the free list and their frames are reset, other pages keep frames and contents; the pool stays in order if and only if none of them was pinned |
| BufferPool.Replaced | src/storage/buffer_pool_instance.cpp:31-58 | replacing an unused page keeps free list and page table a partition of the frames, counters in step with pins, and every other page as it was |
| Bitmap.SetOnly | src/record/bitmap.h:25 | setting a bit sets that bit and no other |
| Bitmap.ResetOnly | src/record/bitmap.h:28-30 | resetting a bit resets that bit and no other |
| Bitmap.NextBit | src/record/bitmap.h:45-52 | the first position behind the given one with that bit, or the limit |
| Bitmap.FullCount | src/record/bitmap.h:25-57 | the population is full if and only if every bit is set |
| HeapFile.RmFileHandle.constructor | src/record/rm_manager.h:42-53 | no pages, an empty free list |
| HeapFile.RmFileHandle.CreateNewPageHandle | src/record/rm_file_handle.cpp:208-228 | from any file whose counts are right, as analyze calls it: a new empty page is the whole free list from now on; no record changes; the list holds exactly the pages with room if and only if no page had room before |
| HeapFile.RmFileHandle.InsertRecord | src/record/rm_file_handle.cpp:46-80 | from any file whose counts are right: the rid returned is a free slot if and only if the list has no first page or that page has room, and then exactly that slot holds the record; otherwise it is behind the last slot and the page is overfull; a free list of exactly the pages with room stays one |
| HeapFile.RmFileHandle.DeleteRecord | src/record/rm_file_handle.cpp:135-157 | missing page, missing record, or exactly that record is gone; a page that was full enters the free list |
| HeapFile.RmFileHandle.UpdateRecord | src/record/rm_file_handle.cpp:164-179 | missing page, missing record, or exactly that record has changed |
| HeapFile.RmFileHandle.GetRecord | src/record/rm_file_handle.cpp:19-38 | missing page, missing record, or the record |
| HeapFile.RmFileHandle.InsertRecordAt | src/record/rm_file_handle.cpp:87-106 | the slot holds the record in every case, and the head moves exactly if the page fills up; a free list of exactly the pages with room remains if and only if the slot was in use, or the page keeps room, or the page heads the list |
| HeapFile.LoseRecord | src/record/rm_file_handle.cpp:46-106 | four inserts, two of them by rid, after which a record lands behind the last slot of a full page |
| HeapPages.ChainUnique | src/record/rm_file_handle.cpp:254-261 | the pointers determine the free list |
| HeapPages.SkipLoses | src/record/rm_file_handle.cpp:96-101 | moving the head past a page in the middle of the list loses the pages before it |
| HeapFile.RmScan.constructor | src/record/rm_scan.cpp:19-30 | the scan starts at the first live record |
| HeapFile.RmScan.Next | src/record/rm_scan.cpp:35-69 | the scan goes on to the next live record, by page and slot |
| HeapFile.ScanAll | src/record/rm_scan.cpp:19-69 | a whole scan yields exactly the live records, ascending by page and slot, as many as the page headers count |
| HeapFile.FastCount | src/rmdb.cpp:936-951 | the sum of the page headers |
| HeapPages.TotalCounts | src/rmdb.cpp:936-951 | that sum is the number of records a scan yields |
| HeapFile.Capacity | src/record/rm_manager.h:35-52 | record sizes outside 1..512 are refused; otherwise at least one record, its bitmap and the page header fit into a page; the number of records is the greatest for which they and their bits fit into 32601 bits, the bitmap the shortest that has them |
| Gaps.IsInGap | src/transaction/txn_defs.h:114-116 | true if and only if every column of the key satisfies both of its bounds |
| Gaps.IsCoincide | src/transaction/txn_defs.h:119-177 | true if and only if in every column neither lower bound lies above the other upper bound |
| Gaps.CoincideSymmetric | src/transaction/txn_defs.h:119-177 | the order of the two gaps does not matter |
| Gaps.SharedKeyCoincides | src/transaction/txn_defs.h:119-177 | gaps that share a key are never called disjoint |
| Gaps.CoincideExact | src/transaction/txn_defs.h:119-177 | two gaps that are not empty coincide if and only if they share a key, over a dense order |
| Gaps.PointExact | src/transaction/txn_defs.h:119-177 | a point coincides with a gap, empty or not, if and only if it lies in it |
| Gaps.PredicateManager.AddPredicate | src/execution/predicate_manager.h:25-49 | a predicate overwrites its side of its column; with at most one per side and column, the gap holds exactly the keys that satisfy all predicates but `!=` |

## Left out

- Sockets, client, parser, analyzer, planner, executors other than the three writers, CSV load: not part of this model.
- Latch coupling and threads inside index, buffer pool and heap file: these are sequential here. Of page latches, only those that redo and undo never release are modelled; pins that errors leave behind are not.
- Row, IS and IX locks, and gap lock queues: only S and X on tables, and the overlap of gaps.
- Freedom from deadlock, starvation or lost wake-ups: the model says when a waiter may wake, not that it will.
- Index pages after a crash: recovery is about rows; `redo_indexes` and the index updates of redo and undo are left out.
- Torn log tails and write-ahead order on eviction: the log file ends at a record boundary; pages that are ahead of it are just pages that do not let redo repeat history.
- Checkpoints: `flush_all_pages_for_checkpoint` and the checkpoint record.
- Reopening an index after merges, where page numbers restart from `num_pages_`, and the unused bulk load.
- `delete_page` of the buffer pool, which only unit tests call.
- Index trees with NaN among their keys: the trees here have integer keys, which stand for keys without NaN. Infinity counts as two to the power 128.
- Keys 0.0 and -0.0 have one rank but two byte strings; indexes in `TableIndexes` tell byte strings apart.
- LockAnswers.ExclusiveAnswer: says that a transaction alone with its S on a table gets X at once only as long as nobody else has asked for X (`FirstWriter`); later the shared count of the source can be too high, since an upgrade does not lower it.
- 32-bit overflow of LSNs and transaction ids: methods that hand them out require that they fit; a log record must fit into the log buffer.
- Statements over many rows: the loops of the delete and update executors are sequences of `DeleteRow` and `UpdateRow`. The locks taken on the way appear only in what they are for: `MayWrite`, under which all transactions stay able to roll back.
- LockSerial.Serializable: states that runs without overtaking have no cycle; a run with overtaking may happen to have none, what is proved is that it can always go on to have one.
- Transactions.TransactionManager.InsertRow: takes the answer of the gap lock check that insert makes beside the uniqueness check as a parameter.
- Transactions.TransactionManager.Abort: does not model the latch that a failing delete leaves on its page, nor what the server does after the error.
- LogWriter.LogManager.AddLogToBuffer: requires a record that fits into the log buffer, and updates with images of one size; a longer record is written past the end of the buffer by the source, and the records of a table have one size.
- HeapFile.RmFileHandle.InsertRecord: does not model what the bit and the record overwrite behind the last slot of a full page.
- BufferPool.BufferPoolInstance.FetchPage: does not model the latch, nor the failure of a disk read.
