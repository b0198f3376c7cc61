# EleoneSQL in Dafny

EleoneSQL is a small SQL database in Go: a paged data file with a free list,
B+trees in slotted pages, a write-ahead log with redo and undo, transactions
under one lock, order-preserving key encodings, secondary and unique indexes
kept by the statements themselves, and a recursive-descent SQL parser. This
project models that code in Dafny 4.11 and proves what each layer promises to
the one above it. Where the code does not keep a promise, the project proves
exactly when it does, and gives an input on which it does not.

`dafny verify dfyconfig.toml` checks everything.

## How the layers fit

| layer | modules | main result |
|---|---|---|
| bytes and cells | `Bytes`, `Entries`, `Pages`, `SlottedPage`, `NodeBuffers` | the byte-level page operations are the operations on lists of cells |
| data file | `Pagers` | allocation and freeing conserve pages |
| B+tree | `Trees`, `TreeOps`, `PutSound`, `PutLosses`, `TreeTheorems`, `TreeRuns`, `SmallCells`, `TreeReach`, `TreeWitnesses`, `Cursors`, `BTrees` | a put keeps a valid tree with the updated map if and only if two conditions on the splits hold |
| log | `WalRecords`, `Recovery`, `Replaying`, `LogFiles` | redo then undo gives the committed data, from any prefix of the file |
| transactions | `TxnMachine`, `TxnTheorems`, `LateCheckpoints`, `LateRuns`, `Transactions`, `StoreTrees` | every run, with crashes at any step, refines an atomic store; with checkpoints at any time, it refines one whose crashes leave exactly the durable data |
| values and rows | `Values`, `Doubles`, `Rows`, `Expressions`, `Evaluation` | keys sort as values do, except for the named doubles; integers become the nearest double; every operator means what it says |
| engine | `Targets`, `Tables`, `RowStatements`, `Seek`, `Loading`, `RowBuilding`, `Inserts`, `Updates`, `UpdateMeaning`, `Statements`, `Databases`, `Backfills`, `Sessions`, `Engines`, `EngineWitnesses` | over every run of statements on all tables, heap and indexes agree unless a named statement tears them |
| queries | `Sorting`, `Selects`, `Answers`, `SelectLoading` | joins enumerate the qualifying combinations; the answer is the start of the one stable order of those that satisfy WHERE |
| parser | `Parsers`, `Rendering` | the methods read the stratified grammar; rendering and parsing are inverse; precedence is the named one |

Objects that the source updates in place (`Node`, `Pager`, `BTree`, `Cursor`,
`Store`, `Txn`, `Session`, `Engine`, `Parser`) are classes whose methods are proved
against functions on values; the laws are lemmas about those functions.

The engine and recovery layers take each tree operation as one atomic update of
a map from (target, key) to value. `StoreTrees` is the bridge: it shows when
the trees in the data file are that map, before and after each operation.
Floating-point values are bit patterns with exact comparison; floating-point
arithmetic and the CRC are arbitrary functions passed in as parameters, so that
every result holds for whatever they compute.

## Model

| member | source | states |
|---|---|---|
| `Pages.FindIndexIsLowerBound` | internal/storage/btree.go:131-151 | On ascending cells the binary search returns the number of smaller keys, and says found exactly when the key is there. |
| `Pages.PackKeepsAllIff` | internal/storage/btree.go:371-383 | Filling an empty page with insertions whose results are ignored keeps every cell exactly when their footprint fits; otherwise a cell is dropped. |
| `Pages.SplitByCountFits` | internal/storage/btree.go:351-392 | If a page held all cells but one and cell sizes vary within the stated bounds, both halves of a split by count fit a page. |
| `SlottedPage.EntryRoundTrip` | internal/storage/btree.go:111-192 | A leaf cell's bytes decode to the key and value they were made from. |
| `SlottedPage.LinkRoundTrip` | internal/storage/btree.go:121-200 | An internal cell's bytes decode to the key and child they were made from. |
| `SlottedPage.InsertedLeafView` | internal/storage/btree.go:155-172 | The bytes after an insertion are a valid leaf whose cell list has the entry at that index and is otherwise the old list; the sibling stays. |
| `SlottedPage.InsertedInternalView` | internal/storage/btree.go:155-172 | The same for an internal page and its links. |
| `SlottedPage.RemovedView` | internal/storage/btree.go:174-183 | The bytes after a removal are a valid leaf without that cell; the space is not reclaimed. |
| `SlottedPage.RewrittenView` | internal/storage/btree.go:345-349 | Overwriting four bytes inside a cell changes that link's child and nothing else. |
| `SlottedPage.ResiblingView` | internal/storage/btree.go:89-91 | Setting the sibling field changes the next leaf or the rightmost child and no cell. |
| `NodeBuffers.Node.FindIndex` | internal/storage/btree.go:131-151 | The loop over the page bytes is the search over the page's keys. |
| `NodeBuffers.Node.LeafKV` | internal/storage/btree.go:111-118 | Returns the i-th entry of the page. |
| `NodeBuffers.Node.InternalKC` | internal/storage/btree.go:121-127 | Returns the i-th link of the page. |
| `NodeBuffers.Node.InsertCellAt` | internal/storage/btree.go:155-172 | Succeeds exactly when body and pointer fit the free space; a failure leaves all bytes as they were, a success gives the inserted bytes. |
| `NodeBuffers.Node.RemoveCellAt` | internal/storage/btree.go:174-183 | The pointer loop leaves exactly the bytes of the page without that pointer. |
| `NodeBuffers.Node.InsertEntryAt` | internal/storage/btree.go:155-192 | Over the leaf's cell list: insertion at the index if it fits, otherwise no change. |
| `NodeBuffers.Node.InsertLinkAt` | internal/storage/btree.go:155-200 | Over the internal page's link list: insertion at the index if it fits, otherwise no change. |
| `NodeBuffers.Node.RemoveEntryAt` | internal/storage/btree.go:174-183 | Over the leaf's cell list: the cell is gone, the order of the others and the sibling stay. |
| `NodeBuffers.Node.RewriteChildAt` | internal/storage/btree.go:345-349 | Over the link list: one child changes. |
| `NodeBuffers.Node.SetSibling` | internal/storage/btree.go:89-91 | Over the page: the sibling changes. |
| `Pagers.Pager.AllocatePage` | internal/storage/pager.go:157-192 | The page is nonzero and was not live; it comes from the free list if that is not empty, from the end of the file otherwise; every other page keeps its bytes. |
| `Pagers.Pager.FreePage` | internal/storage/pager.go:195-210 | The page leaves the live set and heads the free list kept inside the free pages; no other page changes. |
| `Pagers.Pager.WritePage` | internal/storage/pager.go:141-153 | Refuses a buffer that is not one page long; otherwise that page, and only it, holds the buffer. On a live page the free list and all other nodes are kept. |
| `Pagers.Pager.ReadPage` | internal/storage/pager.go:126-138 | Fails exactly outside the live and free pages of the file. The page of a node reads back as that node; the head of the free list reads back as the link to the rest of the list. |
| `Pagers.Pager.NodesAllocOk` | internal/storage/pager.go:157-210 | In every valid pager the next pages to be allocated are outside the pages in use, which is what a put assumes. |
| `Trees.EntriesOrdered` | internal/storage/btree.go:217-248 | The entries of an ordered tree, read leaf by leaf, ascend strictly and lie within the tree's bounds. |
| `Trees.StoredUnique` | internal/storage/btree.go:202-208 | The pages under a root determine the tree: there is at most one way to read them. |
| `TreeTheorems.GetIsMapLookup` | internal/storage/btree.go:217-248 | Descent and leaf search return the value the tree's map has for the key, and nothing exactly when it has none. |
| `TreeTheorems.PutCorrectIff` | internal/storage/btree.go:269-454 | A put of an admissible key and value yields a valid tree with the map updated at the key and no page lost or shared, if and only if no split drops a cell, no internal page overflows through its rightmost child, and no leaf with only the replaced cell is split at its own lower bound. |
| `TreeTheorems.DeleteCorrect` | internal/storage/btree.go:468-497 | Delete fails exactly when the key is absent; otherwise the tree stays valid on the same pages and its map loses the key only. |
| `PutSound.PutRecGrows` | internal/storage/btree.go:295-454 | Below any node, if the split conditions hold, the put leaves one or two trees that are stored, hold the updated entries, keep the leaf chain and use the old pages and the new ones once each; they are in order if and only if the order condition holds. |
| `PutSound.PutRecFramed` | internal/storage/btree.go:295-341 | A put below a node writes only that subtree's pages and freshly allocated ones, and keeps the allocator sound. |
| `PutLosses.PutRecLoses` | internal/storage/btree.go:295-454 | If a split condition fails anywhere on the path, some entry or page that should be under the result is not reachable there. |
| `TreeRuns.RunRefinesMap` | internal/storage/btree.go:217-497 | Over every run of puts and deletes that meet the put condition, the tree stays valid and its contents are the map run over the same operations. |
| `TreeRuns.StepExists` | internal/storage/btree.go:269-497 | From every valid state each safe operation has a successor, so runs do not get stuck. |
| `TreeRuns.PutKeepsAlloc` | internal/storage/btree.go:269-293 | Whatever becomes of the tree, a put keeps the allocator sound and does not touch a page of another tree. |
| `SmallCells.SmallCellsKeepPages` | internal/storage/btree.go:295-454 | If keys with values are small, splits by count never drop a cell: the page condition is exactly that no internal page overflows through its rightmost child. |
| `SmallCells.ClearIsSafe` | internal/storage/btree.go:269-454 | For small cells the run condition is exactly the rightmost condition and the order condition. |
| `SmallCells.SmallStep` | internal/storage/btree.go:269-497 | Small operations keep a small tree small. |
| `SmallCells.SmallRunRefinesMap` | internal/storage/btree.go:217-497 | The map refinement over runs, from small cells and the rightmost and order conditions alone. |
| `TreeReach.AppendsReach` | internal/storage/btree.go:269-392 | Putting ascending entries that fit one page, from an empty leaf, reaches the leaf with exactly those cells. |
| `TreeWitnesses.UnevenSplitLosesEntry` | internal/storage/btree.go:351-392 | A state reached from an empty tree in which a leaf split by count drops a cell. |
| `TreeWitnesses.RightmostOverflowLosesPage` | internal/storage/btree.go:394-454 | A state reached by ascending puts in which the next put splits an internal page and loses the new right child. |
| `TreeWitnesses.WornLeafBreaksOrder` | internal/storage/btree.go:351-392 | A state reached by puts, deletes and an update in which replacing a leaf's only cell splits it at its own lower bound. |
| `Cursors.ChainVisitsLeaves` | internal/storage/btree.go:546-563 | The sibling of the j-th leaf of a valid tree is leaf j+1, and the last has none. |
| `Cursors.CursorStartsAtLowerBound` | internal/storage/btree.go:509-542 | From the leaf and index that the seek finds, the chain holds exactly the entries from the tree's lower bound of the start key on. |
| `Cursors.ScanIsRange` | internal/storage/btree.go:509-563 | Those entries ascend and are exactly the map's bindings with key at or above the start. |
| `BTrees.BTree.Get` | internal/storage/btree.go:217-248 | On page bytes: the tree's map at the key. |
| `BTrees.BTree.Put` | internal/storage/btree.go:269-293 | On page bytes: refused exactly for oversize arguments, without change; otherwise the map is updated and the tree valid under the two conditions, and no valid updated tree is there without them; either way the allocator stays sound and other trees keep their pages. |
| `BTrees.BTree.PutRec` | internal/storage/btree.go:295-341 | The recursion over page buffers leaves exactly the pages, allocator and split of the put on trees. |
| `BTrees.BTree.SplitLeafAndInsert` | internal/storage/btree.go:351-392 | The gather and rebuild loops leave the two packed halves, chained through the new page, and report the right half's first key. |
| `BTrees.BTree.SplitInternalAndInsert` | internal/storage/btree.go:394-454 | The gather and rebuild loops leave the pages of the specified internal split, including its treatment of the rightmost child. |
| `BTrees.BTree.Delete` | internal/storage/btree.go:468-497 | On page bytes: false exactly when the key is absent; the map loses the key only. |
| `BTrees.Cursor.constructor` | internal/storage/btree.go:509-542 | The entries still to come are those from the start key on, or all. |
| `BTrees.Cursor.Next` | internal/storage/btree.go:546-563 | Returns the first entry to come and leaves the rest, across empty leaves; nothing exactly at the end. |
| `StoreTrees.StorePutIff` | internal/txn/txn.go:176-203 | With one tree per target in the data file, a put in one tree leaves trees that are the updated store, all other targets included, if and only if the two put conditions hold. |
| `StoreTrees.StoreDelete` | internal/txn/txn.go:206-232 | The same for a delete, which succeeds exactly when the store has the key. |
| `StoreTrees.StoreGet` | internal/txn/txn.go:236-246 | A lookup in the target's tree is a lookup in the store. |
| `StoreTrees.ScanLists` | internal/txn/txn.go:250-260 | What the cursor of a tree yields is the list of the store's entries from the start key on. |
| `StoreTrees.ListsUnique` | internal/txn/txn.go:250-260 | There is only one such list. |
| `WalRecords.OpRoundTripIff` | internal/wal/wal.go:137-214 | Decoding an encoded operation gives it back if and only if its lengths fit their fields. |
| `WalRecords.BodyRoundTrip` | internal/wal/wal.go:74-101 | A record body decodes to its type, transaction and operation. |
| `WalRecords.FrameGood` | internal/wal/wal.go:74-101 | The replay loop reads a written frame as that record and moves past it, whatever follows. |
| `WalRecords.ScanJoin` | internal/wal/wal.go:224-291 | Frames in sequence are read in sequence, and then what follows them. |
| `WalRecords.TornTail` | internal/wal/wal.go:224-291 | Cut at any byte, the log is read as exactly the records whose frames are whole. |
| `WalRecords.TornAppend` | internal/wal/wal.go:224-291 | An append that stops at any byte adds the whole record or nothing. |
| `WalRecords.ScanFile` | internal/wal/wal.go:224-291 | The reading loop returns the records of the scan, from any bytes. |
| `Recovery.LogTells` | internal/wal/wal.go:224-303 | For a log of serial transactions, the committed data is the effect of exactly the operations of transactions with a commit record; the open one has its own tail of operations and its before-images are what it saw. |
| `Recovery.SerialScan` | internal/wal/wal.go:237-291 | The replay scan of such a log has redone exactly those operations and is left with at most the one open transaction. |
| `Recovery.UndoOrderIrrelevant` | internal/wal/wal.go:293-301 | The order in which Go walks the map of unfinished transactions does not matter. |
| `Recovery.RedoConverges` | internal/wal/wal.go:305-313 | Redo from any state gives every touched key its value after all the operations. |
| `Recovery.UndoRestores` | internal/wal/wal.go:319-324 | Undo in reverse gives every touched key its value before the transaction, from any state, and never fails. |
| `Recovery.RecoverAnyAt` | internal/wal/wal.go:224-324 | From arbitrary trees, recovery gives each key that a committed or open transaction logged its committed value and leaves every other key alone. |
| `Recovery.RecoveryRightIff` | internal/wal/wal.go:20-23 | From arbitrary trees, recovery ends in the committed data if and only if the keys it does not write already held their committed values. |
| `Recovery.RecoveryCorrectIff` | internal/wal/wal.go:224-324 | From a recoverable state, recovery succeeds if and only if no committed operation is oversize, and then gives the effect of exactly the committed transactions. |
| `Recovery.RecoveryRestarts` | internal/wal/wal.go:224-324 | A crash after any number of recovery's writes leaves a state from which recovery is again right. |
| `TxnMachine.StepRefines` | internal/txn/txn.go:166-328 | Every step of a transaction, a rollback, a checkpoint, a crash or a recovery keeps the invariant and is the matching step of an atomic store. |
| `TxnMachine.RunRefines` | internal/txn/txn.go:166-328 | Over every run the committed data is that of the atomic store; idle trees hold it and a running transaction sees its own writes. |
| `TxnMachine.CrashThenRecoverIff` | internal/txn/txn.go:86-138 | From any reached state, with anything at all on disk under the keys logged by committed and open transactions, recovery gives the committed data, and fails exactly if a committed operation is oversize. |
| `TxnMachine.AlwaysRecoverable` | internal/txn/txn.go:166-328 | Every reached state is recoverable. |
| `TxnMachine.CrashRecoverable` | internal/txn/txn.go:166-328 | So is whatever a crash leaves of it. |
| `TxnTheorems.AlwaysSerial` | internal/txn/txn.go:166-172 | In the log of every run transactions do not overlap, at most one is unfinished, and none when idle. |
| `TxnTheorems.SizedRunsRecover` | internal/txn/txn.go:176-203 | A run whose puts are within the size limit never blocks recovery. |
| `TxnTheorems.OversizeCommitBlocksOpen` | internal/txn/txn.go:176-203 | A run that puts an oversize value, gets the error and commits leaves a log that no recovery can replay. |
| `TxnTheorems.UnrestoredValueStays` | internal/txn/txn.go:279-311 | A run that rolls a put back: if the put reached the disk and the undo write did not, the value is there after recovery. |
| `LateCheckpoints.LateCheckpointIff` | internal/txn/txn.go:316-328 | A checkpoint between two operations of an open transaction, then a crash: recovery gives the data at the checkpoint under the keys logged since, and whatever is on disk elsewhere. That is the committed data if and only if undoing the transaction at the checkpoint gives the same. |
| `LateCheckpoints.LateCheckpointLoggedIff` | internal/txn/txn.go:316-328 | The same for a checkpoint between a log record and its tree write, whether or not that write was made or reached the disk. |
| `LateCheckpoints.LateCheckpointUndoingIff` | internal/txn/txn.go:316-328 | A checkpoint during rollback, then a crash with n undo writes left: right if and only if those n writes would change nothing. |
| `LateCheckpoints.LateRollbackCutIff` | internal/txn/txn.go:279-328 | A checkpoint, more operations, and a rollback that a crash cuts off with n undo writes from before the checkpoint left: right if and only if those n writes give what recovery gives. |
| `LateCheckpoints.LateRollbackIff` | internal/txn/txn.go:279-328 | A checkpoint and a complete rollback of which n undo writes did not reach the disk: right if and only if those n writes would change nothing, and so whenever all of them did. |
| `LateCheckpoints.HarmlessIff` | internal/txn/txn.go:316-328 | A checkpoint beside an open transaction is harmless, whatever the transaction does short of committing and wherever a crash falls, if and only if no write of its undo list would change the trees. |
| `LateCheckpoints.LateCommit` | internal/txn/txn.go:264-328 | If the transaction then commits, recovery gives its data. |
| `LateCheckpoints.LateCommitLoggedIff` | internal/txn/txn.go:264-328 | With the checkpoint between record and tree write, a later commit is recovered if and only if that write was kept or its key is logged again. |
| `LateCheckpoints.LateCheckpointKeepsUncommitted` | internal/txn/txn.go:316-328 | A run after which recovery keeps a value that was never committed. |
| `LateCheckpoints.LateCheckpointKeepsUnlogged` | internal/txn/txn.go:316-328 | The same with the checkpoint between record and tree write. |
| `LateCheckpoints.LateCommitLosesUnlogged` | internal/txn/txn.go:264-328 | A run with a checkpoint between record and tree write after which a committed value is lost if its page did not reach the disk. |
| `LateCheckpoints.CutRollbackKeepsUncommitted` | internal/txn/txn.go:279-328 | A put and the delete of its key, a checkpoint and a rollback cut off after one write: undoing at the checkpoint gives the committed data, and yet recovery keeps a value that was never committed. |
| `LateRuns.LateRunRefines` | internal/txn/txn.go:166-328 | Over every run with checkpoints at any time, later transactions and further such checkpoints included: between transactions the trees hold the committed data, which are then durable; a running transaction sees its own writes. |
| `LateRuns.LateCrashIff` | internal/txn/txn.go:86-138 | From any state of any such run, recovery fails exactly on an oversize committed write and otherwise gives exactly the durable data. |
| `LateRuns.LateStepRightIff` | internal/txn/txn.go:316-328 | The only step that is not a step of the atomic store is a crash with durable data other than the committed data; that takes a transaction in which a checkpoint fell and whose undo list does not lead to the durable data. |
| `LateRuns.GuardedRuns` | internal/txn/txn.go:166-328 | Runs whose checkpoints fall between transactions are among these, with the durable data always the committed data. |
| `LateRuns.LateRunDiffers` | internal/txn/txn.go:316-328 | A run after which the durable data hold a value that was never committed. |
| `Transactions.Store.Begin` | internal/txn/txn.go:166-172 | The transaction takes the lock and starts from the committed data. |
| `Transactions.Store.MaybeCheckpoint` | internal/txn/txn.go:316-328 | Below the threshold nothing happens; otherwise the log is emptied at once, whoever holds the lock. With no transaction open the committed data stays. |
| `Transactions.Txn.Put` | internal/txn/txn.go:176-203 | Fails exactly for an unknown target or an oversize key or value; the latter is logged all the same. Otherwise the value is stored; the committed data does not change. |
| `Transactions.Txn.Delete` | internal/txn/txn.go:206-232 | Fails exactly for an unknown target or an absent key, with nothing logged; otherwise the key is gone. |
| `Transactions.Txn.Get` | internal/txn/txn.go:236-246 | Fails exactly for an unknown target or an absent key, and says which; otherwise returns the value, the transaction's own writes included. |
| `Transactions.Txn.Commit` | internal/txn/txn.go:264-275 | The committed data becomes the store's data and the lock is free; a second call does nothing. |
| `Transactions.Txn.Rollback` | internal/txn/txn.go:279-311 | The store's data becomes the committed data again and the lock is free; a second call does nothing. |
| `Transactions.Txn.UndoWrites` | internal/txn/txn.go:285-309 | The undo loop takes the steps of a rollback, newest first, and ends with nothing left to undo. |
| `Transactions.ReachedOk` | internal/txn/txn.go:166-328 | Whatever calls made the store, its data is what the atomic store says after the same events. |
| `Replaying.RedoAll` | internal/wal/wal.go:279-313 | The redo loop makes the redo writes in order and stops at the first error. |
| `Replaying.UndoAll` | internal/wal/wal.go:293-324 | The undo loop makes the undo writes newest first and stops at the first error. |
| `Replaying.Replay` | internal/wal/wal.go:224-303 | The whole replay makes the scan's redo writes and then the unfinished transactions' undo writes, in some order of them. |
| `Replaying.Open` | internal/txn/txn.go:86-138 | After a crash of any run, opening fails exactly if a committed operation is oversize; otherwise the store holds the committed data of that run with an empty log. |
| `LogFiles.PrefixRecoversIff` | internal/wal/wal.go:224-324 | From any byte prefix of the log file, recovery ends in the committed data of the records left if and only if the keys it does not write hold that data; that is the whole log's committed data if no commit record was cut off. |
| `LogFiles.OpenFile` | internal/txn/txn.go:86-138 | Opening from the bytes of the log, with any torn append at its end, gives the committed data of the run. |
| `Values.IntRoundTrip` | internal/util/encoding.go:14-24 | Decoding an encoded integer gives it back. |
| `Values.FloatRoundTripIff` | internal/util/encoding.go:27-48 | Decoding an encoded double gives its bits back if and only if it is neither negative zero nor a NaN without the sign bit. |
| `Values.CodeOrderIff` | internal/util/encoding.go:27-48 | Two double codes are ordered as the doubles compare if and only if neither NaN nor negative zero gets in the way, case by case. |
| `Values.SortKeyOrderIff` | internal/catalog/value.go:93-169 | Sort keys of two values of one type are in byte order as the values compare, if and only if that holds of their doubles. |
| `Values.EqualKeysIff` | internal/catalog/value.go:93-169 | Two values have one sort key if and only if they compare equal and are not a confusable pair of doubles. |
| `Values.FixedWidthPrefix` | internal/catalog/value.go:93-116 | For types other than TEXT, a value's key starts an index key only if it is that entry's own value. |
| `Doubles.RankIsUnits` | internal/catalog/value.go:162-169 | Doubles that are not NaN are ordered by the numbers they stand for, exponent and significand taken apart. |
| `Doubles.InfinityAbove` | internal/catalog/value.go:162-169 | Infinity is above every other number, and NaN is what is neither finite nor infinite. |
| `Doubles.ToFloatNearest` | internal/engine/expr.go:198-203 | The double for an integer is the nearest one: no finite double is nearer, and of two equally near ones it has the even significand. |
| `Doubles.ToFloatExactIff` | internal/engine/expr.go:205-219 | It is exact up to 2^53, and beyond exactly for the integers that are doubles. |
| `Doubles.ToFloatOrder` | internal/catalog/value.go:133-153 | It keeps the sign, and the order of any two integers. |
| `Doubles.NeighboursMeet` | internal/engine/expr.go:205-219 | 2^53 and the next integer become one double. |
| `Expressions.ColumnIndexIff` | internal/catalog/catalog.go:39-46 | The index found is that of the first column of the name; none is found exactly when no column has it. |
| `Evaluation.ResolveIff` | internal/engine/expr.go:23-46 | A reference means a value exactly when one table of the tuple has that column and no other has; the value is that of the first column of the name. |
| `Evaluation.ComparisonMeans` | internal/engine/expr.go:115-154 | A comparison fails only when an operand does, is NULL when one is NULL, and otherwise says how comparable values lie: integers by size, texts by bytes, false before true, doubles as numbers, NaN equal to all. |
| `Evaluation.ComparisonsExchange` | internal/engine/expr.go:135-154 | `>` and `>=` are `<` and `<=` with the operands exchanged. |
| `Evaluation.ComparisonsAgree` | internal/engine/expr.go:124-149 | `<=` is `<` or `=`, and `<>` is not `=`. |
| `Evaluation.MixedReadsZero` | internal/catalog/value.go:118-160 | Of values that are not comparable, the right one counts as the zero of the left one's type. |
| `Evaluation.MixedOneWay` | internal/catalog/value.go:118-160 | Zero equals every text, and no text but the empty one equals zero. |
| `Evaluation.TruthyIff` | internal/catalog/value.go:171-188 | What is not true is NULL, false, the empty text, and zero of either sign. |
| `Evaluation.AndTable` | internal/engine/expr.go:97-113 | AND is true exactly when both sides are, false exactly when the left is, or the left is true and the right false; it fails otherwise. |
| `Evaluation.OrTable` | internal/engine/expr.go:97-113 | The same for OR. |
| `Evaluation.NotTable` | internal/engine/expr.go:70-76 | NOT exchanges true and everything else. |
| `Evaluation.DeMorgan` | internal/engine/expr.go:97-113 | NOT exchanges AND and OR, with errors and with operands that are not looked at. |
| `Evaluation.IntegerArithmetic` | internal/engine/expr.go:161-188 | Integer sums, differences and products are right modulo 2^64. |
| `Evaluation.IntegerDivision` | internal/engine/expr.go:181-193 | Integer division fails exactly on zero; the remainder is smaller than the divisor and has the dividend's sign; the one quotient out of range wraps. |
| `Evaluation.DoubleArithmetic` | internal/engine/expr.go:161-180 | With a double both operands are doubles, in their order; division fails exactly on zero of either sign; NULL makes the result NULL. |
| `Evaluation.NegationMeans` | internal/engine/expr.go:70-81 | The minus sign gives the opposite double, or the opposite integer modulo 2^64; what is no number counts as zero. |
| `Evaluation.LiteralRoundTrip` | internal/engine/expr.go:51-64 | Every value has a literal that evaluates to it. |
| `Evaluation.CoerceIff` | internal/engine/expr.go:205-219 | A value fits a column exactly if it is NULL, of its type, or an integer for FLOAT; it stays NULL, itself, or the nearest double, equal to what it was. |
| `Evaluation.SatisfiesIff` | internal/engine/select.go:100-109 | A clause holds exactly when it is missing or evaluates to something true. |
| `Evaluation.ComparisonSelects` | internal/engine/delete.go:20-31 | The rows that `column op literal` selects are those whose value is not NULL and lies that way to the literal. |
| `Rows.EncodeRow` | internal/catalog/value.go:192-229 | The loop builds the row's bytes. |
| `Rows.DecodeRow` | internal/catalog/value.go:232-278 | The loop reads a row of the types from any bytes, or fails where they run out. |
| `Rows.RowRoundTripIff` | internal/catalog/value.go:192-278 | A typed row decodes to itself if and only if every text is shorter than 2^32 bytes. |
| `Targets.ResolveInjective` | internal/txn/txn.go:41-82 | Two targets that resolve to one tree are one target. |
| `Targets.HeapResolves` | internal/txn/txn.go:48-82 | Every table's heap target resolves to its heap. |
| `Targets.IndexResolvesIff` | internal/txn/txn.go:48-82 | An index target resolves to its index if and only if the table's name has no colon. |
| `Targets.IndexTargetsMeetIff` | internal/txn/txn.go:41-46 | Exactly when two index targets are the same string. |
| `Targets.TreesDisjoint` | internal/txn/txn.go:41-46 | Different tables without colons in their names share no target. |
| `Targets.ColonsCollide` | internal/txn/txn.go:41-46 | Two tables with an index each under one target. |
| `Tables.KeysInjective` | internal/engine/ddl.go:150-156 | Two index entries have one key only for one row and one sort key. |
| `Tables.EntryPresent` | internal/engine/ddl.go:150-156 | In an index that agrees with the rows, every row has its entry. |
| `Tables.EntryAdded` | internal/engine/insert.go:70-82 | Adding a row's entry makes the index agree with the rows and that row. |
| `Tables.EntryRemoved` | internal/engine/delete.go:32-38 | Removing a row's entry makes the index agree with the rows without it. |
| `Tables.EntryKeptIff` | internal/engine/update.go:62-67 | Leaving an entry alone is right if and only if old and new value have one sort key. |
| `Tables.FirstKeyDecides` | internal/engine/insert.go:93-107 | The first entry at or after a prefix tells whether any key has that prefix. |
| `Tables.PrefixCountAll` | internal/engine/scan.go:91-109 | The keys with a prefix are a leading run of the scan that starts there: the seek misses none. |
| `Tables.ValuesUniqueIff` | internal/engine/insert.go:93-107 | Values are unique as `=` sees them if and only if their keys are and no two rows hold confusable doubles. |
| `RowStatements.Listing` | internal/txn/txn.go:250-260 | The cursor's entries in order, from the start key on. |
| `RowStatements.HasPrefix` | internal/engine/insert.go:109-119 | The byte loop decides the prefix relation. |
| `RowStatements.CheckUnique` | internal/engine/insert.go:93-107 | The probe passes exactly when no key of the index starts with the value's sort key. |
| `RowStatements.AddEntries` | internal/engine/insert.go:70-82 | All entries are made exactly when each fits and is not refused; a refusal after the first index leaves an entry without a row, and a refusal at the first changes nothing. |
| `RowStatements.InsertRow` | internal/engine/insert.go:70-87 | A row is inserted exactly when its entries and bytes fit and unique indexes admit it; then heap and indexes agree on it. A failure leaves the data as it was or, under the exact condition, in a state that no set of rows explains. Other tables stay. |
| `RowStatements.NeverAgrees` | internal/engine/insert.go:70-87 | With an entry made and the row not yet stored, heap and indexes agree on no set of rows. |
| `RowStatements.DeleteRow` | internal/engine/delete.go:32-41 | Deleting a stored row always succeeds and leaves heap and indexes agreeing on the others. |
| `RowStatements.MoveEntry` | internal/engine/update.go:63-80 | One index follows a row's change unless the values compare equal, is untouched when refused, and has lost the entry when the new key is too large. |
| `RowStatements.UpdateEntries` | internal/engine/update.go:62-81 | All indexes follow, or the exact condition decides between no change and a torn state. |
| `RowStatements.UpdateRow` | internal/engine/update.go:62-85 | The same with the heap: success exactly under the stated conditions, and failure without change or torn, exactly. |
| `Seek.PlanIsClause` | internal/engine/scan.go:43-84 | When a WHERE clause is taken for an index seek, it is true of a row exactly when the row's value equals the literal as `=` sees it. |
| `Seek.PlanFoundIff` | internal/engine/scan.go:43-84 | An index is used exactly when the clause equates an indexed column of the table and a literal that fits the column, either way round. |
| `Seek.SeekIsScanIff` | internal/engine/scan.go:91-139 | Seek then filter gives the same rows in the same order as scan then filter, if and only if no row holds a double confusable with the literal. |
| `Loading.FetchAllRows` | internal/engine/scan.go:14-38 | Every row of the table, decoded, in key order. |
| `Loading.IndexEqualityLookup` | internal/engine/scan.go:91-109 | The row keys of the entries that start with the value's key. |
| `Loading.LoadRows` | internal/engine/scan.go:113-139 | The rows by seek or scan, each as stored; no loaded key is missing from the heap. |
| `Loading.LoadedSelects` | internal/engine/scan.go:113-139 | No row is loaded twice, and the loaded rows that satisfy the clause are all such rows, in key order, if and only if no confusable double is involved. |
| `RowBuilding.BuildRow` | internal/engine/insert.go:38-61 | The loops give the row that `BuiltRowIff` describes, or fail as `BuiltRowFailsIff` does. |
| `RowBuilding.BuiltRowIff` | internal/engine/insert.go:42-61 | A row is built exactly when every expression evaluates and fits its column, each column holds the value of the last expression for it or what it held before, and no NOT NULL column is NULL. |
| `RowBuilding.BuiltRowFailsIff` | internal/engine/insert.go:46-61 | It fails exactly when an expression fails or does not fit, or a NOT NULL column would be NULL. |
| `RowBuilding.PositionsIff` | internal/engine/insert.go:27-34 | The positions are those of the first column of each name; there are none exactly when a name is unknown. |
| `RowBuilding.BuiltRowByName` | internal/engine/insert.go:19-61 | The same by column names. |
| `RowBuilding.WholeListFills` | internal/engine/insert.go:19-61 | Without a column list, expression c goes to column c. |
| `Inserts.RowMeansKey` | internal/engine/insert.go:93-107 | The probe misses no duplicate. |
| `Inserts.KeyMeansRow` | internal/engine/insert.go:93-107 | For fixed-width columns the probe hits exactly the duplicates. |
| `Inserts.TextKeyIff` | internal/engine/insert.go:93-119 | For TEXT the probe hits exactly if some row's text followed by its row key starts with the value; it is wrong exactly if there is such a row and none has the value. |
| `Inserts.InsertKeepsUnique` | internal/engine/insert.go:70-87 | An admitted row keeps every unique index unique. |
| `Inserts.ExecInsert` | internal/engine/insert.go:12-91 | Succeeds exactly when every row can be built and inserted in turn; then the table holds the old rows and, under the next numbers, one row per list with each named column filled from its expression and the others NULL; indexes agree and unique keys are unique. A failure has inserted exactly the rows before the failing one, which tears the table under the exact condition. Other tables stay. |
| `UpdateMeaning.JudgeIff` | internal/engine/update.go:31-60 | A row is changed exactly when the clause holds of it and all assignments succeed: each assigned column then holds the value of its last expression on the old row, the others what they held. It is passed over exactly when the clause is false, and stops the statement exactly when the clause or, on a chosen row, an assignment fails or leaves a NOT NULL column NULL. |
| `UpdateMeaning.ReassignedByName` | internal/engine/update.go:22-60 | The same by the names in SET. |
| `UpdateMeaning.UpdatedIsRewritten` | internal/engine/update.go:31-87 | Of the rows passed, exactly those of which the clause holds are reassigned; all others are as before. |
| `UpdateMeaning.FoldMeans` | internal/engine/update.go:31-87 | Row by row, the statement has given exactly the rows it came past and selected their new values, computed from the values before it. |
| `UpdateMeaning.UpdateAgreesIff` | internal/engine/update.go:62-81 | Afterwards heap and indexes agree if and only if no updated row changed its key between values that compare equal. |
| `UpdateMeaning.FoldSane` | internal/engine/update.go:31-87 | Then rows also stay typed, numbered and unique. |
| `Statements.ExecUpdate` | internal/engine/update.go:11-89 | UPDATE reassigns exactly the loaded rows that satisfy the clause, column by column, and counts them; agreement, uniqueness and every failure are stated exactly; other tables stay. |
| `Statements.ExecDelete` | internal/engine/delete.go:10-45 | DELETE removes exactly the loaded rows that satisfy the clause, counts them, keeps the table consistent, and fails only where the clause cannot be evaluated. |
| `Statements.LoadedAllIff` | internal/engine/scan.go:113-139 | The rows loaded for a statement include every row that satisfies its clause if and only if no confusable double is involved. |
| `Databases.PlainNamesSeparate` | internal/txn/txn.go:41-82 | A catalog whose indexed tables have no colon in their names keeps its tables apart, and every index target resolves to its index. |
| `Databases.StatementWholeIff` | internal/engine/engine.go:50-127 | After one statement on one of many tables, every table is consistent if and only if that statement does not tear its own, which the rows and the statement decide. |
| `Databases.CommandKeeps` | internal/engine/engine.go:50-127 | Every statement, BEGIN, COMMIT and ROLLBACK keeps the invariant over all tables and over what a rollback would bring back. |
| `Databases.RunsStayWhole` | internal/engine/engine.go:50-127 | So does every run of them. |
| `Databases.CleanRunsWhole` | internal/engine/engine.go:50-127 | Over every run in which no statement tears its table, heap and indexes of all tables agree and unique keys are unique. |
| `Databases.NumberedWholeIff` | internal/engine/insert.go:63-67 | Row numbers are saved without a log record: tables whole before a crash are whole under the saved numbers if and only if these are above the numbers of all their rows. |
| `Backfills.HasEntry` | internal/engine/ddl.go:158-169 | The probe of an index under construction finds exactly whether a key starts with the value's key. |
| `Backfills.Backfill` | internal/engine/ddl.go:94-145 | Succeeds exactly when each row can be indexed in its turn; then the new tree holds one entry per row and nothing else has changed. |
| `Backfills.BackfillAgrees` | internal/engine/ddl.go:94-145 | With the new index in the schema, heap and all indexes agree on the same rows. |
| `Backfills.BackfillUnique` | internal/engine/ddl.go:94-145 | A unique index that could be built has no two rows with one value. |
| `Backfills.BackfillUniqueIff` | internal/engine/ddl.go:94-169 | On a fixed-width column it can be built if and only if no two rows share a value and at most one is NULL. |
| `Sessions.Session.ExecBegin` | internal/engine/engine.go:52-57 | Fails exactly inside a transaction; otherwise one is open on the committed data. |
| `Sessions.Session.ExecCommit` | internal/engine/engine.go:59-71 | Fails exactly outside a transaction; otherwise the data is committed. |
| `Sessions.Session.ExecRollback` | internal/engine/engine.go:73-82 | Fails exactly outside a transaction; otherwise the data is the committed data. |
| `Sessions.Session.Close` | internal/engine/engine.go:34-39 | An open transaction is rolled back. |
| `Sessions.Session.Enter` | internal/engine/engine.go:110-127 | A statement runs in the open transaction or in a new one of its own. |
| `Sessions.Session.Leave` | internal/engine/engine.go:110-127 | Its own transaction is committed, or rolled back if it failed; an open one keeps what the statement did. |
| `Sessions.Session.ExecuteInsert` | internal/engine/engine.go:93-127 | A failed INSERT on its own leaves the data as it was; in an open transaction it leaves what it did, torn or not by the exact condition. |
| `Sessions.Session.ExecuteUpdate` | internal/engine/engine.go:93-127 | The same for UPDATE. |
| `Sessions.Session.ExecuteDelete` | internal/engine/engine.go:93-127 | The same for DELETE, which never tears. |
| `Engines.Engine.constructor` | internal/engine/engine.go:21-28 | A session on whole tables starts a run of commands. |
| `Engines.Engine.Begin` | internal/engine/engine.go:50-57 | The call is the next command of the run, and the run's last state is what the store and the tables show. |
| `Engines.Engine.Commit` | internal/engine/engine.go:59-71 | The same for COMMIT. |
| `Engines.Engine.Rollback` | internal/engine/engine.go:73-82 | The same for ROLLBACK. |
| `Engines.Engine.Insert` | internal/engine/engine.go:93-127 | The same for INSERT on one of the tables. |
| `Engines.Engine.Update` | internal/engine/engine.go:93-127 | The same for UPDATE. |
| `Engines.Engine.Delete` | internal/engine/engine.go:93-127 | The same for DELETE. |
| `Engines.Engine.CommittedWhole` | internal/engine/engine.go:50-127 | After any calls, the committed data are those of whole tables unless a committed statement tore one. |
| `Engines.Reopen` | internal/txn/txn.go:86-138 | After a crash of any run, opening the store makes those tables whole again, under the row numbers on disk, if and only if these are above the numbers of all their rows. |
| `Parsers.Parser.Advance` | internal/sqlparser/parser.go:34-40 | Returns the token under the parser and moves on unless it is the last. |
| `Parsers.Parser.ParseExpr` | internal/sqlparser/parser.go:528 | Reads the longest expression of the grammar from where the parser stands, or fails where it has none. |
| `Parsers.Parser.ParseOr` | internal/sqlparser/parser.go:530-544 | The same at the OR level: the loop is left-associative. |
| `Parsers.Parser.ParseAnd` | internal/sqlparser/parser.go:546-560 | The same at the AND level. |
| `Parsers.Parser.ParseNot` | internal/sqlparser/parser.go:562-572 | The same at the NOT level. |
| `Parsers.Parser.ParseComparison` | internal/sqlparser/parser.go:576-593 | The same for comparisons. |
| `Parsers.RespelledParses` | internal/sqlparser/parser.go:582-585 | Writing `<>` for every `!=` changes nothing that is read, at any level and position. |
| `Parsers.Parser.ParseAdditive` | internal/sqlparser/parser.go:595-609 | The same for sums. |
| `Parsers.Parser.ParseMultiplicative` | internal/sqlparser/parser.go:611-625 | The same for products. |
| `Parsers.Parser.ParseUnary` | internal/sqlparser/parser.go:627-637 | The same for the minus sign. |
| `Parsers.Parser.ParsePrimary` | internal/sqlparser/parser.go:639-700 | The same for literals, columns and parentheses. |
| `Rendering.ReadsBack` | internal/sqlparser/parser.go:528-700 | At every level, an expression rendered at that level inside any tokens is parsed as itself and no further. |
| `Rendering.ParseRender` | internal/sqlparser/parser.go:528-700 | Parsing a rendered expression gives it back and stops at its end. |
| `Rendering.OperatorsBind` | internal/sqlparser/parser.go:528-625 | Of two operators around an operand the tighter one takes it: products, sums, comparisons, AND, OR in that order, the left one on a tie. |
| `Rendering.ComparisonsDoNotChain` | internal/sqlparser/parser.go:576-593 | After a comparison a second one is left unread. |
| `Rendering.RenderIsStable` | internal/sqlparser/parser.go:528-700 | Whatever the parser returns can be rendered, and parses to itself again. |
| `Rendering.ParensNeededIff` | internal/sqlparser/parser.go:528-700 | Rendering puts an expression in parentheses exactly where it would not parse as itself without them. |
| `Sorting.ComesFirst` | internal/engine/select.go:111-130 | The comparator is the lexicographic one over the terms, each by its direction, skipping terms that cannot be evaluated. |
| `Sorting.ComparatorOrders` | internal/engine/select.go:111-130 | The comparator over several terms is a strict weak order when each term on its own is. |
| `Sorting.OneTermOrdersIff` | internal/engine/select.go:111-130 | For one term it is a strict weak order if and only if values are missing only when all tie, and NaN occurs only when all others tie. |
| `Sorting.NaNBreaksOrder` | internal/catalog/value.go:162-169 | One is below two, and NaN ties with both. |
| `Sorting.SortIsStable` | internal/engine/select.go:111-130 | Under a strict weak order, insertion gives a permutation that is sorted and keeps ties in place. |
| `Sorting.StableUnique` | internal/engine/select.go:111-130 | There is only one such permutation, so every stable sort gives it. |
| `Selects.JoinTuples` | internal/engine/select.go:44-57 | The two loops produce the specified join, or fail where a condition cannot be evaluated. |
| `Selects.FilterTuples` | internal/engine/select.go:100-109 | Keeps the tuples for which WHERE is true; those where it cannot be evaluated are dropped. |
| `Selects.SortTuples` | internal/engine/select.go:111-130 | The tuples in the order of the sort. |
| `Selects.ExecSelect` | internal/engine/select.go:12-98 | Join, filter, count or sort and limit, in that order. |
| `Selects.JoinProduces` | internal/engine/select.go:35-58 | The joined tuples are exactly the combinations of rows that satisfy every ON clause, each once, in lexicographic order of row positions. |
| `Selects.AnswerIsStableSort` | internal/engine/select.go:60-83 | Where the terms order the tuples, the answer is the start of the one stable order of the tuples that satisfy WHERE. |
| `Answers.TupleLessIff` | internal/engine/select.go:111-130 | One tuple comes before another exactly when some term puts it first and every earlier term ties or has no value: by the lower value ascending, by the higher one descending, NULL lowest. |
| `Answers.OneTermByKeys` | internal/engine/select.go:111-130 | For one term over values of one type, ascending is by smaller sort key and descending by larger, where the keys are in order. |
| `Answers.TupleLessByKeys` | internal/engine/select.go:111-130 | The same for several terms. |
| `Answers.JoinedReference` | internal/engine/select.go:30-58 | In a joined tuple a qualified column is that of the named table's row in the combination. |
| `Answers.JoinedIff` | internal/engine/select.go:35-58 | The joins fail exactly when an ON clause cannot be evaluated on a combination that the earlier ones let through. |
| `Answers.KeptAreWanted` | internal/engine/select.go:35-67 | The tuples left by WHERE are those of the combinations that satisfy every ON and WHERE, each once, in the order of the nested loops. |
| `Answers.CountIsWanted` | internal/engine/select.go:69-77 | COUNT is the number of those combinations. |
| `Answers.LimitIsPrefix` | internal/engine/select.go:79-83 | The list is the start of the list without LIMIT, as long as the smaller of limit and list; that one has every tuple that WHERE leaves, as often as it is left. |
| `SelectLoading.SeekAnswers` | internal/engine/select.go:18-64 | A query gives the same answer whether its rows come from the index seek or from the full scan, when no confusable double is involved. |
| `EngineWitnesses.ZeroesAreConfusable` | internal/util/encoding.go:27-37 | Negative zero and zero, and NaN and one, compare equal and have different keys. |
| `EngineWitnesses.TextOverRejects` | internal/engine/insert.go:93-107 | A unique TEXT column that holds `ab` refuses `a`. |
| `EngineWitnesses.RowKeyOverRejects` | internal/engine/insert.go:93-119 | It also refuses `ab` with a zero byte, with which no stored text starts. |
| `EngineWitnesses.LargeRowFitsItsIndex` | internal/engine/insert.go:70-87 | A row whose entries fit and whose bytes do not. |
| `EngineWitnesses.SecondIndexTears` | internal/engine/insert.go:70-87 | A row refused by its second unique index after the first has taken its entry. |
| `EngineWitnesses.SecondIndexTearsUpdate` | internal/engine/update.go:62-85 | Two rows that INSERT takes, and an UPDATE that the second unique index refuses after the first has moved its entry. |
| `EngineWitnesses.ZeroesPassAsUnique` | internal/engine/insert.go:93-107 | Two rows with zero and negative zero have unique keys and equal values. |
| `EngineWitnesses.NegativeZeroGoesStale` | internal/engine/update.go:62-67 | A row with zero that INSERT takes; the UPDATE to minus zero succeeds and leaves the index behind. |
| `EngineWitnesses.NullsRefuseBackfill` | internal/engine/ddl.go:94-169 | Two rows without a value that INSERT takes into a unique index, which can then not be built again. |

## Findings

Each is proved of the model: the exact condition where one is named, and an
input that fails.

- An internal page that overflows because its rightmost child split loses the
  new right child (internal/storage/btree.go:394-454): `PutCorrectIff`,
  `RightmostOverflowLosesPage`. Ascending keys are enough.
- A leaf is split by cell count, not size, and insertions that do not fit a
  half are ignored (internal/storage/btree.go:351-392): `PackKeepsAllIff`,
  `UnevenSplitLosesEntry`. With small cells it cannot happen:
  `SmallCellsKeepPages`.
- Space freed by deletes is not reclaimed, so replacing the only cell of a worn
  leaf can split it with an empty left half and a separator equal to its own
  lower bound: `KeepsOrder` in `PutCorrectIff`, `WornLeafBreaksOrder`.
- `Txn.Put` logs an operation before the tree refuses it as too large. If the
  transaction still commits, every later `Open` fails: `RecoveryCorrectIff`,
  `CrashThenRecoverIff`, `OversizeCommitBlocksOpen`.
- `MaybeCheckpoint` takes no transaction lock. Beside an open transaction it
  makes all that is in the trees durable. It is harmless exactly when no undo
  write of the transaction would change anything: `HarmlessIff`. Otherwise a
  crash can keep uncommitted values, also in the middle of a later rollback:
  `LateCheckpointKeepsUncommitted`, `CutRollbackKeepsUncommitted`,
  `LateRunDiffers`. A checkpoint between a log record and its tree write can
  lose a committed value: `LateCommitLoggedIff`, `LateCommitLosesUnlogged`.
- The log's package comment says that redo and undo converge however far page
  writes had gotten. They do for logged keys of committed and open
  transactions; keys that only rolled-back transactions wrote must already have
  been restored on disk: `RecoveryRightIff`, `UnrestoredValueStays`.
- A statement that fails inside an explicit transaction is not undone
  (internal/engine/engine.go:110-127). It leaves an entry without a row, or a
  row without its entry, exactly under `InsertTears` and `UpdateTears`:
  `InsertRow`, `UpdateRow`, `StatementWholeIff`, `SecondIndexTears`,
  `SecondIndexTearsUpdate`, `LargeRowFitsItsIndex`.
- Negative zero and NaN have keys that disagree with comparison. That breaks the
  decoding, the key order, the equality seek, the UPDATE shortcut for equal
  values and the uniqueness of doubles, each exactly as stated by
  `FloatRoundTripIff`, `SortKeyOrderIff`, `SeekIsScanIff`, `UpdateAgreesIff`
  and `ValuesUniqueIff`: `ZeroesAreConfusable`, `NegativeZeroGoesStale`,
  `ZeroesPassAsUnique`.
- A comparison of values of different types does not convert them, although
  `Compare` asks its callers to (internal/catalog/value.go:118-119): the right
  value counts as zero. Zero equals every text, and not the other way round:
  `MixedReadsZero`, `MixedOneWay`. Between comparable values all operators agree:
  `ComparisonsExchange`, `ComparisonsAgree`.
- The conversion of integers to FLOAT is called lossless
  (internal/engine/expr.go:205-207). It is so exactly for the integers that are
  doubles: `ToFloatExactIff`, `NeighboursMeet`.
- The unique probe compares a prefix and runs on into the row key. A TEXT value
  is refused exactly if a stored text followed by its row key starts with it:
  `TextKeyIff`, `TextOverRejects`, `RowKeyOverRejects`. For other types the
  probe is exact: `KeyMeansRow`.
- CREATE UNIQUE INDEX counts NULL as a value, INSERT does not:
  `BackfillUniqueIff`, `NullsRefuseBackfill`.
- With NaN or terms that cannot be evaluated, the ORDER BY comparator need not
  be an order: `OneTermOrdersIff`, `NaNBreaksOrder`.
- The target of an index on a table whose name has a colon resolves to another
  table's index or to none: `IndexResolvesIff`, `ColonsCollide`.
- Row numbers are saved outside the log. If a saved number is lost and redo
  brings back a row with that number or a later one, the number is given out
  again: `NumberedWholeIff`, `Reopen`.

## Left out

- The server, its wire protocol, the command-line client and process handling.
- Operating-system files: write and sync errors, and a crash between the page
  writes of one tree operation. The engine and recovery layers take a tree
  operation as one atomic map update; `StoreTrees` relates the two.
- Reopening the data file from its header page, `Sync` and `Close` of the pager.
- The CRC itself: any checksum function is admitted, so corruption that a CRC
  would detect is not ruled out or in.
- The lexer, and parsing of statements other than their expressions.
- CREATE TABLE, DROP TABLE and the catalog's storage; schemas are fixed while
  statements run, and the catalog is fixed during recovery.
- The list of output columns and the projection of a SELECT.
- Go's library sort is represented by insertion; `StableUnique` makes the choice
  immaterial where the comparator is an order.
- Cursors inside statements are lists taken at their start; statements read
  their list before they write.
- Transactions.Store.Begin: requires the lock to be free; the source waits until it is, and the waiting is not modelled.
- Sessions.Session.ExecBegin: the same, outside a transaction.
- Sessions.Session.Enter: the same, for a statement on its own.
- Sessions.Session.ExecuteInsert: the same, and row numbers below 2^64.
- Sessions.Session.ExecuteUpdate: the same lock.
- Sessions.Session.ExecuteDelete: the same lock.
- Engines.Engine.Insert: one session, so the lock is free; requires that no earlier statement tore a table.
- Sorting.ComparatorOrders: one direction only for several terms, because a term that does not order can be made up for by a later one.
- LateRuns.LateCrashIff: keys that recovery will not write are on disk as the trees hold them; lost pages are treated by the `LateCheckpoints` theorems.
- A statement on a table that an earlier statement has torn; nothing is promised
  for it.
- Error message texts.
- BTrees.BTree.Put: requires room for the new pages below 2^32; page numbers that wrap around are not modelled.
- Pagers.Pager.AllocatePage: requires a page count below 2^32, for the same reason.
- Inserts.ExecInsert: requires row numbers to stay below 2^64; wrap-around is not modelled.
- LogFiles.OpenFile: takes log records whose lengths fit their fields; `OpRoundTripIff` says what happens to others.
- SelectLoading.SeekAnswers: one direction only, because an answer cut by LIMIT or counted can agree by chance; `LoadedSelects` has both directions for the rows.
