# quilldb storage core: a verified model

quilldb is a database engine in the SQLite file format. This project models its
storage and transaction core in Dafny and proves what that core is for: that the
two b-trees are an ordered index and a finite map through every split, merge and
rotation; that in a file with any number of trees no page leaks or is owned twice; that
the validators accept exactly the trees in good order; that a crash at any point of a
transaction leaves every table and index as it was before or as it is after; that strict
two-phase locking gives serial results; that deadlocks are found; that rows survive the
trip through bytes.

`dafny verify dfyconfig.toml` checks everything.

## How the model is built

**Pages and trees** (`Trees`, `Places`, `Store`, `TreeCells`). A page is a decoded body: a leaf with cells,
an interior page with `(child, separator)` cells and a right child, an overflow page or
a free page. A `Tree` is the value that pages spell out, `Rep(m, t)` says that the pages
in `m` spell out `t`, and `Flat(t)` is its in-order sequence, interior cells included. A
`Ctx` is a tree with a hole, read from the hole to the root: the `path` of the source is
such a context, and loops that walk `path` upwards peel off its frames.
`PageStore` owns page numbers, the freelist threaded through freed pages, and a ghost
ledger: every page from 2 to `pageCount` is owned exactly once or free exactly once. All
tree operations keep `used == pages of the tree + pages of overflow chains + others`, so a
leak, a double free and a shared page cannot be stated. `others` are the pages of
everything else in the file; `Agree` says they are untouched. The store also logs its
moves, a page taken, written or freed, and the log leads from its first state to its last.
Index entries, table rows and fences are one type of cell, since they share one file.
`Database` puts any number of tables and indexes into a file: an operation works on one
tree through a handle, and the frame `Agree` keeps all the others well-formed. `Performed`
says for each operation what it makes of the file.

**The index** (`Keys`, `IndexTree`, `IndexInsert`, `Rebalance`, `IndexDelete`, `Scan`,
`IndexSeek`, `Index`). An entry is its key, the length of its encoded
record and its overflow pages; the byte arithmetic of cells and pages is exact. Because
interior cells are entries, one strictly ascending `Flat` says everything about order.

**The table** (`TableTree` to `Tables`, `Cursors`). Rows live on leaves, and fences,
copies of rowids, on interior pages. A fence ranks just after the row it copies, so the
same strictly ascending `Flat` says `(low, separator]`; `Table` reads the map off it.

**The validators** (`Validate`, `TableRanges`). Both walk whatever the pages say. What they accept is
stated on the tree's one in-order sequence, with the depth of each cell: keys ascend; rows
ascend, a row equal to a fence is left of it, and a fence may repeat the fence that bounds
its page from above, which stands nearer the root. Overflow chains are followed by the first
four bytes of whatever page they come to. `TableRanges` says of tables the same in terms of
what the code carries down, the bounds of each page.

**Durability** (`Durability`, `Recovery`, `Engine`). `Engine` is pager, buffer pool and
transaction in one object. Every write to the disk appends to a ghost trace, so a claim
about the trace is a claim about every crash point. A crash may keep any mixture of the
unsynced page writes, and an unlinked journal may come back until the directory is
synced; in the second, in-order model the crash keeps exactly what was written.

**Trees in transactions** (`PageView`, `Sessions`). A page of the disk holds zeros, the
catalog, which is the list of roots on page 1, a decoded page body, or garbage. `Stands`
says that a file holds exactly certain tables and indexes. A transaction performs its
operations on the trees, and after each of them carries the logged moves out on the page
cache, page by page in the same order; so what is proved of the trees and what is proved of
crashes meet in one theorem, `Sessions.Transact`.

**Concurrency** (`WaitGraph`, `Locks`, `Serializability`, `SoloRuns`). The lock manager is a class
whose methods are its atomic steps; waiters are asleep or awake. Serializability is about
all runs of a transition system whose lock steps are what the lock manager grants. A
transaction ends in three steps, finish, unhook and release, between which others run; the
serial order is the order of the releases. `SoloRuns` shows that the system is not vacuous:
an unobstructed transaction runs from its beginning to its release.

**Bytes** (`Varint`, `Record`, `Cells`, `Overflow`, `PageLayout`, `PageBytes`, `RowStorage`).
Encoders and decoders as the loops they are, their round trips, and the lengths the trees
count with. `PageBytes` ties the two together: the sum the trees keep within a page is the
length of the page that is laid out.

**Where the code and its comments differ.** The comments of the two `insert` methods say
that a split does not cascade; the code cascades, and so does the model. The comment of
`_detect_deadlock` says the walk looks for a way back to the waiter; the code reports any
cycle it can reach, and so does the model. The comment of `parse_page` says that cells
that overlap are rejected; the code reads a cell whose pointer lies above the one before it
as empty, and so does the model.

**Properties that do not hold as one would wish**, each with its exact condition and a
witness.
- Index deletion fails when an entry that moves up is too long for the page it moves to.
  A full key marks at most one place (`IndexDelete.MarksUnique`), and `Forecast` tells from
  the place whether the entry goes, the deletion is refused untouched, or a rotation fails
  halfway; then one more entry is lost and another stands twice (`Damaged`), which the
  validator detects. Witnesses: `Witnesses.DeleteIsRefused`, `Witnesses.DeleteFailsHalfway`.
- A table row is refused exactly when the one leaf it belongs on, with the row, is too big
  for a page and cannot be cut in two (`Refuses`). Witness: `Witnesses.InsertIsRefused`.
- A stuck set of transactions is found by the search from each member exactly when no
  member is the only holder of what it waits for (`Locks.StuckIsDeadlocked`). Witness,
  reached from an empty lock manager: `Locks.UpgradeGoesUnnoticed`.
- A transaction that added pages but saved none leaves the header in memory ahead of the
  file, and an added page that was never fetched for writing stays in the cache after a
  rollback: `Engine.Commit` and `Engine.Rollback` say exactly when the engine is clean.
  Witnesses: `EngineWitnesses.GrowThenCommit`, `EngineWitnesses.GrowThenRollback`.
- After a power loss the length check can fail before recovery runs. A state reopens
  whatever survives exactly if page 1 has been synced since it was last written and its page
  count is at most both lengths of the file (`Durability.ReopensIff`). Of the states of a
  commit exactly one does not: page 1 is written and the file not yet synced
  (`Engine.Commit`); a rollback before the barrier has none; recovery has those from the
  restoring of page 1 up to its sync, and no others (`Recovery.RecoveryReopens`,
  `Recovery.ColdReopens`). Witness, a state of a commit: `EngineWitnesses.TornHeader`.

## Model

| member | source | states |
|---|---|---|
| `Store.PageStore.AllocatePage` | src/quilldb/storage/bufferpool.py:362-376 | the head of the freelist if there is one, else a new last page; nobody else's page changes, and every page still has one owner |
| `Store.PageStore.Free` | src/quilldb/storage/bufferpool.py:412-424 | the page, which is not page 1, heads the freelist and holds the old head; the ledger still balances |
| `Store.PageStore.WriteOverflowChain` | src/quilldb/storage/overflow.py:53-83 | n fresh pages, each linked to the next, the last to none |
| `Store.PageStore.FreeOverflowChain` | src/quilldb/storage/overflow.py:168-184 | exactly the pages of the chain go back to the freelist, the rest is untouched |
| `Split.ClosestToHalf` | src/quilldb/btree/split.py:90-119 | no cut is nearer to the middle in bytes, and among equals it is the rightmost |
| `Split.ConsumeClosestToHalf` | src/quilldb/btree/split.py:227-253 | taking out no other cell leaves more equal sides, and among equals it is the rightmost |
| `Split.CutIsOptimal` | src/quilldb/btree/split.py:90-119 | the balanced cut minimises the heavier side, so if it does not fit on two pages no cut does |
| `Split.BalancedCut` | src/quilldb/btree/split.py:90-119 | the balanced cut is off the middle by at most one cell |
| `Split.BalancedConsume` | src/quilldb/btree/split.py:227-253 | the two sides differ by at most one cell |
| `Cascade.ChooseConsumed` | src/quilldb/btree/split.py:191-224 | an over-full interior page always splits into two non-empty pages that fit, before its last two cells after an append and else as evenly as can be; the clamp and the guard never act |
| `Cascade.PromoteSeparator` | src/quilldb/btree/index.py:1209-1392 | through any number of splits and root growth: never fails, uniform depth, page rules, the root's page number, and the in-order sequence with the separator in its place |
| `Descent.LowerBound` | src/quilldb/btree/search.py:126-140 | the first cell that is not below the probe, for any probe to which the cells are monotone |
| `Descent.FindLeaf` | src/quilldb/btree/index.py:795-823 | everything left of the slot reached is below the probe, nothing right of it is; the path is the tree's own |
| `Keys.ValuesOrder` | src/quilldb/btree/index.py:102-134 | antisymmetry and transitivity of the cross-type order, with 1 and 1.0 equal |
| `Keys.ValuesCompare` | src/quilldb/btree/index.py:102-134 | NULL before numbers before text before blobs; numbers by value in either type; of two texts or blobs the first byte that differs decides, else the shorter comes first |
| `Keys.KeysCompare` | src/quilldb/btree/index.py:112-134 | the first column that differs decides, and only the columns both sides have are looked at |
| `Keys.ProbeMonotone` | src/quilldb/btree/index.py:112-134 | a probe of any length that is past a key is past every key before it |
| `Keys.ProbeStaysBefore` | src/quilldb/btree/index.py:112-134 | a probe of any length that is before a key is before every later key |
| `IndexTree.SortedInsert` | src/quilldb/btree/index.py:179-218 | inserting at the lower bound keeps the sequence strictly ascending if and only if the key was absent |
| `IndexInsert.ChooseCut` | src/quilldb/btree/index.py:1076-1110 | a full leaf and its new cell always split in three with both leaves non-empty and within a page: the dead ends cannot be reached; an append peels off the new cell, any other cut is the most even one |
| `IndexInsert.SplitLeaf` | src/quilldb/btree/index.py:1050-1206 | the leaf is split, the overflow chain written once, and the sequence is the old one with the entry in its slot |
| `Index.IndexBTree.constructor` | src/quilldb/btree/index.py:164-176 | an empty leaf on a page of its own is a well-formed empty index |
| `Index.IndexBTree.Insert` | src/quilldb/btree/index.py:179-218 | for every absent key: terminates without a full-page error, keeps order, bounds, depth, page bytes, non-empty pages and page ownership; the entries are the old ones plus this one |
| `IndexDelete.Locate` | src/quilldb/btree/index.py:356-395 | not found means that no entry, leaf or interior, has this key |
| `IndexDelete.RightmostLeaf` | src/quilldb/btree/index.py:398-415 | the leaf whose last cell immediately precedes the divider |
| `IndexDelete.SwapDivider` | src/quilldb/btree/index.py:490-513 | the predecessor's entry takes the divider's cell, which keeps its child, and leaves its leaf |
| `IndexDelete.RemoveDivider` | src/quilldb/btree/index.py:418-521 | exactly the divider leaves the sequence; the size check comes before any write and fails exactly if the predecessor does not fit |
| `Rebalance.OneCellMerges` | src/quilldb/btree/index.py:643-652 | a sibling with one cell can always absorb the divider, so merge or rotation is always possible |
| `Rebalance.MergeInto` | src/quilldb/btree/index.py:624-720 | sibling, divider and the empty page's child become one page and the other page is freed, same sequence |
| `Rebalance.RotateFrom` | src/quilldb/btree/index.py:657-713 | the divider comes down, the sibling's nearest entry goes up, same sequence, every page within its bytes |
| `Rebalance.RotateHalfway` | src/quilldb/btree/index.py:684-713 | a rotation that does not fit has rewritten both children: pages and depths are still in order, but the entry that was to move up is on neither child and the divider is there twice |
| `Rebalance.PullUp` | src/quilldb/btree/index.py:725-741 | the only child takes the root's page and its own page is freed, same sequence |
| `Rebalance.Repair` | src/quilldb/btree/index.py:530-722 | terminates one level nearer the root each time; succeeds if and only if the entry that a rotation moves up fits, and then the sequence is unchanged; otherwise one entry is overwritten by a copy of another; all other invariants hold either way |
| `Rebalance.SpoiltIsUnsorted` | src/quilldb/btree/index.py:684-713 | after a failed rotation the sequence is not in order |
| `IndexDelete.MarksUnique` | src/quilldb/btree/index.py:356-395 | in an ordered tree of one depth a full key marks at most one place |
| `Index.IndexBTree.Delete` | src/quilldb/btree/index.py:314-353 | missing if and only if absent; otherwise the outcome is the forecast of the key's one place: exactly that entry gone with all invariants kept, a refusal that changes nothing, or a failure halfway whose damage is stated |
| `Witnesses.LengthsAreReal` | src/quilldb/btree/index.py:179-218 | every entry of the index of the next two rows, whose keys are a text and a rowid, has the length of its encoded record |
| `Witnesses.DeleteIsRefused` | src/quilldb/btree/index.py:485-501 | on a well-formed index in a file, deleting a key it contains is refused before any write |
| `Witnesses.DeleteFailsHalfway` | src/quilldb/btree/index.py:684-713 | on the same index, deleting another key fails after two writes, and the validator then rejects the index |
| `Scan.ScanForward` | src/quilldb/btree/index.py:873-945 | everything from a position to the end, in order, interior entries included |
| `Scan.ScanBackward` | src/quilldb/btree/index.py:948-1044 | everything up to a position, in exact reverse |
| `Scan.ReversedAt` | src/quilldb/btree/index.py:286-301 | what the reverse is, element by element |
| `Index.IndexBTree.Scan` | src/quilldb/btree/index.py:275-283 | the entries, each key before every later one by the first column that differs; leading integers do not descend |
| `Index.IndexBTree.ScanReverse` | src/quilldb/btree/index.py:286-301 | the same entries in reverse, each key after every later one |
| `Index.IndexBTree.SeekEq` | src/quilldb/btree/index.py:221-242 | the answers are the last columns of exactly the keys that match a probe of any length, in key order |
| `Index.IndexBTree.SeekRange` | src/quilldb/btree/index.py:245-272 | the answers are the last columns of exactly the keys within the bounds, inclusive or not, absent or not, in key order |
| `Index.IndexBTree.FindConflict` | src/quilldb/btree/index.py:304-311 | none if and only if a value is NULL or no entry has these values, else the last column of the first key that has them |
| `Index.InsertAndFind` | src/quilldb/btree/index.py:179-242 | after an entry is inserted, searching for its values gives its rowid |
| `IndexSeek.SelectMeans` | src/quilldb/btree/index.py:221-272 | a selection holds each kept entry as often as the sequence does and nothing else |
| `Validate.CheckCells` | src/quilldb/btree/validate.py:121-135 | accepts the cells of a leaf if and only if they are of the tree's kind, ascend and lie within the bounds |
| `Validate.Walk` | src/quilldb/btree/validate.py:100-163 | ends on every page graph; accepts a subtree if and only if it is of one height, in order within its bounds, on pages of the right kind not seen before, and every overflow chain of its cells ends; reports its height, cells and pages |
| `Validate.ReadThrough` | src/quilldb/storage/overflow.py:113-137 | ends on any pages; true if and only if the chain comes to an end without meeting a page twice or missing one |
| `Validate.ValidateTable` | src/quilldb/btree/validate.py:57-166 | accepts if and only if the pages below the root are a table tree in good order whose overflow chains end; empty pages and separators equal to the upper bound are allowed |
| `Validate.AcceptedTable` | src/quilldb/btree/validate.py:70-92 | in an accepted table the rows ascend strictly and take turns with the separators |
| `Validate.AcceptedRanges` | src/quilldb/btree/validate.py:75-79 | each subtree's rows lie above every separator left of it and at or below every separator right of it |
| `TableRanges.AcceptsRanges` | src/quilldb/btree/validate.py:57-166 | a table is accepted exactly if every page keeps to the bounds its ancestors give it, on fresh pages, with a leaf chain and depths that agree |
| `Tables.TableBTree.Validate` | src/quilldb/btree/validate.py:57-166 | a table built by these operations always passes |
| `Validate.ValidateIndex` | src/quilldb/btree/validate.py:168-324 | accepts if and only if the pages below the root are an index tree in good order whose overflow chains end, and counts its leaf and interior entries |
| `Validate.AcceptedIndex` | src/quilldb/btree/validate.py:168-214 | in an accepted index the keys ascend strictly and have the right arity |
| `Validate.DamageIsDetected` | src/quilldb/btree/validate.py:168-214 | the index that a failed rotation leaves behind is never accepted |
| `Index.IndexBTree.Validate` | src/quilldb/btree/validate.py:168-324 | an index built by these operations always passes, and the count is the number of its entries |
| `PageBytes.LeafOfRows` | src/quilldb/storage/page.py:45-64 | rows fit on a leaf by the trees' accounting if and only if the page of their encoded cells can be laid out |
| `PageBytes.InteriorOfFences` | src/quilldb/storage/page.py:45-64 | the same for the fences of an interior page and its child pointers |
| `PageBytes.PageOfEntries` | src/quilldb/storage/page.py:45-64 | the same for the entries of an index page of either kind |
| `PageBytes.TablePageStorable` | src/quilldb/storage/page.py:143-199 | every page of a table that these operations keep, wherever it stands in the tree, can be serialized |
| `PageBytes.IndexPageStorable` | src/quilldb/storage/page.py:143-199 | and so can every page of an index |
| `PageBytes.ChainLength` | src/quilldb/storage/overflow.py:29-63 | the chain a tree keeps for a spilled payload has as many pages as its bytes take up |
| `PageBytes.RefusedBytes` | src/quilldb/btree/btree.py:439-460 | a row is refused if and only if the bytes of the leaf it belongs on, with the row in its place, exceed a page and for no cut in two fit on two pages |
| `TableInsert.ChooseCut` | src/quilldb/btree/split.py:70-87 | the chosen cut fits if and only if some contiguous two-way cut does; an append is cut before the new row and always fits, any other cut is the most even one, the rightmost of them |
| `TableInsert.SplitLeaf` | src/quilldb/btree/btree.py:401-528 | rows on both sides of a fence that copies the last rowid on the left; the chain is written once the cut is known to fit |
| `TableOrder.GrownSequence` | src/quilldb/btree/btree.py:434-436 | a new row, and perhaps a fence, keep the order; the map gains exactly that row |
| `Tables.BinarySearchLeaf` | src/quilldb/btree/search.py:33-62 | the slot of the rowid, or proof that the leaf does not have it |
| `Tables.TableBTree.constructor` | src/quilldb/btree/btree.py:59-62 | an empty leaf is the empty map |
| `Tables.TableBTree.Search` | src/quilldb/btree/btree.py:65-93 | found if and only if the rowid is in the map, and the cell found holds its payload |
| `Tables.CrowdedUnique` | src/quilldb/btree/btree.py:124-176 | the leaf with the new row, before any split, is determined by the tree and the row |
| `Tables.TableBTree.Insert` | src/quilldb/btree/btree.py:96-176 | duplicate if and only if the rowid is in the map; full if and only if it is not and that leaf with the row does not fit and cannot be cut in two; neither touches the store; otherwise the map gains exactly this row, on the same root page |
| `Witnesses.InsertIsRefused` | src/quilldb/btree/btree.py:439-460 | a well-formed table of two rows in a file refuses a row between them |
| `Witnesses.MiddleRowIsRefused` | src/quilldb/btree/btree.py:439-460 | a row that fits beside neither neighbour can never be inserted between them |
| `TableDelete.FreeUpward` | src/quilldb/btree/btree.py:249-301 | every page that loses its last child is unlinked and freed; the tree loses at most one fence, or is an empty leaf on the root page |
| `Tables.TableBTree.Delete` | src/quilldb/btree/btree.py:179-301 | true if and only if the rowid was in the map, which loses exactly it; overflow and emptied pages are freed; the root page stays |
| `Database.File.InsertRow` | src/quilldb/btree/btree.py:96-176 | one table of the file gains the row or refuses it, every other tree is what it was, and the file stays well-formed |
| `Database.File.DeleteRow` | src/quilldb/btree/btree.py:179-301 | one table loses exactly the row, every other tree is what it was |
| `Database.File.InsertEntry` | src/quilldb/btree/index.py:179-218 | one index gains exactly the entry, every other tree is what it was |
| `Database.File.DeleteEntry` | src/quilldb/btree/index.py:314-353 | one index loses exactly the entry, or the forecast says why not; every other tree is what it was, on pages that are what they were, also after a failure halfway |
| `Database.FiledIsPartitioned` | src/quilldb/storage/bufferpool.py:362-424 | every page from 2 to the last is once a page of a tree, once an overflow page or once free, and no other page is any of these |
| `Database.File.Step` | src/quilldb/btree/btree.py:96-301 | each kind of operation has exactly its effect: a new empty tree, or one tree with the row or entry put in or taken out and all others the same, or nothing, exactly when it is refused; it fails only if the forecast says so |
| `Database.File.Run` | src/quilldb/storage/bufferpool.py:362-424 | any operations, in any order, on any number of tables and indexes: each snapshot is what the operation makes of the one before, and each is a file partitioned so |
| `Cursors.TableCursor.DescendToLeaf` | src/quilldb/btree/cursor.py:202-234 | stops on the first or last row below the page, pinning what it passes; unpositioned only in an empty table, whose leaf is unpinned again |
| `Cursors.TableCursor.First` | src/quilldb/btree/cursor.py:87-92 | on record 0, unpositioned if and only if there is none |
| `Cursors.TableCursor.Last` | src/quilldb/btree/cursor.py:95-100 | on the last record, unpositioned if and only if there is none |
| `Cursors.TableCursor.Next` | src/quilldb/btree/cursor.py:103-118 | from record i to i + 1 if there is one, else unpositioned; exactly the path pages are pinned, once each |
| `Cursors.TableCursor.Prev` | src/quilldb/btree/cursor.py:121-129 | from record i to i - 1 if there is one, else unpositioned; same pins |
| `Cursors.TableCursor.Seek` | src/quilldb/btree/cursor.py:132-172 | true if and only if the key is in the table; the records before the cursor are exactly those with smaller rowids; a leaf without such a row is unpinned |
| `Cursors.TableCursor.Advance` | src/quilldb/btree/cursor.py:237-261 | past an exhausted subtree to the next row, over exactly one fence |
| `Cursors.TableCursor.Retreat` | src/quilldb/btree/cursor.py:264-279 | the mirror image |
| `Cursors.TableCursor.Close` | src/quilldb/btree/cursor.py:66-70 | no page stays pinned |
| `Cursors.TableCursor.Enumerates` | src/quilldb/btree/cursor.py:87-129 | the records ascend by rowid, and they are exactly the table's rows with their payloads |
| `Cursors.TableCursor.RowidHere` | src/quilldb/btree/cursor.py:73-84 | the rowid of the record the cursor is on |
| `Cursors.TableCursor.Record` | src/quilldb/btree/cursor.py:175-199 | the payload of the record the cursor is on |
| `Durability.ReplayRestores` | src/quilldb/txn/journal.py:225-249 | replay restores a page if it is recorded and leaves it if it is not |
| `Durability.RecoveryRestores` | src/quilldb/txn/recovery.py:64-73 | however recorded pages and the file's length were damaged, replay and truncate give exactly the base |
| `Durability.GuardedIsRecoverable` | src/quilldb/txn/transaction.py:258-267 | every survivor of a crash at a guarded state recovers to the base, or to the state before the last commit while that commit's journal can come back |
| `Durability.UnlinkCommits` | src/quilldb/txn/journal.py:251-263 | unlinking the journal of a synced file makes the file's contents the base; old or new until the directory is synced |
| `Durability.ReopensIff` | src/quilldb/storage/pager.py:123-131 | whatever a power loss leaves passes the length check if and only if page 1 is synced and its page count is at most the synced and the current length |
| `Recovery.SurvivorIsFound` | src/quilldb/txn/recovery.py:53-73 | any combination of unsynced writes leaves what recovery needs |
| `Recovery.RecoveryIsSound` | src/quilldb/txn/recovery.py:53-73 | every intermediate state of recovery can be reopened and recovered again; the last one is the base |
| `Recovery.RecoveryConverges` | src/quilldb/txn/recovery.py:64-73 | after any finite number of interrupted recoveries the length check passes and recovery gives the same state |
| `Recovery.RecoveryReopens` | src/quilldb/txn/recovery.py:69-74 | of the states of a recovery a power loss can spoil exactly those after page 1 is restored and before the file is synced |
| `Recovery.ColdReopens` | src/quilldb/txn/recovery.py:60-68 | with no journal to replay it can spoil none |
| `Recovery.CrashAnywhere` | src/quilldb/txn/transaction.py:174-270 | the two crash models together, for every state of a sound run |
| `Engine.Engine.EvictOne` | src/quilldb/storage/bufferpool.py:160-192 | the first page in recency order that may go goes; the view is unchanged, pinned pages stay, refused if and only if every page is pinned, nothing is written while a transaction is hooked, a dirty page is written before it goes |
| `Engine.KeptInOrder` | src/quilldb/storage/bufferpool.py:128-192 | whatever leaves the cache, the pages that stay keep their recency order |
| `Engine.Engine.GetPage` | src/quilldb/storage/bufferpool.py:128-157 | the page's view, pinned once more and now the most recently used; no page's view changes and the others keep their order; a miss on a full pool evicts a page that may go, is refused if and only if all are pinned, and lets the pool grow only over pages that a transaction has changed |
| `Engine.Engine.Unpin` | src/quilldb/storage/bufferpool.py:209-223 | one pin less, dirty is sticky, refused without a pin |
| `Engine.Engine.Begin` | src/quilldb/txn/transaction.py:156-172 | the page count is taken when the transaction becomes the writer |
| `Engine.Engine.WillModify` | src/quilldb/txn/transaction.py:174-216 | each page of the base gets exactly one record, with its bytes from before the transaction, before it is changed |
| `Engine.Engine.GetPageForWrite` | src/quilldb/storage/bufferpool.py:465-479 | saved first, then pinned and dirty; the view does not change |
| `Engine.Engine.Grow` | src/quilldb/storage/bufferpool.py:373-376 | a new zero page, in memory only |
| `Engine.Engine.WritePage` | src/quilldb/storage/bufferpool.py:465-479 | the page is saved before it is changed, then shows the new contents and is dirty and unpinned; no other page's view changes |
| `Engine.Engine.AllocatePage` | src/quilldb/storage/bufferpool.py:362-376 | the freelist's head, fetched for writing and read for its link, or a page of zeros past the end; only the header in memory moves |
| `Engine.Engine.FreePage` | src/quilldb/storage/bufferpool.py:412-424 | the cached copy is dropped, the page saved and overwritten with the old head of the freelist, which it becomes |
| `Engine.Engine.Barrier` | src/quilldb/txn/journal.py:171-211 | the journal becomes certain through states that all recover to the base |
| `Engine.Engine.FlushAll` | src/quilldb/storage/bufferpool.py:226-247 | the file becomes the view, page 1 last, and at every step it opens and recovers |
| `Engine.Engine.Commit` | src/quilldb/txn/transaction.py:218-270 | the new base is the view with the header stamped; every state before the last recovers to the old base and opens, and exactly one of them may fail to open after a power loss; without a journal nothing is written, and the engine is clean if and only if the header is the base's |
| `Engine.Engine.Replay` | src/quilldb/txn/journal.py:225-249 | every page of the base is back, through states that all recover to it |
| `Engine.Engine.Rollback` | src/quilldb/txn/transaction.py:272-324 | at any moment, before or after the barrier: file, length, header and the view of every page are the base's, other cached pages stay; clean if and only if every cached page past the base was fetched for writing; before the barrier every state reopens after a power loss |
| `Engine.Engine.RecoverIfNeeded` | src/quilldb/txn/recovery.py:47-73 | the disk passes through exactly the states of `RecoveryTrace` and ends as the base |
| `Engine.Engine.Reopen` | src/quilldb/api/database.py:111-120 | whatever a crash left, if it opens, the engine starts clean on the base |
| `EngineWitnesses.GrowThenCommit` | src/quilldb/txn/transaction.py:258-270 | a transaction that only grows the file commits, and the header in memory counts a page that the file does not have |
| `EngineWitnesses.GrowThenRollback` | src/quilldb/txn/transaction.py:315-324 | a page that was added and never fetched for writing is still in the cache after a rollback |
| `EngineWitnesses.TornHeader` | src/quilldb/txn/transaction.py:258-267 | a commit that adds a page, run from a new engine: in one of its states a power loss leaves a file that fails the length check, although the journal beside it would restore the base |
| `PageView.HoldsIsFilled` | src/quilldb/storage/bufferpool.py:362-424 | every page past the first is free or holds a page of a tree or an overflow chain |
| `PageView.SameTrees` | src/quilldb/btree/index.py:795-823 | a tree cannot change unless one of the old pages changes |
| `Sessions.Carry` | src/quilldb/storage/bufferpool.py:362-479 | any sequence of pages taken, written and freed, carried out through the page cache: the cache then shows exactly the pages, length and freelist that the moves lead to, and page 1 is as it was |
| `Sessions.Perform` | src/quilldb/catalog/catalog.py:228-256 | one operation, with the catalog written and the schema cookie raised by one when it makes a tree, and else neither: the cache shows the trees it makes, or it failed halfway, and then a journal is open and a rollback will leave the engine clean |
| `Sessions.GuardedStands` | src/quilldb/txn/recovery.py:47-73 | at a guarded state of the disk any mixture of unsynced writes recovers to one of the two files' tables and indexes, or to the file before the last commit as long as its journal can come back; writes that survive in order reopen and recover, however often interrupted |
| `Sessions.Transact` | src/quilldb/api/connection.py:390-418 | any operations on any tables and indexes of a committed file, as one transaction: it commits and the file holds what the operations make of the trees, with a schema cookie that has counted the trees made, or one of them fails halfway and the file holds what it held; a crash at any state of the disk in between leaves all trees as before or all as after |
| `WaitGraph.Visit` | src/quilldb/txn/locks.py:245-274 | no cycle reported means that no walk from here ever repeats; a reported cycle is a closed walk of genuine edges with its youngest member as victim |
| `WaitGraph.DetectDeadlock` | src/quilldb/txn/locks.py:225-276 | terminates; reports a cycle if and only if one is reachable from the waiter |
| `WaitGraph.OldestIsSpared` | src/quilldb/txn/locks.py:228-235 | every cycle has a member older than its victim |
| `WaitGraph.KnotIsDeadlock` | src/quilldb/txn/locks.py:225-276 | a finite set whose members all wait for members contains a cycle from each of them |
| `Locks.GrantFits` | src/quilldb/txn/locks.py:113-120 | a compatible grant keeps holders all shared or one exclusive |
| `Locks.FitsIff` | src/quilldb/txn/locks.py:32-37 | a request is compatible if and only if granting it leaves the holders all shared or one exclusive |
| `Locks.LockManager.constructor` | src/quilldb/txn/locks.py:56-65 | the empty lock manager satisfies the invariant |
| `Locks.LockManager.Ask` | src/quilldb/txn/locks.py:106-131 | granted past nobody: held already in a sufficient mode, or no queue and compatible; otherwise last in the queue, and with nobody queued only if the grant would leave the holders in conflict |
| `Locks.LockManager.OnePass` | src/quilldb/txn/locks.py:133-184 | granted exactly if first in the queue and the holders agree afterwards; a waiter whose time is up does not sleep; asleep only if not grantable and not doomed, and in a deadlock only if a doomed transaction is the youngest of a cycle; a deadlock error only for a doomed waiter or the youngest of a cycle; another victim is woken |
| `Locks.LockManager.Doom` | src/quilldb/txn/locks.py:153-160 | the victim is a waiter and is awake |
| `Locks.LockManager.Stir` | src/quilldb/txn/locks.py:161-168 | a timer may wake anybody |
| `Locks.LockManager.ReleaseAll` | src/quilldb/txn/locks.py:206-223 | all holds of one transaction go, nobody else's, and no sleeper misses it |
| `Locks.StuckIsDeadlocked` | src/quilldb/txn/locks.py:133-160 | for every stuck set: the search from each member finds a cycle if and only if no member is the only holder of what it waits for |
| `Locks.UpgradeGoesUnnoticed` | src/quilldb/txn/locks.py:262-268 | from an empty manager, a reader's upgrade queued behind a writer: both sleep for good, nobody is doomed, and the graph has no cycle |
| `Serializability.StepKeeps` | src/quilldb/txn/transaction.py:101-130 | every step of every run keeps the invariant |
| `Serializability.Commute` | src/quilldb/txn/locks.py:30-35 | transactions that had their locks at the same time may be executed in either order |
| `Serializability.Undisturbed` | src/quilldb/txn/locks.py:30-35 | a commit changes nothing that another active transaction has read |
| `Serializability.ReleaseOrder` | src/quilldb/api/connection.py:369-387 | a release puts the transaction in its place in the serial order, ahead of those that committed before it and still have their locks |
| `Serializability.Serializable` | src/quilldb/txn/locks.py:206-223 | after any run the committed transactions, one after the other in the order in which they released their locks, read what they read and leave what is there |
| `SoloRuns.RunsThrough` | src/quilldb/txn/transaction.py:101-130 | nothing stops a transaction whose locks nobody stands against, whatever the others are doing: it runs from begin to release, and leaves what its requests say, or, rolled back, nothing |
| `Serializability.SingleWriter` | src/quilldb/api/connection.py:369-387 | at every moment of every run the hooked transaction alone holds the writer lock, at most its own journal exists, and only its steps move the page count, page by page or back to where it began |
| `CellSizes.LocalSize` | src/quilldb/btree/cells.py:68-88 | never more than fits or exists; spills exactly when the payload exceeds the threshold, and then keeps the least or spills whole pages |
| `CellSizes.Thresholds` | src/quilldb/btree/cells.py:37-65 | the thresholds of a 4096-byte page |
| `CellSizes.SpillIsWholePages` | src/quilldb/btree/cells.py:75-88 | the spilled part fills its pages exactly unless the remainder would not fit locally |
| `CellSizes.IndexCellLen` | src/quilldb/btree/cells.py:229-241 | an index cell is at most about a quarter of a page |
| `CellSizes.ChainPages` | src/quilldb/storage/overflow.py:53-63 | as many overflow pages as the bytes kept off the page need and no more |
| `Varint.EncodeUvarint` | src/quilldb/codec/varint.py:28-71 | the loops compute `Encoded` |
| `Varint.DecodeUvarint` | src/quilldb/codec/varint.py:76-117 | the loop computes `DecodeAt`, truncation included |
| `Varint.RoundTrip` | src/quilldb/codec/varint.py:28-117 | every 64-bit value and its length come back, whatever surrounds the bytes |
| `Varint.EncodedLength` | src/quilldb/codec/varint.py:28-71 | the length used in the space accounting is the real one |
| `Record.HeaderSize` | src/quilldb/codec/record.py:190-198 | the loop ends with a header length that counts itself |
| `Record.EncodeRecord` | src/quilldb/codec/record.py:176-205 | header, types and bodies of a row, or a refusal with its reason |
| `Record.Decode` | src/quilldb/codec/record.py:208-243 | the loops compute `DecodeRecord`, malformed headers included |
| `Record.ValueRoundTrip` | src/quilldb/codec/record.py:66-173 | each value comes back from its serial type and body, whose length the type implies |
| `Record.IntegerRanges` | src/quilldb/codec/record.py:37-61 | an integer takes the first of one, two, three, four, six and eight bytes that holds it |
| `Record.EncodableValues` | src/quilldb/codec/record.py:66-108 | what can be stored: integers of 64 bits, and texts and blobs whose serial type is below 2^64 |
| `Record.DecodeValue` | src/quilldb/codec/record.py:115-171 | a value is read unless its type is reserved or its body runs past the end of the data |
| `Record.RecordRoundTrip` | src/quilldb/codec/record.py:176-243 | every row comes back from its bytes |
| `Record.DecodeColumn` | src/quilldb/codec/record.py:246-283 | on any bytes that decode, the column is the one of the full decoding, and an index past the end is refused |
| `Cells.LeafTableRoundTrip` | src/quilldb/btree/cells.py:129-191 | table leaf cells come back |
| `Cells.InteriorTableRoundTrip` | src/quilldb/btree/cells.py:194-226 | table interior cells come back |
| `Cells.LeafIndexRoundTrip` | src/quilldb/btree/cells.py:229-266 | index leaf cells come back |
| `Cells.InteriorIndexRoundTrip` | src/quilldb/btree/cells.py:269-325 | index interior cells come back |
| `Cells.LeafTableLength` | src/quilldb/btree/cells.py:150-155 | the length that table leaves count with |
| `Cells.IndexLength` | src/quilldb/btree/cells.py:236-286 | the lengths that index pages count with |
| `Cells.InteriorTableLength` | src/quilldb/btree/cells.py:194-207 | the length that table interior pages count with |
| `Overflow.WriteChain` | src/quilldb/storage/overflow.py:53-83 | page by page the chain holds the data, and no other page changes |
| `Overflow.ReadChain` | src/quilldb/storage/overflow.py:113-137 | ends on any pages; a chain that holds the data gives exactly the data |
| `PageLayout.Serialize` | src/quilldb/storage/page.py:143-199 | laid out if and only if it fits; header, pointers and cells are all in place |
| `PageLayout.LayoutUnique` | src/quilldb/storage/page.py:143-199 | header, pointers, cells and the zeros between them determine every byte of a page |
| `PageLayout.Parse` | src/quilldb/storage/page.py:84-140 | any page: read exactly if its type is known and every cell pointer leads into the cell area; the body read is then determined, overlapping cells included |
| `PageLayout.ReadBack` | src/quilldb/storage/page.py:84-199 | a page that was laid out can be read, as the body it was made from and no other |
| `RowStorage.StoreRow` | src/quilldb/btree/btree.py:124-176 | encodes the row, cuts the record, writes what spills, and lays out the page with the cell, or says why not; an empty page takes any row |
| `RowStorage.ReadRow` | src/quilldb/btree/cursor.py:175-199 | a row stored so is read back with its rowid |
| `RowStorage.StoreAndRead` | src/quilldb/btree/cursor.py:175-199 | end to end: a row of any size that is stored is read back |

## Left out

- Page 1 as the root of a tree: its hundred bytes of file header make it smaller, and every tree here has another root. The catalog on it is the list of roots, without the names, the SQL text and the limit of one page.
- The page type byte inside the trees: a page's kind is read off its cells, so an empty leaf is of either kind; in `PageLayout` the byte is there.
- Payload bytes inside the trees: a row carries its payload and an index entry its key as values, with the pages of its overflow chain, so the validators follow a chain but do not decode what it holds; that the chain's bytes are the payload is stated in `Overflow` and `RowStorage`.
- NaN, which has no place in the order of keys; floats are ordered as reals and stored as eight bytes, text is its UTF-8 bytes.
- Pins inside tree operations, and the pool's hit counters: only the cursor holds pins across calls.
- Index.IndexBTree.Insert: requires the key to be absent, since the source makes no such check and relies on rowids being unique.
- Database.File.Run: passes over an index entry whose key is already there and a tree that does not exist, since callers ask for neither.
- Dropping a table or an index, which quilldb does not offer.
- Index.IndexBTree.SeekEq: gives the rowids as one sequence; that the source's generator reads pages only on demand is not modelled, nor is it for the other scans.
- Engine.Engine.Rollback: requires the transaction's pages to be unpinned, as the source does, which closes the open cursor first.
- Engine.Engine.FlushAll: does not model a write that fails halfway; a crash at any write is covered by the trace.
- Recovery.CrashAnywhere: claims reopening only for writes that survive in order; which states also reopen after a power loss is stated in `Engine.Commit`, `Engine.Rollback` and `Recovery.RecoveryReopens`.
- The sampled checksum of journal records as a formula: a record is intact or not, and intact records verify.
- `SyncMode.NORMAL` and `OFF`, and in-memory databases.
- Sessions.Transact: goes on after a refused operation, as an explicit transaction may and an implicit one does not; it compares pages as decoded bodies, lets each page go before it fetches the next, and needs room for one page in the cache.
- Locks.LockManager.OnePass: is one atomic step; that another thread runs between waking a victim and looking again is covered by the step `Again`.
- Fairness and time in the lock manager: a timeout may happen at any pass.
- Catalog, planner, executor, parser, statistics and the DB-API surface: they would only add easy members next to the storage core.
