# WackDB: a verified model

WackDB is a small relational engine written in Rust: B+ tree indexes on pages, a buffer pool
with LRU replacement, a write-ahead log with replay at startup, slotted heap pages, and a
pull-based query executor. This project models its core in Dafny and proves what the engine
is for:

* the **index** is a finite map: any cascade of splits, root growth and merges keeps one
  invariant (fences, equal depth, parent pointers, leaf chain) and changes exactly one entry;
* the **cache** is invisible: a fetched page shows the last content written to it, a pinned
  page keeps its frame, the victim is the frame used longest ago, and no page image reaches
  the disk before the log records up to its LSN;
* **index and cache together** never run out of frames: with three frames free of pins every
  request of an index operation is served, every pin is given back and every write reported;
* the **log** keeps its history through flushes, crashes in the middle of a record and
  checkpoints, and replaying it converges;
* a **table** keeps heap and index in bijection under INSERT and DELETE, and its log can
  always rebuild it;
* a **query plan** (pushdown, index range, hash or nested-loop join) returns the rows of the
  naive plan, and ORDER BY returns them in the order of the one stable sort.

## How the model is built

| layer | files |
|---|---|
| identifiers, byte and slice operations, values | `Storage`, `Sequences`, `Bytes`, `Values` |
| B+ tree | `BTreeShape` (invariant), `BTreeSplit`, `BTreeMerge` (what splits and merges keep), `BTreePage` (page edits in place), `BTreeState` (one step of each operation), `PageTrace` (the requests an index makes of the pool), `BTree` (the class), `BTreeChain` (depth and leaf chain) |
| buffer pool and log | `Lru`, `Cache`, `BufferPool`, `Pooled` (the index over the pool), `Wal` |
| pages and tuples | `SlottedPage`, `TupleCodec`, `Formats` (logs, pages and tuples byte by byte) |
| tables | `Heap`, `Table`, `Replay`, `Torn` (replay where heap and index disagree), `Rebuild`, `Scans`, `Database` (heap, index and log over one pool) |
| queries | `Literals`, `Predicate`, `Joins`, `Pipeline` (filter and joins), `Plan`, `Query`, `StableSort`, `RunMerge`, `ExternalSort`, `Ordered` (SELECT with ORDER BY) |

Code that works in place is a class or a method over an array, proved against a value-level
function or invariant; the lemmas about that function carry the main results. Classes carry
ghost fields for their abstract value (`contents` of an index, `records` of a page, `rows` and
`logged` of a table). The functions that queries, recovery and the write-ahead rule rest on are also
tied to definitions that do not use them: positions of rows, decimal writings, first differences
of strings, bytes of records. Every lemma switches automatic induction off, so proofs are explicit.

Assumptions that the code itself makes: page sizes below 65536, leaf capacity of at least 2
and internal capacity of at least 1, 32-bit keys, log sequence numbers that do not run out,
clients that write a frame only while they hold a pin and report it dirty when unpinning.
UTF-8 conversion, and the bytes of an index node, are parameters with their round-trip law.
Commands run one at a time, as under the engine's write lock.

## Where the code does not do what it seems to promise

Each of these is proved, with the condition under which the promise holds.

* `range_search` returns with one pin too many on the leaf that covers its lower bound
  (`BTree.BTreeIndex.RangeSearch`, `Pooled.PooledIndex.RangeSearch`). n scans are served when
  n + 2 frames are free of pins (`Pooled.PooledIndex.RangeScans`); no frame is left exactly when
  the pages pinned at entry and the leaves left pinned are as many as the frames
  (`Cache.LeakedPins`).
* ORDER BY on a column with NULLs depends on the chunk size: the sort is one stable sort
  exactly when the comparison is an order, that is, when all keys are of one type and not
  null, or no two of them differ (`StableSort.ConsistentIff`, `ExternalSort.PlannedIsSort`).
  Otherwise some input comes out differently for chunk sizes 3 and 1
  (`ExternalSort.InconsistentDependsOnChunks`). There `sort_by` leaves the order of a chunk
  unspecified; `Planned` and that lemma describe it as an insertion sort.
* The hash join matches NULL with NULL and the nested loop does not; they agree exactly when
  no NULL meets a NULL (`Joins.JoinsAgreeIff`).
* A WHERE condition on a missing column is skipped, and if it is the last one its whole
  AND-group is lost (`Predicate.WhereWithMissingColumns`). Pushing conditions down can make it
  the last one of the remaining filter, and then the query returns no row: the plan is right
  exactly when that does not happen or there is no row to return (`Plan.PushdownRightIff`; a
  query is spelled out in `Plan.GhostLosesRow`).
* The planner reads any column called `id` through the index, but the index is built on the
  first column. Over the rows a table can hold this is right exactly when `id` is first or
  BOOLEAN, or the first column is not INTEGER (`Plan.IndexSafeIff`); on a table (k INT, id INT)
  the row (7, 1) is lost to `id = 1` (`Plan.MisplacedIdMissesRow`).
* A tuple that does not fit on an empty page is indexed under a slot that does not exist
  (`Heap.InsertAgrees`, `Table.Table.Insert`).
* Replay repairs little where heap and index did not reach the disk together. If every index
  entry names an existing slot with no live row of another key, and the logged inserts fit, the
  log brings heap and index to agreement exactly when no live row lies beside the one its entry
  names and every key that disagrees is deleted by the log (`Torn.ReplayRestoresAgreementIff`).
  So with the index ahead an insert stays lost, with the heap ahead it is stored twice, and a
  delete leaves its row behind (`Torn.IndexAheadLosesRow`, `Torn.HeapAheadDuplicatesRow`,
  `Torn.HeapAheadKeepsRow`). An entry past the end of the heap comes to name the row of the next
  insert (`Torn.AppendAdopts`), and a delete through an entry that names another key's row takes
  that row with it (`Torn.HitKeyIff`, `Torn.AdoptedRowIsLost`).
* On a heap without pages, replaying a tuple that fits no page leaves two empty pages, where
  INSERT leaves one (`Torn.PlacedIsAppended`).
* Rebuilding a corrupted index repairs a key exactly when no two live rows have it
  (`Rebuild.RebuiltKeyIff`).
* After a torn tail the log goes on behind the torn bytes. What follows reads back exactly when
  the opened file leaves no byte unread: otherwise already the first record of the new log can
  be lost (`Wal.ReadsOnIff`; two files are spelled out in `Wal.TornFiles`).
* A tuple reads back exactly when the stored 16-bit pointer of every string leads to its bytes
  (`TupleCodec.RoundTripIff`). A string of 65536 bytes or more is stored with length 0, and one
  that starts beyond offset 65535 with a wrong offset: of three strings of 40000 bytes the
  third reads back as the first (`TupleCodec.ThreeStringsCollide`). A value of another type
  than its column is encoded unchecked, or stops the program, and never reads back
  (`TupleCodec.FromValues`).

## Model

| member | source | states |
|---|---|---|
| BTree.BTreeIndex.constructor | crates/wackdb_btree/src/tree.rs:44-54 | an index opened at a root page is the map its pages represent; without a root it is the empty map, whatever the file holds |
| BTree.BTreeIndex.Search | crates/wackdb_btree/src/tree.rs:375-391 | the answer is lookup in the map the tree represents; pin counts end as they began, with at most one more in between |
| BTree.BTreeIndex.FindLeafPage | crates/wackdb_btree/src/tree.rs:341-373 | ends on the one leaf whose interval covers the key, pinned once; no page only when there is no root |
| BTree.BTreeIndex.Insert | crates/wackdb_btree/src/tree.rs:60-70 | a fresh key adds exactly its pair through any cascade of splits; a present key is DuplicateKey with the map unchanged; pins restored, at most three more at once; all requests to the pool legal, every write reported |
| BTree.BTreeIndex.CreateRootAndInsert | crates/wackdb_btree/src/tree.rs:72-98 | an empty index becomes the tree of one pair |
| BTree.BTreeIndex.InsertIntoLeaf | crates/wackdb_btree/src/tree.rs:100-139 | on the covering leaf: duplicate rejected, otherwise the pair is added in place or by splitting; the caller's pin is released |
| BTree.BTreeIndex.SplitLeaf | crates/wackdb_btree/src/tree.rs:141-195 | splitting a full leaf around a fresh pair adds exactly that pair to the map and keeps the tree invariant |
| BTree.BTreeIndex.InsertIntoParent | crates/wackdb_btree/src/tree.rs:197-236 | paying the pending separator into the parent, a split parent or a new root completes the tree for the same map |
| BTree.BTreeIndex.SplitInternal | crates/wackdb_btree/src/tree.rs:238-303 | a full internal node that takes one more child splits and passes its middle key up; the recursion ends because the parent is nearer the root |
| BTree.BTreeIndex.CutInternal | crates/wackdb_btree/src/tree.rs:244-300 | both halves are written and every moved child gets the new parent; pins restored, at most three at once |
| BTree.BTreeIndex.CreateNewRoot | crates/wackdb_btree/src/tree.rs:305-329 | a root of two children completes the tree, one level higher, for the same map |
| BTree.BTreeIndex.UpdateParentId | crates/wackdb_btree/src/tree.rs:331-339 | only the parent pointer of one page changes |
| BTree.BTreeIndex.Delete | crates/wackdb_btree/src/tree.rs:572-607 | removes exactly the key; an absent key errs with nothing changed; the root page never changes; pins restored, at most three more at once; all requests to the pool legal, every write reported |
| BTree.BTreeIndex.MergeLeaf | crates/wackdb_btree/src/tree.rs:393-506 | merging left, merging right or declining keeps the map and the tree invariant |
| BTree.BTreeIndex.JoinSiblings | crates/wackdb_btree/src/tree.rs:430-500 | joining two neighbouring leaves and dropping their separator keeps the map and the invariant |
| BTree.BTreeIndex.RangeSearch | crates/wackdb_btree/src/tree.rs:524-570 | the values of exactly the keys in [a, b], ascending, for all a and b; one pin is left behind, on the leaf covering a, exactly when the tree has a root |
| PageTrace.AfterStep | crates/wackdb_btree/src/tree.rs:60-607 | in a legal trace every request is allowed in its turn: only index pages are fetched, writes happen under a pin, and the last pin on a written page reports it |
| PageTrace.AccountKeeps | crates/wackdb_btree/src/tree.rs:60-607 | an index that began without pins holds at most its peak at any time, on pages of its own file only |
| BTreeShape.LeafBelow | crates/wackdb_btree/src/tree.rs:341-373 | below every node there is a leaf covering each key of the node's interval |
| BTreeShape.LeafUnique | crates/wackdb_btree/src/tree.rs:341-391 | a key is covered by one leaf only |
| BTreeShape.HoldsUnique | crates/wackdb_btree/src/tree.rs:375-391 | the pages determine the map they represent |
| BTreeShape.PutInLeaf | crates/wackdb_btree/src/tree.rs:100-139 | putting a fresh pair into the covering leaf keeps the tree invariant and adds exactly that pair |
| BTreeShape.DropFromLeaf | crates/wackdb_btree/src/tree.rs:572-607 | dropping cell i of a leaf keeps the invariant and removes exactly its key, even when the leaf becomes empty |
| BTreeSplit.SplitSafe | crates/wackdb_btree/src/tree.rs:141-303 | a split never touches its own new page, its moved children or its parent twice |
| BTreeSplit.SplitKeepsInv | crates/wackdb_btree/src/tree.rs:141-329 | any split, of a leaf or an internal node, below a parent or at the root, keeps the invariant and the map |
| BTreeSplit.GrowInv | crates/wackdb_btree/src/tree.rs:305-329 | adding a level above the root keeps the invariant and the map |
| BTreeMerge.MergeKeepsInv | crates/wackdb_btree/src/tree.rs:393-506 | merging two sibling leaves keeps fences, separators, the leaf chain, the parent and the map |
| BTreePage.CapacitiesFitPage | crates/wackdb_btree/src/node.rs:59-71 | the cell arrays of the computed capacities fit the page, and one more cell would not |
| BTreePage.LeafWithPairView | crates/wackdb_btree/src/tree.rs:117-129 | shifting the tail right and writing the gap inserts one pair into the live cells |
| BTreePage.LeafWithoutPairView | crates/wackdb_btree/src/tree.rs:583-587 | shifting the tail left removes one pair from the live cells |
| BTreePage.LeafSplitViews | crates/wackdb_btree/src/tree.rs:151-184 | writing both halves of a split leaf in place gives the two halves of the node, chained |
| BTreePage.InternalSplitViews | crates/wackdb_btree/src/tree.rs:248-295 | the same for an internal node, whose middle key moves up |
| BTreeChain.EqualDepth | crates/wackdb_btree/src/tree.rs:141-329 | on every path from the root, a node is a leaf exactly at one fixed depth |
| BTreeChain.ChainAdjacent | crates/wackdb_btree/src/tree.rs:141-195 | the next pointers lead through adjacent intervals up to the end of the key space |
| BTreeChain.LeafChain | crates/wackdb_btree/src/tree.rs:524-570 | the chain from the first leaf visits every leaf in key order and ends at the invalid page |
| Sequences.BinarySearch | crates/wackdb_btree/src/tree.rs:111-120 | on sorted keys a search finds exactly the present keys, and otherwise the insertion point |
| Lru.LRUReplacer.RecordAccess | crates/wackdb_buffer/src/lru.rs:34-44 | the frame becomes the most recently used; the queue stays duplicate-free and ordered by last use |
| Lru.LRUReplacer.SetPin | crates/wackdb_buffer/src/lru.rs:46-51 | only the pin flag of one frame changes |
| Lru.LRUReplacer.Evict | crates/wackdb_buffer/src/lru.rs:53-64 | the victim is the unpinned queued frame used longest ago; none exactly when every queued frame is pinned |
| Cache.FlushKeeps | crates/wackdb_buffer/src/buffer_pool.rs:219-239 | flushing a frame changes no page's logical content and no pin |
| Cache.LoadKeeps | crates/wackdb_buffer/src/buffer_pool.rs:139-170 | remapping a clean unpinned frame keeps the logical content of every page and gives the new page its own content |
| Cache.RefillKeeps | crates/wackdb_buffer/src/buffer_pool.rs:126-173 | evicting, flushing and reloading a frame is invisible: only the pin of the fetched page changes |
| Cache.WriteKeeps | crates/wackdb_buffer/src/buffer_pool.rs:257-260 | a write through a pin changes the logical content of exactly that page |
| Cache.CleanCacheIsDisk | crates/wackdb_buffer/src/buffer_pool.rs:210-217 | with no dirty frame and no unreported write the disk is the logical content |
| Cache.FrameLeft | crates/wackdb_buffer/src/buffer_pool.rs:109-124 | fewer pinned pages than frames leaves a frame to reuse |
| Cache.ThreeFreeFramesSuffice | crates/wackdb_btree/src/tree.rs:60-391 | with three frames unpinned at entry, an operation holding at most two pins can always take a third |
| Cache.FramesExhaustedIff | crates/wackdb_buffer/src/buffer_pool.rs:109-124 | no frame is left exactly when as many pages are pinned as there are frames |
| Cache.LeakedPins | crates/wackdb_btree/src/tree.rs:524-570 | with pins that are never given back, no frame is left exactly when the pages pinned at entry and the pages of those pins are as many as the frames |
| Cache.StepKeeps | crates/wackdb_buffer/src/buffer_pool.rs:126-239 | a miss, hit, unpin, write or flush changes no content but the one written, and moves no pinned page |
| Cache.RunIsTransparent | crates/wackdb_buffer/src/buffer_pool.rs:126-239 | after any run of steps, whatever was evicted, every page shows the last content written to it |
| Pooled.PooledIndex.ServeFetch | crates/wackdb_buffer/src/buffer_pool.rs:126-173 | with three frames free at entry and at most two pins held, a fetch succeeds and its frame shows the page the index works on |
| Pooled.PooledIndex.ServeNew | crates/wackdb_buffer/src/buffer_pool.rs:270-276 | under the same condition a new page succeeds and is the one the index expects |
| Pooled.PooledIndex.ServeUnpin | crates/wackdb_buffer/src/buffer_pool.rs:175-195 | the index unpins only what it pinned and reports what it wrote, so no unpin fails |
| Pooled.PooledIndex.Serve | crates/wackdb_btree/src/tree.rs:60-607 | every request of an operation with at most three pins at once is served, in order |
| Pooled.PooledIndex.Insert | crates/wackdb_btree/src/tree.rs:60-329 | over a pool with three frames free of pins, any cascade of splits is served without NoFreeFrames; pins restored, every write reported, pool and index show the same pages, other files untouched |
| Pooled.PooledIndex.Search | crates/wackdb_btree/src/tree.rs:341-391 | the same for a lookup |
| Pooled.PooledIndex.Delete | crates/wackdb_btree/src/tree.rs:393-607 | the same for a deletion and its merge |
| Pooled.PooledIndex.RangeSearch | crates/wackdb_btree/src/tree.rs:524-570 | the same for a range scan, except that one page, the leaf covering a, ends with one pin more |
| Pooled.PooledIndex.RangeScans | crates/wackdb_btree/src/tree.rs:524-570 | n range scans in a row are all served when n + 2 frames are free of pins; every one answers its range and leaves one pin on the leaf covering its lower bound |
| BufferPool.BufferPoolManager.FindVictimFrame | crates/wackdb_buffer/src/buffer_pool.rs:109-124 | an empty frame, else the least recently used unpinned one; NoFreeFrames exactly when every frame is pinned |
| BufferPool.BufferPoolManager.FetchPage | crates/wackdb_buffer/src/buffer_pool.rs:126-173 | the frame returned holds the page's logical content, whatever was evicted; only its pin count changes; fails exactly on a miss with every frame pinned; pinned pages keep their frames |
| BufferPool.BufferPoolManager.UnpinPage | crates/wackdb_buffer/src/buffer_pool.rs:175-195 | one pin less and nothing else visible; PageNotFound exactly when the page is not resident |
| BufferPool.BufferPoolManager.FlushPage | crates/wackdb_buffer/src/buffer_pool.rs:197-208 | flushing one page changes no logical content |
| BufferPool.BufferPoolManager.FlushAllPages | crates/wackdb_buffer/src/buffer_pool.rs:210-217 | afterwards, with no unreported write, the disk equals the logical content of every page |
| BufferPool.BufferPoolManager.FlushFrame | crates/wackdb_buffer/src/buffer_pool.rs:219-239 | the log is flushed up to the LSN in the first eight bytes of the page before the page is written: afterwards every record in memory is newer than the LSN on every covered image, one written with an LSN the log had issued; the page is covered exactly when it carries such an LSN |
| BufferPool.BufferPoolManager.DiskIsCovered | crates/wackdb_buffer/src/buffer_pool.rs:219-239 | at all times, on the bytes of the disk: a covered image that starts with LSN n, or has n in its header, is there only while every record in memory is newer than n |
| BufferPool.PageLsnIff | crates/wackdb_page/src/page.rs:67-69 | the LSN read from a page is n exactly when the page starts with the eight bytes of n; the header says the same |
| BufferPool.BufferPoolManager.LogOnPage | crates/wackdb_cli/src/commands/dml.rs:250-273 | a change is logged and its page stamped: the page then starts with the eight bytes of that record's LSN, the rest of it and every other page stay, so by the rule above its image reaches the disk after the record |
| BufferPool.BufferPoolManager.NewPage | crates/wackdb_buffer/src/buffer_pool.rs:270-276 | the next page of the file, counted from the file length; resident with one pin more, and zero when the counts cover disk and pool; no page changes content; fails exactly when every frame is pinned |
| BufferPool.BufferPoolManager.DropRelation | crates/wackdb_buffer/src/buffer_pool.rs:278-294 | exactly the pages of the file leave the pool; all invariants survive the emptied frames that stay queued |
| BufferPool.BufferPoolManager.WritePage | crates/wackdb_buffer/src/buffer_pool.rs:257-260 | only the written page's content changes, no pin does, and the write is pending until an unpin reports it |
| BufferPool.BufferPoolManager.Checkpoint | crates/wackdb_cli/src/main.rs:420-428 | when the log is emptied the disk already holds every page's logical content |
| Database.Database.Checkpoint | crates/wackdb_cli/src/main.rs:420-428 | over a table whose heap and index pages lie in one pool: afterwards the disk holds both, the log is empty, and the log starts over from the current rows |
| Database.DiskDeterminesHeap | crates/wackdb_page/src/page.rs:122-146 | the heap pages on the disk determine the heap |
| Wal.DiskLogManager.Append | crates/wackdb_wal/src/lib.rs:116-124 | the record gets the next LSN and joins the end of the history |
| Wal.DiskLogManager.FlushUpTo | crates/wackdb_wal/src/lib.rs:66-114 | file and buffer together keep the history, in order and size; no record up to the LSN stays in memory |
| Wal.DiskLogManager.Checkpoint | crates/wackdb_wal/src/lib.rs:126-135 | empties the file and keeps what is still in memory |
| Wal.DiskLogManager.LogSize | crates/wackdb_wal/src/lib.rs:137-151 | the size of the whole history, flushed or not |
| Wal.DiskLogManager.ReadAllLogs | crates/wackdb_wal/src/lib.rs:36-62 | the loop over the file computes the list of complete leading records, on any bytes |
| Wal.FlushSplit | crates/wackdb_wal/src/lib.rs:66-114 | moving the records up to an LSN behind the file keeps bytes, order and total size |
| Wal.ReadTornFile | crates/wackdb_wal/src/lib.rs:36-62 | any byte prefix of a log reads back as exactly the payloads of its complete leading records |
| Wal.ParseThrough | crates/wackdb_wal/src/lib.rs:36-62 | a file followed by more bytes reads as the file's records, and then whatever its unread bytes and the rest give together |
| Wal.ReadsOnIff | crates/wackdb_wal/src/lib.rs:36-62 | whatever is logged behind an opened file reads back exactly when the file leaves no byte unread; otherwise already some first record is lost |
| Wal.TornFiles | crates/wackdb_wal/src/lib.rs:36-62 | two torn files: one swallows the next record, the other misreads it |
| Wal.TornTailSwallows | crates/wackdb_wal/src/lib.rs:96-102 | records written behind a torn one are unreadable while they fit in the payload it announced |
| Values.ValueLessTotal | crates/wackdb_query/src/executor/sort.rs:68-86 | within one type, different values are ordered one way or the other |
| Values.ValueLessCotransitive | crates/wackdb_query/src/executor/sort.rs:68-86 | within one type the comparison is a weak order |
| Values.StringLessIff | crates/wackdb_query/src/executor/sort.rs:68-86 | a string is less than another exactly when it is a proper prefix of it or has the smaller character where they first differ |
| Values.ValueLessIff | crates/wackdb_query/src/executor/sort.rs:68-86 | the comparison is the order of the values: integers by size, false before true, strings by their first difference |
| StableSort.ConsistentIff | crates/wackdb_query/src/executor/sort.rs:68-86 | the comparator is an order on a list exactly when all its keys are of one type and not null, or none differ |
| StableSort.TiedIsEqualKey | crates/wackdb_query/src/executor/sort.rs:68-86 | when the comparison is an order through keys of one type, ties are exactly equal keys |
| StableSort.SortedIsAscending | crates/wackdb_query/src/executor/sort.rs:68-86 | a list is sorted by the comparison exactly when its keys ascend by value |
| StableSort.SortIsStable | crates/wackdb_query/src/executor/sort.rs:68-86 | the sort is sorted, a permutation, and keeps the order of ties |
| StableSort.SortUnique | crates/wackdb_query/src/executor/sort.rs:68-86 | there is only one stable sort of a list |
| RunMerge.MergePermutes | crates/wackdb_query/src/executor/sort.rs:119-165 | merging hands out every tuple of every run once |
| RunMerge.MergeSorts | crates/wackdb_query/src/executor/sort.rs:119-165 | merging sorted runs by least head gives a sorted list |
| RunMerge.MergeKeepsTies | crates/wackdb_query/src/executor/sort.rs:119-165 | ties leave the merge in the order of the runs, because the lowest run index wins |
| RunMerge.ChunkedSort | crates/wackdb_query/src/executor/sort.rs:32-165 | however the input is cut into chunks, sorting each and merging is the stable sort of the whole |
| ExternalSort.ReadTuple | crates/wackdb_query/src/executor/sort.rs:102-116 | at any position where an encoded run starts, reads its first tuple and stops at the next |
| ExternalSort.ExternalMergeSort.Init | crates/wackdb_query/src/executor/sort.rs:32-66 | after the spill loop, what is still to be emitted is the merge of the sorted chunks of the whole input, for every chunk size |
| ExternalSort.ExternalMergeSort.FillRuns | crates/wackdb_query/src/executor/sort.rs:32-66 | runs and buffer together are the input, cut in order into chunks of the chunk size with a shorter rest |
| ExternalSort.ExternalMergeSort.FindBest | crates/wackdb_query/src/executor/sort.rs:131-155 | the scan picks the first run whose head is least |
| ExternalSort.ExternalMergeSort.Next | crates/wackdb_query/src/executor/sort.rs:119-165 | hands out the next tuple of the planned output; nothing is left when it returns none |
| ExternalSort.ExternalMergeSort.Drain | crates/wackdb_query/src/executor/sort.rs:119-165 | pulling to the end gives the one stable sort of the input, for every chunk size, whenever the comparison is an order; its keys ascend: integers by size, false before true, strings by first difference |
| ExternalSort.PlannedIsSort | crates/wackdb_query/src/executor/sort.rs:32-165 | any chunking gives the stable sort when the comparison is an order |
| ExternalSort.PlannedUnique | crates/wackdb_query/src/executor/sort.rs:32-66 | the chunk size and the input determine the output |
| ExternalSort.InconsistentDependsOnChunks | crates/wackdb_query/src/executor/sort.rs:32-86 | whenever the comparison is no order, some input comes out differently for chunk sizes 3 and 1, reading sort_by as an insertion sort |
| Predicate.EvaluateWhereClause | crates/wackdb_query/src/executor/predicate.rs:9-47 | the loop holds exactly when the row meets every condition of some AND-group: of the whole clause when every column is present, of the conditions that count otherwise |
| Predicate.EvaluateIff | crates/wackdb_query/src/executor/predicate.rs:49-83 | what one condition decides: an integer is compared with the 32-bit value the text writes, a boolean equals or differs from `true` or `false` and meets no other operator, a string compares by first difference, NULL meets nothing |
| Predicate.IntegerCondition | crates/wackdb_query/src/executor/predicate.rs:49-62 | with r written in decimal, the six operators decide v == r, v != r, v > r, v >= r, v < r and v <= r |
| Predicate.MatchesIff | crates/wackdb_query/src/executor/predicate.rs:22-34 | a row meets a condition exactly when the first column of that name holds a value that satisfies it |
| Predicate.SomeGroupIff | crates/wackdb_query/src/executor/predicate.rs:18-46 | the groups the loop forms are the runs of conditions between two ORs, or an OR and an end of the list |
| Literals.ParseWritten | crates/wackdb_query/src/executor/predicate.rs:50 | every 32-bit integer, written in decimal by division, reads back as itself |
| Literals.ParseI32Iff | crates/wackdb_query/src/executor/predicate.rs:50 | a text reads as v exactly when v has 32 bits and the text is a sign, leading zeros and the decimal writing of v |
| Literals.NoIntegerIff | crates/wackdb_query/src/executor/predicate.rs:50-52 | a text reads as no integer exactly when no digits follow its sign, something else does, or the value overflows |
| Predicate.FoldIsGroups | crates/wackdb_query/src/executor/predicate.rs:9-47 | the running result and open group amount to the OR of AND-groups |
| Predicate.WhereWithMissingColumns | crates/wackdb_query/src/executor/predicate.rs:21-44 | what the loop decides in general: missing columns are skipped, and a missing last one drops its group |
| Joins.NestedLoopJoin.Next | crates/wackdb_query/src/executor/join.rs:43-78 | hands out the next row of the left-by-right join, in order; none exactly at the end |
| Joins.NestedLoopJoin.Drain | crates/wackdb_query/src/executor/join.rs:43-78 | all rows of the join in order |
| Joins.HashJoin.BuildHashTable | crates/wackdb_query/src/executor/hash_join.rs:38-58 | the table holds, for every key that occurs, its right rows in order; an unknown column is an error |
| Joins.HashJoin.Next | crates/wackdb_query/src/executor/hash_join.rs:62-106 | hands out the next row of the join under hash equality; the errors for unknown columns |
| Joins.HashJoin.Drain | crates/wackdb_query/src/executor/hash_join.rs:62-106 | all rows of the join in order, or the error |
| Joins.BucketIsMatches | crates/wackdb_query/src/executor/hash_join.rs:85-104 | one bucket is the scan of the right side for that key, in order |
| Joins.JoinsAgreeIff | crates/wackdb_cli/src/commands/query.rs:210-253 | hash and nested-loop join give the same sequence exactly when no NULL meets a NULL; otherwise the hash join gives more rows |
| Joins.JoinHolds | crates/wackdb_query/src/executor/join.rs:43-78 | a join holds exactly the combinations of matching rows |
| Joins.JoinIff | crates/wackdb_query/src/executor/hash_join.rs:38-106 | a list is the join of two tables exactly when it is left row + right row for the pairs of positions whose keys are equal (two NULLs only for the hash join), each pair once, in lexicographic order |
| Pipeline.RunFilter | crates/wackdb_query/src/executor/select.rs:22-29 | the filter loop keeps exactly the rows that meet some group of the clause, each position once, in order |
| Pipeline.SelectIff | crates/wackdb_query/src/executor/select.rs:22-29 | the positions of the accepted rows, ascending, determine what a filter returns |
| Pipeline.RunJoin | crates/wackdb_cli/src/commands/query.rs:205-253 | one join on its two tables: with both columns, left row + right row for the pairs of equal keys, each once, left rows first; without one, the hash join's error or no row |
| Pipeline.RunJoins | crates/wackdb_cli/src/commands/query.rs:180-257 | running the executors the planner picks, pulled from the last: it succeeds with exactly the rows that the tables determine stage by stage, and otherwise reports the column that this order reaches first |
| Pipeline.StageIff | crates/wackdb_query/src/executor/hash_join.rs:38-106 | one join succeeds with exactly the rows that its two tables determine, and fails exactly when a hash join lacks its right column, or its left column and there is a left row |
| Pipeline.JoinedIff | crates/wackdb_cli/src/commands/query.rs:180-257 | joining table after table succeeds with exactly the rows that the tables determine through the whole list of joins |
| Pipeline.PullIsJoinAll | crates/wackdb_query/src/executor/hash_join.rs:38-106 | pulling from the last join succeeds exactly when joining one after the other does, with the same rows |
| Plan.SplitWhere | crates/wackdb_cli/src/commands/query.rs:39-62 | the loop splits the clause into pushed and remaining conditions, or pushes nothing when OR crosses tables |
| Plan.SplitAccepts | crates/wackdb_cli/src/commands/query.rs:39-62 | for any clause, missing columns included: a row passes both halves of the split exactly when it passes the whole clause and the remaining half does not end in a missing column where the clause did not |
| Plan.SelectJoinAll | crates/wackdb_cli/src/commands/query.rs:64-73 | filtering on base columns before the joins is filtering after them |
| Plan.PushdownKeepsRows | crates/wackdb_cli/src/commands/query.rs:39-73 | for any clause the pushed plan returns the rows of the naive plan, order included, or no row where the split loses them |
| Plan.PushdownRightIff | crates/wackdb_cli/src/commands/query.rs:39-73 | the pushed plan is right exactly when the split does not lose the rows, or there is none |
| Plan.GhostLosesRow | crates/wackdb_cli/src/commands/query.rs:39-73 | `ghost = 2 AND id = 1` finds a row when evaluated whole and none when planned |
| Plan.BoundsExact | crates/wackdb_cli/src/commands/query.rs:130-152 | the key range holds exactly the accepted keys and, at a saturated bound, the extreme key |
| Plan.BoundsIff | crates/wackdb_cli/src/commands/query.rs:130-152 | a key range is read exactly for one condition on `id`, other than `!=`, whose text writes a 32-bit integer |
| Plan.IndexSafeIff | crates/wackdb_cli/src/commands/query.rs:131-152 | over all rows a table can hold and all conditions, reading `id` through the index is right exactly when `id` is first or BOOLEAN, or the first column is not INTEGER |
| Plan.MisplacedIdMissesRow | crates/wackdb_cli/src/commands/query.rs:131-152 | on the table (k INT, id INT) with the row (7, 1), `id = 1` finds the row in the heap and none through the index |
| Plan.PlanEquivalence | crates/wackdb_cli/src/commands/query.rs:39-73 | for any clause, scan choice and joins, the plan's rows are the multiset of joining everything and filtering last, or none where the split loses them; where a key range is read, for the schemas of `IndexSafeIff` |
| Plan.AnswerIff | crates/wackdb_cli/src/commands/query.rs:39-73 | joining everything and filtering last returns exactly the answer on the tables: the joined rows, by position, that meet some group of the clause, in order |
| Plan.PlanIff | crates/wackdb_cli/src/commands/query.rs:39-73 | the plan returns exactly the rows that pushed filter, joins and remaining filter determine on the tables |
| Plan.JoinChoiceIrrelevant | crates/wackdb_cli/src/commands/query.rs:210-253 | with non-null right keys the record counts change neither rows nor order |
| Query.ScanTable | crates/wackdb_cli/src/commands/query.rs:110-178 | the chosen scan returns the row of every readable record in heap order, or the rows of the key range |
| Query.ExecuteQuery | crates/wackdb_cli/src/commands/query.rs:17-87 | end to end over any stored table: for the answer on the tables, the same multiset, and the same sequence when the heap is scanned, or no row where the split loses them, unless a key range is read that the schema does not allow; and it is always what the plan determines on the tables |
| Ordered.ExecuteOrdered | crates/wackdb_cli/src/commands/query.rs:17-108 | SELECT with ORDER BY, end to end: an unknown column is an error; rows that survive as tuples come out as the one stable sort of the plan's rows for every chunk size, whenever the column holds no NULL or no two of its values differ, with the column ascending by value; and so, where the plan is right, the rows of the answer on the tables, sorted |
| Ordered.OrderRows | crates/wackdb_cli/src/commands/query.rs:89-108 | writing rows as tuples, sorting those externally and reading them back permutes the rows; when the column orders them it is their stable sort, and the column ascends: integers by size, false before true, strings by first difference |
| Ordered.NoneLessIsAscending | crates/wackdb_query/src/executor/sort.rs:68-86 | no row is less than one before it exactly when the values of the column ascend |
| Ordered.SortsRows | crates/wackdb_query/src/executor/sort.rs:68-86 | a stable sort of tuples is a stable sort of the rows they hold |
| Ordered.PlanTyped | crates/wackdb_cli/src/commands/query.rs:39-73 | every row of a plan has one value per column of the joined schema, of its type |
| Scans.SeqScan.Next | crates/wackdb_query/src/executor/seq_scan.rs:40-80 | the next live tuple in page and slot order, on any heap; none only past the last page |
| Scans.SeqScan.Drain | crates/wackdb_query/src/executor/seq_scan.rs:40-80 | all live tuples in heap order, whether they decode or not |
| Scans.ScanDecodes | crates/wackdb_query/src/executor/seq_scan.rs:40-80 | the emitted tuples, decoded, are the rows of the table |
| Scans.IndexScan.Next | crates/wackdb_query/src/executor/index_scan.rs:41-60 | the tuple the next identifier names, or an error when it names no live record |
| Scans.IndexScan.Drain | crates/wackdb_query/src/executor/index_scan.rs:41-60 | all named tuples in order, exactly when every identifier names a live record |
| Scans.IndexScanIsRestrict | crates/wackdb_query/src/executor/index_scan.rs:19-60 | over an agreeing table the index scan returns, by ascending key, the rows of the filtered sequential scan |
| SlottedPage.SlottedPage.constructor | crates/wackdb_page/src/page.rs:40-46 | a new page holds the empty list |
| SlottedPage.SlottedPage.Init | crates/wackdb_page/src/page.rs:49-63 | whatever the bytes were, the page then holds the empty list |
| SlottedPage.SlottedPage.SetLsn | crates/wackdb_page/src/page.rs:73-81 | the first eight bytes become the LSN, every other byte and every record stays |
| SlottedPage.LsnIff | crates/wackdb_page/src/page.rs:67-69 | the header's LSN is n exactly when the page starts with the eight bytes of n |
| SlottedPage.SlottedPage.InsertRecord | crates/wackdb_page/src/page.rs:149-201 | appends the record, or returns none with every byte unchanged exactly when free space is short |
| SlottedPage.SlottedPage.Get | crates/wackdb_page/src/page.rs:122-146 | the record of the list, or none past its end |
| SlottedPage.SlottedPage.MarkDeleted | crates/wackdb_page/src/page.rs:204-225 | changes only the xmax of that record; false exactly for slots that do not exist |
| SlottedPage.SlotsTile | crates/wackdb_page/src/page.rs:163-196 | records tile the space above `upper` without gap or overlap |
| SlottedPage.InsertHolds | crates/wackdb_page/src/page.rs:149-201 | the four writes of an insert append to the list and leave every other record byte-identical |
| SlottedPage.MarkHolds | crates/wackdb_page/src/page.rs:204-225 | rewriting one tuple header changes one xmax of the list |
| SlottedPage.GetReadsList | crates/wackdb_query/src/lib.rs:30-63 | the readers' function is get_record restricted to xmax = 0 |
| SlottedPage.HoldsUnique | crates/wackdb_page/src/page.rs:122-146 | the bytes determine the list |
| TupleCodec.FromValues | crates/wackdb_tuple/src/tuple.rs:45-137 | typed values get the documented layout; the count and null errors, the first offending column first; mistyped values stop the program exactly when a string pointer lies outside the fixed section, and never read back |
| TupleCodec.Collect | crates/wackdb_tuple/src/tuple.rs:53-101 | the first pass over any 32-bit values: null bits, slots with relative offsets, strings |
| TupleCodec.PatchedIsSlots | crates/wackdb_tuple/src/tuple.rs:106-129 | over typed values the second pass makes exactly the string offsets absolute |
| TupleCodec.PatchFailsIff | crates/wackdb_tuple/src/tuple.rs:106-129 | over any values the second pass fails exactly when a non-null string column's pointer would end past the fixed section |
| TupleCodec.ToValues | crates/wackdb_tuple/src/tuple.rs:143-248 | on any bytes, the values column by column or the error |
| TupleCodec.DecodeIsTyped | crates/wackdb_tuple/src/tuple.rs:143-248 | on any bytes a decoded tuple has one value per column, NULL or of its type |
| TupleCodec.NullBitsAt | crates/wackdb_tuple/src/tuple.rs:64-72 | bit i of the bitmap is set exactly for NULLs |
| TupleCodec.RoundTripIff | crates/wackdb_tuple/src/tuple.rs:45-248 | for all typed values, decoding returns the encoded values exactly when every stored string pointer leads to the bytes of its string |
| TupleCodec.FittingRoundTripIff | crates/wackdb_tuple/src/tuple.rs:45-248 | with offsets that fit, exactly when every string length fits 16 bits |
| TupleCodec.ThreeStringsCollide | crates/wackdb_tuple/src/tuple.rs:85-115 | three strings of 40000 bytes each: the third column reads back as the first |
| TupleCodec.SmallTuplesRoundTrip | crates/wackdb_tuple/src/tuple.rs:45-248 | every typed tuple of at most 65535 bytes survives |
| Heap.InsertAgrees | crates/wackdb_cli/src/commands/dml.rs:291-332 | an inserted fresh key keeps heap and index in bijection exactly when the tuple fits on a page |
| Heap.InsertScan | crates/wackdb_cli/src/commands/dml.rs:291-332 | a tuple that fits is appended to the scan order, on the last page or a new one |
| Heap.MarkAgrees | crates/wackdb_cli/src/commands/dml.rs:200-248 | marking one live row and deleting its key keeps the bijection and removes exactly that row |
| Heap.AgreesUnique | crates/wackdb_cli/src/commands/dml.rs:41-92 | the heap determines the index that agrees with it |
| Heap.MarkingSweeps | crates/wackdb_cli/src/commands/dml.rs:136-221 | collecting the slots first and marking them afterwards marks exactly the matching records |
| Heap.SweptScan | crates/wackdb_cli/src/commands/dml.rs:94-134 | DELETE WHERE leaves exactly the rows that fail the clause, in their old scan order |
| Heap.SelectedOrSurvives | crates/wackdb_cli/src/commands/dml.rs:172-198 | every row is either selected by a clause or survives its DELETE |
| Heap.SurvivorsIff | crates/wackdb_cli/src/commands/dml.rs:172-198 | the survivors are, by position, exactly the rows that the clause does not accept |
| Heap.ScanIff | crates/wackdb_query/src/executor/seq_scan.rs:40-80 | a scan is the row of every live record that decodes, each position once, page by page and slot by slot |
| Table.Table.WriteTuple | crates/wackdb_cli/src/commands/dml.rs:291-332 | the last page, or a new one, and the identifier of the record there |
| Table.Table.Insert | crates/wackdb_cli/src/commands/dml.rs:41-92 | rejected, non-integer and duplicate keys change nothing; otherwise one row, one log record, one index entry, and the table stays valid exactly when the tuple fits |
| Table.Table.Delete | crates/wackdb_cli/src/commands/dml.rs:94-134 | across pages and slots, exactly the rows that meet the clause leave heap and index, each logged in order; the others keep their scan order; the index root stays |
| Table.Table.DeletePage | crates/wackdb_cli/src/commands/dml.rs:136-170 | the same for one page |
| Table.Table.DeleteSlot | crates/wackdb_cli/src/commands/dml.rs:200-273 | one row leaves heap and index and is logged, and the log still leads to the rows |
| Table.Table.FindSlots | crates/wackdb_cli/src/commands/dml.rs:172-198 | exactly the live, readable, matching slots, ascending |
| Table.Table.Acknowledge | crates/wackdb_cli/src/commands/dml.rs:32-36 | before success is reported the log file reads back as every change since the checkpoint |
| Table.Table.Checkpoint | crates/wackdb_cli/src/main.rs:420-428 | the log part of the checkpoint: it starts over from the current rows |
| Table.Table.ReplayRecord | crates/wackdb_cli/src/main.rs:238-384 | on any stored state, agreeing or not, one record has the effect its bytes spell out on heap, index and rows, the first page of an empty heap included; a record of another table, of another code or without a readable key changes nothing; where heap and index agree it does to the rows what it does to the map |
| Table.Table.ReplayLog | crates/wackdb_cli/src/main.rs:238-384 | on any stored state the loop is the fold of the records, and of those alone that carry this table's name; where heap and index agree it keeps them in bijection and refines the fold over the map |
| Table.Table.Recover | crates/wackdb_cli/src/main.rs:202-384 | from any mixture of passed row states and any cut of the log file, recovery ends in the state after the readable records, which is the state after those of them that carry this table's name; the table is valid again exactly when the file leaves no byte unread |
| Torn.IndexAheadLosesRow | crates/wackdb_cli/src/main.rs:268-273 | with the index entry on disk and the row not, replaying the insert leaves the row lost |
| Torn.HeapAheadDuplicatesRow | crates/wackdb_cli/src/main.rs:268-337 | with the row on disk and the index entry not, replaying the insert stores it twice |
| Torn.HeapAheadKeepsRow | crates/wackdb_cli/src/main.rs:347-377 | replaying a delete leaves every live row of its key that the entry does not name |
| Torn.AgreesIffKeys | crates/wackdb_cli/src/main.rs:238-384 | heap and index agree exactly when they agree on every key and every live row has one |
| Torn.StepKeepsAgreement | crates/wackdb_cli/src/main.rs:238-384 | where heap and index agree, one record does to the rows what it does to the map |
| Torn.OwnRecordsStored | crates/wackdb_cli/src/main.rs:238-384 | the same for heap and index, whether or not they agree |
| Torn.StepReplaysBytes | crates/wackdb_cli/src/main.rs:238-384 | one record, read off its bytes: what code 0 and code 1 with this table's name do to heap, index and rows, and nothing for anything else |
| Torn.InsertKeyIff | crates/wackdb_cli/src/main.rs:267-346 | after replaying an insert its key agrees exactly when it agreed before, and the tuple fits if it was added |
| Torn.RemoveKeyIff | crates/wackdb_cli/src/main.rs:347-377 | after replaying a delete its key agrees exactly when every live row with that key was the one its entry named |
| Torn.OtherKeyIff | crates/wackdb_cli/src/main.rs:238-384 | a record of another key changes nothing about a key, unless it deletes through a stale entry that names that key's row |
| Torn.HitKeyIff | crates/wackdb_cli/src/main.rs:347-377 | after a delete through a stale entry that names another key's row, that key agrees exactly when the row was its only stray |
| Torn.HitBreaks | crates/wackdb_cli/src/main.rs:347-377 | such a delete breaks a key that agreed |
| Torn.ReplayRepairsIff | crates/wackdb_cli/src/main.rs:238-384 | for a key that no delete of the run hits and whose inserts fit: after the log it agrees exactly when it has no stray row and agreed at the start or is deleted by the log |
| Torn.ReplayRestoresAgreementIff | crates/wackdb_cli/src/main.rs:238-384 | from entries that name existing slots without a live row of another key, readable rows and inserts that fit: replay brings heap and index into agreement exactly when no row is a stray and every key that disagrees is deleted by the log |
| Torn.SettledSpares | crates/wackdb_cli/src/main.rs:238-384 | from such entries, no delete of the log hits another key's row, and the entries stay so |
| Torn.AppendAdopts | crates/wackdb_cli/src/main.rs:267-346 | a stale entry that names the next free slot comes to name the row of the next insert |
| Torn.AdoptedRowIsLost | crates/wackdb_cli/src/main.rs:267-377 | if the log then deletes the stale key, the inserted row is gone and its entry leads nowhere |
| Torn.PlacedIsAppended | crates/wackdb_cli/src/main.rs:267-332 | replay places a tuple as INSERT does, except that one that fits no page leaves a heap without pages with two empty pages, indexed on the second |
| Replay.ParseRoundTrip | crates/wackdb_cli/src/commands/dml.rs:348-366 | the replay loop reads back what INSERT and DELETE wrote |
| Replay.ParseIff | crates/wackdb_cli/src/main.rs:241-247 | on any bytes: the loop reads (code, name, tuple) exactly from the record written from them |
| Replay.OpOfIff | crates/wackdb_cli/src/main.rs:249-347 | a record asks a table to insert exactly when it is code 0, this table's name and a tuple with that key, and to delete exactly when it is code 1 with the same |
| Replay.OtherRecordsAskNothing | crates/wackdb_cli/src/main.rs:241-267 | a record with another table's name, another code or no readable integer key asks nothing |
| Replay.StrangersAskNothing | crates/wackdb_cli/src/main.rs:241-249 | nor do bytes that are no record of this table |
| Replay.OwnRecordsDecide | crates/wackdb_cli/src/main.rs:238-384 | replaying a log is replaying the records in it that carry this table's name, and the log is successful exactly when those are |
| Replay.ReplayConverges | crates/wackdb_cli/src/main.rs:238-384 | from any state in which each key holds a row state it passed through, replay reaches the final rows |
| Replay.HistoryStatesAreMixtures | crates/wackdb_cli/src/main.rs:238-384 | every state the table passed through may be on disk at the crash |
| Replay.ReplayTwice | crates/wackdb_cli/src/main.rs:238-384 | replaying twice is replaying once |
| Replay.ReplayConvergesIff | crates/wackdb_cli/src/main.rs:238-384 | replay reaches the final rows exactly when each key is in a state it passed through or is deleted by the log |
| Replay.StrangeRowSurvives | crates/wackdb_cli/src/main.rs:268-273 | a row the key never had survives the replay of its insert |
| Formats.LogRecordBytes | crates/wackdb_wal/src/lib.rs:66-114 | a record in the log file: eight bytes of LSN, four of length, the payload |
| Formats.PayloadBytes | crates/wackdb_cli/src/commands/dml.rs:348-364 | a payload: the code, two bytes of name length, the name, the tuple |
| Formats.PageHeaderBytes | crates/wackdb_page/src/header.rs:6-17 | a page: LSN, number of slots, end of the slots and start of the records, at bytes 0, 8, 10 and 12 |
| Formats.RecordBytes | crates/wackdb_page/src/page.rs:149-201 | slot k holds offset and length of record k; there stand its xmin, its xmax and its payload |
| Formats.RoomOnBytes | crates/wackdb_page/src/page.rs:149-165 | a tuple has room exactly when it, its header and a slot fit between slots and records |
| Formats.LiveOnBytes | crates/wackdb_query/src/lib.rs:30-63 | a record is live exactly when the eight bytes of its xmax are zero |
| Formats.ColumnBytes | crates/wackdb_tuple/src/tuple.rs:45-137 | an encoded tuple: a bit per NULL, the four bytes of an integer, the byte of a boolean, offset and length of a string where they fit 16 bits, and the string there |
| Formats.DecodeIff | crates/wackdb_tuple/src/tuple.rs:143-248 | on any bytes, a tuple decodes to a row exactly when every column reads as its value: NULL bit, signed 32-bit integer, non-zero byte, valid UTF-8 within bounds |
| Rebuild.RebuildIndex | crates/wackdb_cli/src/main.rs:153-199 | over any heap the rebuilt index holds exactly the keys of live rows, each leading to the first row with it; an index that agreed before comes out the same |
| Rebuild.IndexOfUnique | crates/wackdb_cli/src/main.rs:153-199 | the heap determines the rebuilt index |
| Rebuild.RebuiltKeyIff | crates/wackdb_cli/src/main.rs:153-199 | after the rebuild heap and index agree on a key exactly when no two live rows have it |
| Rebuild.RebuiltAgreesIff | crates/wackdb_cli/src/main.rs:153-199 | they agree altogether exactly when every live row has a readable key of its own |

## Left out

- File I/O, fsync and allocation failures: files and disks are byte sequences and maps that do not fail. In particular `fetch_page` after a failed read leaves the page mapped over stale bytes; that branch is not modelled.
- Pooled.PooledIndex.Serve: serves an operation's requests in their order once the operation has made them. Each fetched frame is proved to show the page the operation used, so nothing is lost by not interleaving them. The byte layout of a node is a parameter.
- Tables over the pool: INSERT, DELETE and replay work on the heap as a list of pages and on the index by its requests, and do not serve them from the pool; `Database` relates both to the pool's pages at a checkpoint.
- Table.Table.Checkpoint: the log part only; with the page flush before it, it is `Database.Database.Checkpoint`.
- Table.Table.ReplayRecord: a last heap page that reached the disk as zeros counts as an empty page with room, while the code finds no space on it and takes a new page.
- SlottedPage.SlottedPage.InsertRecord: for records of 65516 bytes or more the code compares a truncated size, and can stop at a slice outside the page.
- ExternalSort.InconsistentDependsOnChunks: reads `sort_by` as an insertion sort where its result is unspecified.
- Heap pages inside a table are lists of records: `SlottedPage` proves that the bytes refine such a list, and `Heap` works on the lists.
- What a failed request leaves behind: with fewer than three free frames at entry, or after a disk error, a split can stop half done.
- Pages whose type byte is corrupt (InvalidNode); `Rebuild.RebuildIndex` covers the rebuild that follows.
- A buffer pool without a log manager: flushing then only writes the page.
- Wrap-around of 64-bit LSNs and 32-bit page numbers, log payloads over 4 GiB, table names over 65535 bytes, and records whose length plus 20 exceeds 65535, where the casts truncate. The 16-bit offset sum of the tuple encoder wraps, as in a release build; a debug build stops there.
- Re-encoding of combined rows after a join, which can fail for rows over 65535 bytes; rows are lists of values here.
- Parsing of literals in INSERT (`parse_values`): values enter already parsed; integers and booleans in WHERE are parsed as in the code.
- Several tables in one log: replay is stated per table, over the records that carry its name (`Replay.OwnRecordsDecide`, `Torn.OwnRecordsStored`). A name that is no UTF-8 is repaired before the code looks it up; here it names no table.
- Rows flushed to disk before their log record, which the code allows because inserts do not stamp the page LSN; recovery is stated for states that the readable log passed through.
- Projection (ORDER BY is stated for all columns of the joined schema), table printing, the catalog, the web server, the terminal UI, and the SQL parser.
- Fine-grained lock interleavings: a command is one step.
- `remove` and `size` of the replacer, which the pool does not use.
