/**
 A table whose heap and index pages lie in one buffer pool, over one log: the checkpoint of the
 engine as one operation.
 */
module Database {
  import opened Storage
  import opened SlottedPage
  import opened Heap
  import opened Cache
  import opened BTree
  import opened Wal
  import opened Pooled
  import opened Table

  /** Clients of the cache see the heap pages: the bytes of each hold exactly its records. */
  ghost predicate HeapShown(t: TableDef, c: Cache, pages: Pages) {
    forall p: nat {:trigger pages[p]} :: p < |pages| ==> Holds(Logical(c, PageId(t.fileId, p)), pages[p])
  }

  /** The disk holds the heap pages. */
  ghost predicate HeapOnDisk(t: TableDef, disk: Disk, pageSize: nat, pages: Pages) {
    forall p: nat {:trigger pages[p]} :: p < |pages| ==> Holds(ReadDisk(disk, PageId(t.fileId, p), pageSize), pages[p])
  }

  /** The disk holds the pages of the index. */
  ghost predicate IndexOnDisk(codec: NodeCodec, disk: Disk, pageSize: nat, index: BTreeIndex)
    reads index
  {
    forall p {:trigger index.pages[p]} :: p in index.pages ==>
      codec.decode(ReadDisk(disk, p, pageSize)) == index.pages[p]
  }

  /** The heap pages on the disk determine the heap. */
  lemma {:induction false} DiskDeterminesHeap(t: TableDef, disk: Disk, pageSize: nat, a: Pages, b: Pages)
    requires HeapOnDisk(t, disk, pageSize, a) && HeapOnDisk(t, disk, pageSize, b) && |a| == |b|
    ensures a == b
  {
    hide Holds;
    forall p: nat | p < |a| ensures a[p] == b[p] {
      HoldsUnique(ReadDisk(disk, PageId(t.fileId, p), pageSize), a[p], b[p]);
    }
  }

  class Database {
    const table: Table
    const pooled: PooledIndex

    ghost predicate Valid()
      reads this, table, table.index, table.log, pooled.index, pooled.pool, pooled.pool.lru, pooled.pool.log
    {
      && table.Valid() && pooled.Valid()
      && pooled.index == table.index && pooled.pool.log == table.log
      && HeapShown(table.t, pooled.pool.Now(), table.pages)
    }

    constructor (table: Table, pooled: PooledIndex)
      requires table.Valid() && pooled.Valid() && pooled.index == table.index && pooled.pool.log == table.log
      requires HeapShown(table.t, pooled.pool.Now(), table.pages)
      ensures Valid() && this.table == table && this.pooled == pooled
    {
      this.table, this.pooled := table, pooled;
    }

    /**
     The checkpoint: every page is written back, then the log is emptied. The disk then holds the
     table's heap and index, and the empty log starts from its rows, so nothing logged is lost.
     */
    method Checkpoint()
      requires Valid()
      modifies table`logged, table`start, table.log, pooled.pool`disk, pooled.pool`descs, pooled.pool`durable,
               pooled.pool`stamped
      ensures Valid() && table.log.file == [] && table.logged == [] && table.start == table.rows == old(table.rows)
      ensures HeapOnDisk(table.t, pooled.pool.disk, pooled.pool.pageSize, table.pages)
      ensures IndexOnDisk(pooled.codec, pooled.pool.disk, pooled.pool.pageSize, table.index)
      ensures SameContent(old(pooled.pool.Now()), pooled.pool.Now())
      ensures SamePins(old(pooled.pool.Now()), pooled.pool.Now())
    {
      hide Holds, Inv, BTreeIndex.Valid, DiskLogManager.Valid;
      pooled.pool.FlushAllPages();
      table.Checkpoint();
    }
  }
}
