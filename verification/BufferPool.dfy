/**
 The buffer pool: fetch, unpin, flush and replacement over the page cache, the replacer and
 the log. Every disk write goes through `DiskWrite`, whose precondition is the write-ahead
 rule; every operation states the logical content of every page and every pin count.
 */
module BufferPool {
  import opened Storage
  import opened Sequences
  import opened Bytes
  import opened Wal
  import opened Lru
  import opened Cache
  import SlottedPage

  datatype BufferError = NoFreeFrames | PageNotFound

  /** The LSN field at the start of every page. */
  function PageLsn(page: Buffer): nat {
    if |page| < 8 then 0 else FromLE(page[..8])
  }

  /** The page starts with the eight bytes of this LSN. */
  ghost predicate Carries(page: Buffer, lsn: nat) {
    8 <= |page| && lsn < U64_END && page[..8] == ToLE(lsn, 8)
  }

  /** get_lsn reads the LSN the page carries, and a page with a header carries the one in it. */
  lemma {:induction false} PageLsnIff(page: Buffer, lsn: nat)
    requires 8 <= |page| && lsn < U64_END
    ensures PageLsn(page) == lsn <==> Carries(page, lsn)
    ensures SlottedPage.PAGE_HEADER_SIZE <= |page| ==>
              (SlottedPage.ReadHeader(page).lsn == lsn <==> Carries(page, lsn))
  {
    Pow256Values();
    LERoundTrip(lsn, 8);
    LEBytesRoundTrip(page[..8]);
    if SlottedPage.PAGE_HEADER_SIZE <= |page| {
      SlottedPage.LsnIff(page, lsn);
    }
  }

  lemma {:induction false} CarriesOne(page: Buffer)
    requires 8 <= |page|
    ensures Carries(page, PageLsn(page))
    ensures SlottedPage.PAGE_HEADER_SIZE <= |page| ==> SlottedPage.ReadHeader(page).lsn == PageLsn(page)
  {
    Pow256Values();
    FromLEBound(page[..8]);
    PageLsnIff(page, PageLsn(page));
  }

  /** No record with an LSN up to `lsn` is still in memory. */
  ghost predicate WalRule(buffer: seq<LogRecord>, lsn: nat) {
    forall r :: r in buffer ==> r.lsn > lsn
  }

  /** The replacer knows which frames are pinned, and queues every resident one. */
  ghost predicate ReplacerOk(descs: seq<Desc>, pinned: seq<bool>, queue: seq<nat>) {
    && |pinned| == |descs|
    && (forall f :: 0 <= f < |descs| ==> (pinned[f] <==> descs[f].pins > 0))
    && (forall f :: 0 <= f < |descs| && descs[f].pageId.Some? ==> f in queue)
  }

  class BufferPoolManager {
    const pageSize: nat
    const lru: LRUReplacer
    const log: DiskLogManager

    var frames: seq<Buffer>
    var descs: seq<Desc>
    var pageTable: map<PageId, nat>
    var disk: Disk
    var totalPages: map<nat, nat>

    ghost var unreported: set<PageId>
    /** The highest LSN issued by the log that a page image written to disk carries. */
    ghost var durable: nat
    /** The pages whose image on disk was written by this pool with an LSN the log had issued. */
    ghost var stamped: set<PageId>

    /** The page cache as a value. */
    ghost function Now(): Cache
      reads this`frames, this`descs, this`pageTable, this`disk, this`unreported
    {
      Cache(frames, descs, pageTable, disk, pageSize, unreported)
    }

    /** The log covers every stamped image on disk: what it describes has left the log buffer. */
    ghost predicate LogOk()
      reads this`durable, this`stamped, this`disk, log
    {
      && log.Valid() && durable < log.nextLsn && WalRule(log.logBuffer, durable)
      && forall p {:trigger p in stamped} :: p in stamped ==> p in disk && PageLsn(disk[p]) <= durable
    }

    /**
     The write-ahead rule, read off the disk: every record in memory is newer than the LSN in the
     first bytes of every image written since the log issued that LSN.
     */
    ghost predicate WalBeforeData()
      reads this`disk, this`stamped, log
    {
      forall p, r {:trigger p in stamped, r in log.logBuffer} :: p in stamped && r in log.logBuffer ==>
        && p in disk
        && (forall lsn: nat :: Carries(disk[p], lsn) ==> r.lsn > lsn)
        && (SlottedPage.PAGE_HEADER_SIZE <= |disk[p]| ==> r.lsn > SlottedPage.ReadHeader(disk[p]).lsn)
    }

    lemma {:induction false} LogCoversDisk()
      requires LogOk()
      ensures WalBeforeData()
    {
      hide PageLsn, Carries, DiskLogManager.Valid;
      forall p, r {:trigger p in stamped, r in log.logBuffer} | p in stamped && r in log.logBuffer
        ensures p in disk
        ensures forall lsn: nat :: Carries(disk[p], lsn) ==> r.lsn > lsn
        ensures SlottedPage.PAGE_HEADER_SIZE <= |disk[p]| ==> r.lsn > SlottedPage.ReadHeader(disk[p]).lsn
      {
        forall lsn: nat | Carries(disk[p], lsn) ensures r.lsn > lsn {
          CarriedLsn(disk[p], lsn);
        }
        if 8 <= |disk[p]| {
          CarriesOne(disk[p]);
        }
      }
    }

    lemma {:induction false} CarriedLsn(page: Buffer, lsn: nat)
      requires Carries(page, lsn)
      ensures PageLsn(page) == lsn
    {
      PageLsnIff(page, lsn);
    }

    /** The file's page count: its length when it was opened, and the pages allocated since. */
    function TotalPages(fileId: nat): nat
      reads this`totalPages
    {
      if fileId in totalPages then totalPages[fileId] else 0
    }

    /** Every page on disk or in the pool lies within its file. */
    ghost predicate Counted()
      reads this`disk, this`pageTable, this`totalPages
    {
      forall p: PageId :: p in disk || p in pageTable ==> p.pageNum < TotalPages(p.fileId)
    }

    ghost predicate Valid()
      reads this, log, lru
    {
      && Inv(Now()) && LogOk()
      && lru.Valid() && lru.capacity == |descs|
      && ReplacerOk(descs, lru.isPinned, lru.accessQueue)
    }

    /** The page counts are the lengths of the files on the disk. */
    constructor (poolSize: nat, pageSize: nat, disk: Disk, totalPages: map<nat, nat>, log: DiskLogManager)
      requires log.Valid()
      ensures Valid() && this.log == log && unreported == {} && fresh(lru)
      ensures this.disk == disk && this.totalPages == totalPages && this.pageSize == pageSize
      ensures |descs| == poolSize && pageTable == map[]
      ensures forall p :: Logical(Now(), p) == ReadDisk(disk, p, pageSize)
    {
      this.pageSize, this.disk, this.log := pageSize, disk, log;
      lru := new LRUReplacer(poolSize);
      frames := seq(poolSize, _ => []);
      descs := seq(poolSize, _ => Desc(None, 0, false));
      this.totalPages := totalPages;
      pageTable, unreported, durable, stamped := map[], {}, 0, {};
      new;
      EmptyCache(poolSize, pageSize, disk);
      NewLogRule();
    }

    lemma {:induction false} NewLogRule()
      requires log.Valid() && durable == 0 && stamped == {}
      ensures LogOk()
    {
    }

    // ----- Disk writes

    /** The disk write: no record up to the page's LSN may still be in memory. */
    method DiskWrite(p: PageId, data: Buffer)
      requires WalRule(log.logBuffer, PageLsn(data))
      modifies this`disk
      ensures disk == old(disk)[p := data]
    {
      disk := disk[p := data];
    }

    method FlushFrame(f: nat)
      requires Inv(Now()) && LogOk() && f < |descs| == |frames|
      modifies this`disk, this`descs, this`durable, this`stamped, log
      ensures Now() == Flushed(old(Now()), f) && LogOk()
      ensures WalBeforeData()
      ensures old(descs[f].dirty) && descs[f].pageId.Some? ==>
                var p := descs[f].pageId.value;
                && disk[p] == frames[f]
                && (forall lsn: nat :: Carries(frames[f], lsn) ==>
                      stamped == if lsn < log.nextLsn then old(stamped) + {p} else old(stamped) - {p})
      ensures !old(descs[f].dirty) || descs[f].pageId.None? ==> stamped == old(stamped)
      ensures log.History() == old(log.History()) && log.nextLsn == old(log.nextLsn) && log.base == old(log.base)
    {
      hide Inv, PageLsn, Carries, WalBeforeData, DiskLogManager.Valid;
      if descs[f].dirty && descs[f].pageId.Some? {
        forall lsn: nat | Carries(frames[f], lsn) ensures PageLsn(frames[f]) == lsn {
          CarriedLsn(frames[f], lsn);
        }
        var lsn := PageLsn(frames[f]);
        log.FlushUpTo(lsn);
        var p := descs[f].pageId.value;
        DiskWrite(p, frames[f]);
        descs := descs[f := descs[f].(dirty := false)];
        if lsn < log.nextLsn && lsn > durable {
          durable := lsn;
        }
        stamped := if lsn < log.nextLsn then stamped + {p} else stamped - {p};
      }
      LogCoversDisk();
    }

    /** At all times: no record is in memory whose LSN, or a later one, is stamped on an image on disk. */
    lemma {:induction false} DiskIsCovered(p: PageId, r: LogRecord)
      requires Valid() && p in stamped && r in log.logBuffer
      ensures p in disk
      ensures forall lsn: nat :: Carries(disk[p], lsn) ==> r.lsn > lsn
      ensures SlottedPage.PAGE_HEADER_SIZE <= |disk[p]| ==> r.lsn > SlottedPage.ReadHeader(disk[p]).lsn
    {
      hide Carries, Inv;
      LogCoversDisk();
    }

    method FlushPage(p: PageId) returns (r: Result<(), BufferError>)
      requires Valid()
      modifies this`disk, this`descs, this`durable, this`stamped, log
      ensures Valid() && SameContent(old(Now()), Now()) && SamePins(old(Now()), Now())
      ensures r == if p in pageTable then Ok(()) else Err(PageNotFound)
      ensures p in pageTable && p !in unreported ==> ReadDisk(disk, p, pageSize) == Logical(Now(), p)
      ensures log.History() == old(log.History())
    {
      if p in pageTable {
        assert PageOk(Now(), p);
        FlushKeeps(Now(), pageTable[p]);
        FlushKeepsReplacer(pageTable[p]);
        FlushFrame(pageTable[p]);
        return Ok(());
      }
      return Err(PageNotFound);
    }

    lemma {:induction false} FlushKeepsReplacer(f: nat)
      requires Valid() && f < |descs|
      ensures ReplacerOk(Flushed(Now(), f).descs, lru.isPinned, lru.accessQueue)
      ensures SamePins(Now(), Flushed(Now(), f))
    {
    }

    /** Writes every dirty frame back. */
    method FlushAllPages()
      requires Valid()
      modifies this`disk, this`descs, this`durable, this`stamped, log
      ensures Valid() && SameContent(old(Now()), Now()) && SamePins(old(Now()), Now())
      ensures unreported == {} ==> forall p :: ReadDisk(disk, p, pageSize) == Logical(Now(), p)
      ensures log.History() == old(log.History()) && log.nextLsn == old(log.nextLsn) && log.base == old(log.base)
    {
      hide Inv, LogOk, LRUReplacer.Valid, Logical;
      for f := 0 to |descs|
        invariant Valid() && |descs| == old(|descs|)
        invariant SameContent(old(Now()), Now()) && SamePins(old(Now()), Now())
        invariant forall g :: 0 <= g < f ==> !descs[g].dirty
        invariant log.History() == old(log.History()) && log.nextLsn == old(log.nextLsn) && log.base == old(log.base)
      {
        FlushKeeps(Now(), f);
        FlushKeepsReplacer(f);
        FlushFrame(f);
      }
      if unreported == {} {
        CleanCacheIsDisk(Now());
      }
    }

    // ----- Fetching

    /** find_victim_frame: the first empty frame, else the unpinned frame used longest ago. */
    method FindVictimFrame() returns (r: Result<nat, BufferError>)
      requires Valid()
      modifies lru`accessQueue
      ensures lru.Valid()
      ensures r.Err? <==> AllFramesPinned(descs)
      ensures r.Err? ==> r.error == NoFreeFrames && Valid()
      ensures r.Ok? ==>
                && r.value < |descs| && descs[r.value].pins == 0
                && (forall f :: f in old(lru.accessQueue) && f != r.value ==> f in lru.accessQueue)
                && IsLruVictim(r.value)
    {
      hide Inv;
      var i := 0;
      while i < |descs|
        invariant i <= |descs|
        invariant forall f :: 0 <= f < i ==> descs[f].pageId.Some?
      {
        if descs[i].pageId.None? {
          EmptyFrameUnpinned(i);
          return Ok(i);
        }
        i := i + 1;
      }
      var victim := lru.Evict();
      if victim.None? {
        return Err(NoFreeFrames);
      }
      return Ok(victim.value);
    }

    /** An empty frame, or the least recently used of the unpinned ones. */
    ghost predicate IsLruVictim(v: nat)
      reads this`descs, lru`lastUse
    {
      v < |descs| &&
      (descs[v].pageId.None? ||
       forall f :: 0 <= f < |descs| && f != v && descs[f].pins == 0 ==>
         v in lru.lastUse && f in lru.lastUse && lru.lastUse[v] < lru.lastUse[f])
    }

    lemma {:induction false} EmptyFrameUnpinned(f: nat)
      requires Inv(Now()) && f < |descs| && descs[f].pageId.None?
      ensures descs[f].pins == 0
    {
      assert FrameOk(Now(), f);
    }

    /** fetch_page: the page is pinned in a frame that shows its logical content. */
    method FetchPage(p: PageId) returns (r: Result<nat, BufferError>)
      requires Valid()
      modifies this`frames, this`descs, this`pageTable, this`disk, this`durable, this`stamped, lru, log
      ensures Valid() && SameContent(old(Now()), Now()) && PinnedStay(old(Now()), Now())
      ensures |descs| == old(|descs|) && unreported == old(unreported)
      ensures r.Err? <==> p !in old(pageTable) && AllFramesPinned(old(descs))
      ensures r.Err? ==> r.error == NoFreeFrames && Now() == old(Now())
      ensures r.Ok? ==>
                && r.value < |frames| && p in pageTable && pageTable[p] == r.value
                && frames[r.value] == old(Logical(Now(), p))
                && PinsChanged(old(Now()), Now(), p, 1)
      ensures r.Ok? && p !in old(pageTable) ==> old(IsLruVictim(r.value))
      ensures pageTable.Keys <= old(pageTable).Keys + {p} && disk.Keys <= old(disk).Keys + old(pageTable).Keys
      ensures old(Counted()) && p.pageNum < TotalPages(p.fileId) ==> Counted()
      ensures log.History() == old(log.History()) && log.nextLsn == old(log.nextLsn)
    {
      hide Inv, LogOk, LRUReplacer.Valid, WalBeforeData, Carries;
      if p in pageTable {
        var f := pageTable[p];
        PinKeeps(Now(), p);
        PinnedStayIfPins(Now(), Pinned(Now(), f));
        PinFrame(f);
        assert frames[f] == old(Logical(Now(), p));
        return Ok(f);
      }
      var victim := FindVictimFrame();
      if victim.Err? {
        return Err(NoFreeFrames);
      }
      RefillKeeps(Now(), victim.value, p);
      FlushFrame(victim.value);
      LoadFrame(victim.value, p);
      return Ok(victim.value);
    }

    /** Remaps a reusable frame to page p, reads the page and pins it. */
    method LoadFrame(f: nat, p: PageId)
      requires lru.Valid() && lru.capacity == |descs| && f < |descs| == |frames|
      modifies this`frames, this`descs, this`pageTable, lru
      ensures lru.Valid()
      ensures Now() == Loaded(old(Now()), f, p)
      ensures lru.isPinned == old(lru.isPinned)[f := true]
      ensures forall x :: x in lru.accessQueue <==> x in old(lru.accessQueue) || x == f
    {
      if descs[f].pageId.Some? {
        pageTable := pageTable - {descs[f].pageId.value};
      }
      descs := descs[f := descs[f].(pageId := Some(p))];
      pageTable := pageTable[p := f];
      frames := frames[f := ReadDisk(disk, p, pageSize)];
      PinFrame(f);
    }

    method PinFrame(f: nat)
      requires lru.Valid() && lru.capacity == |descs| && f < |descs|
      modifies this`descs, lru
      ensures lru.Valid()
      ensures Now() == Pinned(old(Now()), f)
      ensures lru.isPinned == old(lru.isPinned)[f := true]
      ensures forall x :: x in lru.accessQueue <==> x in old(lru.accessQueue) || x == f
    {
      descs := descs[f := descs[f].(pins := descs[f].pins + 1)];
      lru.RecordAccess(f);
      lru.SetPin(f, true);
    }

    // ----- Clients

    /** A client writes the page it has pinned. */
    method WritePage(f: nat, data: Buffer)
      requires Valid() && f < |descs| && descs[f].pageId.Some? && descs[f].pins > 0
      modifies this`frames, this`unreported
      ensures Valid() && SamePins(old(Now()), Now()) && pageTable == old(pageTable) && |descs| == old(|descs|)
      ensures unreported == old(unreported) + {descs[f].pageId.value} && frames == old(frames)[f := data]
      ensures forall q :: Logical(Now(), q) == if q == descs[f].pageId.value then data else old(Logical(Now(), q))
    {
      var p := descs[f].pageId.value;
      assert FrameOk(Now(), f);
      WriteKeeps(Now(), p, data);
      frames := frames[f := data];
      unreported := unreported + {p};
    }

    /** unpin_page: the last client to let go of a page written since reports it dirty. */
    method UnpinPage(p: PageId, dirty: bool) returns (r: Result<(), BufferError>)
      requires Valid()
      requires p in pageTable ==> Pins(Now(), p) > 0
      requires p in unreported && Pins(Now(), p) == 1 ==> dirty
      modifies this`descs, this`unreported, lru`isPinned
      ensures Valid() && SameContent(old(Now()), Now()) && |descs| == old(|descs|)
      ensures r == if p in pageTable then Ok(()) else Err(PageNotFound)
      ensures r.Ok? ==> PinsChanged(old(Now()), Now(), p, -1)
      ensures r.Ok? && dirty ==> unreported == old(unreported) - {p}
      ensures r.Err? || !dirty ==> unreported == old(unreported)
      ensures r.Err? ==> Now() == old(Now())
    {
      hide Inv, LogOk, LRUReplacer.Valid, Logical;
      if p !in pageTable {
        return Err(PageNotFound);
      }
      UnpinKeeps(Now(), p, dirty);
      var f := pageTable[p];
      if dirty {
        descs := descs[f := descs[f].(dirty := true)];
        unreported := unreported - {p};
      }
      descs := descs[f := descs[f].(pins := descs[f].pins - 1)];
      if descs[f].pins == 0 {
        lru.SetPin(f, false);
      }
      assert Now() == Unpinned(old(Now()), f, p, dirty);
      return Ok(());
    }

    /** new_page: the next page number of the file, brought into the pool. */
    method NewPage(fileId: nat) returns (r: Result<(nat, PageId), BufferError>)
      requires Valid()
      modifies this, lru, log
      ensures Valid() && SameContent(old(Now()), Now()) && PinnedStay(old(Now()), Now())
      ensures var n := old(TotalPages(fileId));
              && totalPages == old(totalPages)[fileId := n + 1]
              && (r.Ok? ==>
                    && r.value.1 == PageId(fileId, n)
                    && r.value.0 < |frames| && r.value.1 in pageTable && pageTable[r.value.1] == r.value.0
                    && PinsChanged(old(Now()), Now(), r.value.1, 1))
              && (r.Err? <==> PageId(fileId, n) !in old(pageTable) && AllFramesPinned(old(descs)))
      ensures old(Counted()) ==> Counted()
      ensures old(Counted()) && r.Ok? ==>
                r.value.1 !in old(pageTable) && r.value.1 !in old(disk) && frames[r.value.0] == seq(pageSize, _ => 0)
      ensures unreported == old(unreported) && log.History() == old(log.History()) && |descs| == old(|descs|)
    {
      hide Inv, LogOk, LRUReplacer.Valid, ReplacerOk, IsLruVictim;
      var n := TotalPages(fileId);
      totalPages := totalPages[fileId := n + 1];
      var p := PageId(fileId, n);
      var f := FetchPage(p);
      if f.Err? {
        return Err(f.error);
      }
      return Ok((f.value, p));
    }

    /** drop_relation: forgets the pages of a file without writing them back. */
    method DropRelation(fileId: nat)
      requires Valid()
      modifies this`descs, this`pageTable, this`unreported, lru`isPinned
      ensures Valid()
      ensures forall q :: q in pageTable <==> q in old(pageTable) && q.fileId != fileId
      ensures forall q: PageId :: q.fileId != fileId ==>
                && Logical(Now(), q) == old(Logical(Now(), q))
                && Pins(Now(), q) == old(Pins(Now(), q))
    {
      for f := 0 to |descs|
        invariant Valid() && |descs| == old(|descs|)
        invariant forall q :: q in pageTable <==> q in old(pageTable) && !(q.fileId == fileId && old(pageTable)[q] < f)
        invariant forall q :: q in pageTable ==> pageTable[q] == old(pageTable)[q]
        invariant forall q: PageId :: q.fileId != fileId ==>
                    && Logical(Now(), q) == old(Logical(Now(), q))
                    && Pins(Now(), q) == old(Pins(Now(), q))
      {
        EmptyKeeps(Now(), f, fileId);
        EmptyFrame(f, fileId);
      }
      forall q | q in old(pageTable)
        ensures old(pageTable)[q] < old(|descs|)
      {
        assert PageOk(old(Now()), q);
      }
    }

    method EmptyFrame(f: nat, fileId: nat)
      requires Valid() && f < |descs| && Inv(Emptied(Now(), f, fileId))
      modifies this`descs, this`pageTable, this`unreported, lru`isPinned
      ensures Valid() && Now() == Emptied(old(Now()), f, fileId)
    {
      if descs[f].pageId.Some? && descs[f].pageId.value.fileId == fileId {
        var p := descs[f].pageId.value;
        pageTable := pageTable - {p};
        descs := descs[f := Desc(None, 0, false)];
        unreported := unreported - {p};
        lru.SetPin(f, false);
      }
    }

    // ----- The log

    /** Appending through the pool's log keeps every written image covered. */
    method Append(payload: Buffer) returns (lsn: nat)
      requires Valid() && |payload| <= U32_MAX && log.nextLsn <= U64_MAX
      modifies log
      ensures Valid() && log.History() == old(log.History()) + [LogRecord(lsn, payload)]
      ensures lsn == old(log.nextLsn) && log.nextLsn == lsn + 1
    {
      lsn := log.Append(payload);
    }

    /**
     log_delete_to_wal: the record of a change, and its LSN in the page that the change is on. When that
     page reaches the disk, `DiskIsCovered` says that the record has left memory.
     */
    method LogOnPage(f: nat, payload: Buffer) returns (lsn: nat)
      requires Valid() && f < |descs| == |frames| && descs[f].pageId.Some? && descs[f].pins > 0
      requires SlottedPage.PAGE_HEADER_SIZE <= |frames[f]| && |payload| <= U32_MAX && log.nextLsn <= U64_MAX
      modifies this`frames, this`unreported, log
      ensures Valid() && SamePins(old(Now()), Now()) && pageTable == old(pageTable) && |descs| == old(|descs|)
      ensures log.History() == old(log.History()) + [LogRecord(lsn, payload)] && lsn < log.nextLsn
      ensures frames == old(frames)[f := frames[f]] && Carries(frames[f], lsn) && frames[f][8..] == old(frames[f])[8..]
      ensures forall q :: Logical(Now(), q) == if q == descs[f].pageId.value then frames[f] else old(Logical(Now(), q))
      ensures unreported == old(unreported) + {descs[f].pageId.value}
    {
      hide Inv, Logical, LogOk;
      lsn := Append(payload);
      var page := frames[f];
      SlottedPage.RestampBytes(page, lsn);
      WritePage(f, CopyFrom(page, 0, SlottedPage.HeaderBytes(SlottedPage.ReadHeader(page).(lsn := lsn))));
    }

    /** The checkpoint: the disk holds every page and the log is empty, so nothing logged is lost. */
    method Checkpoint()
      requires Valid() && unreported == {}
      modifies this`disk, this`descs, this`durable, this`stamped, log
      ensures Valid() && SameContent(old(Now()), Now()) && SamePins(old(Now()), Now())
      ensures forall p :: ReadDisk(disk, p, pageSize) == old(Logical(Now(), p))
      ensures log.file == [] && log.History() == []
    {
      FlushAllPages();
      log.FlushUpTo(U64_MAX);
      log.NothingBuffered();
      log.Checkpoint();
    }
  }
}
