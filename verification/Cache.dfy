/**
 The buffer pool's page cache as a value: what each step of the pool does to the frames, the
 descriptors, the page table and the disk, and what it keeps.

 `Logical(c, p)` is the content of page p as its clients wrote it last. Clients write a page
 only while they hold a pin on it and report the write when they unpin: `unreported` holds
 the pages with a write that no unpin has reported yet.
 */
module Cache {
  import opened Storage
  import opened Bytes

  datatype Desc = Desc(pageId: Option<PageId>, pins: nat, dirty: bool)

  type Disk = map<PageId, Buffer>

  datatype Cache = Cache(frames: seq<Buffer>, descs: seq<Desc>, table: map<PageId, nat>, disk: Disk,
                         pageSize: nat, unreported: set<PageId>)

  /** Pages that were never written read as zeros. */
  function ReadDisk(disk: Disk, p: PageId, pageSize: nat): Buffer {
    if p in disk then disk[p] else seq(pageSize, _ => 0)
  }

  ghost predicate FrameOk(c: Cache, f: nat)
    requires f < |c.descs| == |c.frames|
  {
    match c.descs[f].pageId
    case None => c.descs[f].pins == 0 && !c.descs[f].dirty
    case Some(p) =>
      && p in c.table && c.table[p] == f
      && (c.frames[f] != ReadDisk(c.disk, p, c.pageSize) ==> c.descs[f].dirty || p in c.unreported)
      && (p in c.unreported ==> c.descs[f].pins > 0)
  }

  ghost predicate PageOk(c: Cache, p: PageId) {
    p in c.table && c.table[p] < |c.descs| && c.descs[c.table[p]].pageId == Some(p)
  }

  /**
   The page table is the exact inverse of the descriptors, and a frame that differs from the
   disk is dirty or has a write still to be reported.
   */
  ghost predicate Inv(c: Cache) {
    && |c.frames| == |c.descs|
    && (forall f {:trigger FrameOk(c, f)} :: 0 <= f < |c.descs| ==> FrameOk(c, f))
    && (forall p {:trigger PageOk(c, p)} :: p in c.table ==> PageOk(c, p))
    && (forall p :: p in c.unreported ==> p in c.table)
  }

  /** The page content its clients see. */
  function Logical(c: Cache, p: PageId): Buffer {
    if p in c.table && c.table[p] < |c.frames| then c.frames[c.table[p]] else ReadDisk(c.disk, p, c.pageSize)
  }

  function Pins(c: Cache, p: PageId): nat {
    if p in c.table && c.table[p] < |c.descs| then c.descs[c.table[p]].pins else 0
  }

  ghost predicate SameContent(c: Cache, c': Cache) {
    forall p {:trigger Logical(c', p)} :: Logical(c', p) == Logical(c, p)
  }

  lemma {:induction false} SameContentTrans(a: Cache, b: Cache, c: Cache)
    requires SameContent(a, b) && SameContent(b, c)
    ensures SameContent(a, c)
  {
    forall p
      ensures Logical(c, p) == Logical(a, p)
    {
      assert Logical(b, p) == Logical(a, p);
    }
  }

  /** Every frame holds a page that somebody has pinned. */
  ghost predicate AllFramesPinned(descs: seq<Desc>) {
    forall f :: 0 <= f < |descs| ==> descs[f].pageId.Some? && descs[f].pins > 0
  }

  ghost predicate SamePins(c: Cache, c': Cache) {
    forall p {:trigger Pins(c', p)} :: Pins(c', p) == Pins(c, p)
  }

  /** Page p has d more pins than before, and every other page as many as before. */
  ghost predicate PinsChanged(c: Cache, c': Cache, p: PageId, d: int) {
    forall q {:trigger Pins(c', q)} :: Pins(c', q) == Pins(c, q) + (if q == p then d else 0)
  }

  /** A page with a pin stays in its frame. */
  ghost predicate PinnedStay(c: Cache, c': Cache) {
    forall q {:trigger Pins(c, q)} :: Pins(c, q) > 0 ==> q in c.table && q in c'.table && c'.table[q] == c.table[q]
  }

  lemma {:induction false} PinnedStayIfPins(c: Cache, c': Cache)
    requires c'.table == c.table
    ensures PinnedStay(c, c')
  {
  }

  lemma {:induction false} EmptyCache(poolSize: nat, pageSize: nat, disk: Disk)
    ensures var c := Cache(seq(poolSize, _ => []), seq(poolSize, _ => Desc(None, 0, false)), map[], disk, pageSize, {});
            Inv(c) && forall p :: Logical(c, p) == ReadDisk(disk, p, pageSize)
  {
  }

  // ----- Writing a dirty frame back

  function Flushed(c: Cache, f: nat): Cache
    requires f < |c.descs| == |c.frames|
  {
    if c.descs[f].dirty && c.descs[f].pageId.Some? then
      c.(disk := c.disk[c.descs[f].pageId.value := c.frames[f]],
         descs := c.descs[f := c.descs[f].(dirty := false)])
    else c
  }

  lemma {:induction false} FlushKeeps(c: Cache, f: nat)
    requires Inv(c) && f < |c.descs|
    ensures Inv(Flushed(c, f)) && SameContent(c, Flushed(c, f))
    ensures !Flushed(c, f).descs[f].dirty
    ensures c.descs[f].pageId.Some? && c.descs[f].pageId.value !in c.unreported ==>
              ReadDisk(Flushed(c, f).disk, c.descs[f].pageId.value, c.pageSize) == c.frames[f]
  {
    var c' := Flushed(c, f);
    assert FrameOk(c, f);
    forall g | 0 <= g < |c.descs|
      ensures FrameOk(c', g)
    {
      assert FrameOk(c, g);
    }
    forall p | p in c.table
      ensures PageOk(c', p)
    {
      assert PageOk(c, p);
    }
    forall p
      ensures Logical(c', p) == Logical(c, p)
    {
      assert p in c.table ==> PageOk(c, p);
    }
  }

  // ----- Taking a frame for another page

  /** Frame f may be reused: nobody holds it and the disk has its page. */
  ghost predicate Reusable(c: Cache, f: nat)
    requires f < |c.descs| == |c.frames|
  {
    && c.descs[f].pins == 0 && !c.descs[f].dirty
    && (c.descs[f].pageId.Some? ==> ReadDisk(c.disk, c.descs[f].pageId.value, c.pageSize) == c.frames[f])
  }

  function Loaded(c: Cache, f: nat, p: PageId): Cache
    requires f < |c.descs| == |c.frames|
  {
    var table := if c.descs[f].pageId.Some? then c.table - {c.descs[f].pageId.value} else c.table;
    c.(table := table[p := f],
       frames := c.frames[f := ReadDisk(c.disk, p, c.pageSize)],
       descs := c.descs[f := c.descs[f].(pageId := Some(p), pins := c.descs[f].pins + 1)])
  }

  lemma {:induction false} LoadKeeps(c: Cache, f: nat, p: PageId)
    requires Inv(c) && f < |c.descs| && Reusable(c, f) && p !in c.table
    ensures Inv(Loaded(c, f, p)) && SameContent(c, Loaded(c, f, p))
    ensures forall q :: Pins(Loaded(c, f, p), q) == Pins(c, q) + (if q == p then 1 else 0)
    ensures forall q :: Pins(c, q) > 0 ==> q in Loaded(c, f, p).table && Loaded(c, f, p).table[q] == c.table[q]
  {
    var c' := Loaded(c, f, p);
    assert FrameOk(c, f);
    forall g | 0 <= g < |c.descs|
      ensures FrameOk(c', g)
    {
      assert FrameOk(c, g);
    }
    forall q | q in c.table
      ensures PageOk(c, q)
    {
    }
    forall q | q in c'.table
      ensures PageOk(c', q)
    {
      assert q != p ==> PageOk(c, q);
    }
    forall q
      ensures Logical(c', q) == Logical(c, q)
      ensures Pins(c', q) == Pins(c, q) + (if q == p then 1 else 0)
      ensures Pins(c, q) > 0 ==> q in c'.table && c'.table[q] == c.table[q]
    {
      assert q in c.table ==> PageOk(c, q);
    }
  }

  // ----- Pins, writes and drops

  function Pinned(c: Cache, f: nat): Cache
    requires f < |c.descs|
  {
    c.(descs := c.descs[f := c.descs[f].(pins := c.descs[f].pins + 1)])
  }

  lemma {:induction false} PinKeeps(c: Cache, p: PageId)
    requires Inv(c) && p in c.table
    ensures PageOk(c, p) && Inv(Pinned(c, c.table[p])) && SameContent(c, Pinned(c, c.table[p]))
    ensures forall q :: Pins(Pinned(c, c.table[p]), q) == Pins(c, q) + (if q == p then 1 else 0)
  {
    assert PageOk(c, p);
    var f := c.table[p];
    var c' := Pinned(c, f);
    forall g | 0 <= g < |c.descs|
      ensures FrameOk(c', g)
    {
      assert FrameOk(c, g);
    }
    forall q | q in c.table
      ensures PageOk(c', q)
    {
      assert PageOk(c, q);
    }
    forall q
      ensures Logical(c', q) == Logical(c, q)
      ensures Pins(c', q) == Pins(c, q) + (if q == p then 1 else 0)
    {
      assert q in c.table ==> PageOk(c, q);
    }
  }

  function Unpinned(c: Cache, f: nat, p: PageId, dirty: bool): Cache
    requires f < |c.descs| && c.descs[f].pins > 0
  {
    c.(descs := c.descs[f := c.descs[f].(dirty := c.descs[f].dirty || dirty, pins := c.descs[f].pins - 1)],
       unreported := if dirty then c.unreported - {p} else c.unreported)
  }

  lemma {:induction false} UnpinKeeps(c: Cache, p: PageId, dirty: bool)
    requires Inv(c) && p in c.table && Pins(c, p) > 0
    requires p in c.unreported && Pins(c, p) == 1 ==> dirty
    ensures PageOk(c, p) && c.descs[c.table[p]].pins == Pins(c, p)
    ensures Inv(Unpinned(c, c.table[p], p, dirty)) && SameContent(c, Unpinned(c, c.table[p], p, dirty))
    ensures forall q :: Pins(Unpinned(c, c.table[p], p, dirty), q) == Pins(c, q) - (if q == p then 1 else 0)
  {
    assert PageOk(c, p);
    var f := c.table[p];
    var c' := Unpinned(c, f, p, dirty);
    forall g | 0 <= g < |c.descs|
      ensures FrameOk(c', g)
    {
      assert FrameOk(c, g);
    }
    forall q | q in c.table
      ensures PageOk(c', q)
    {
      assert PageOk(c, q);
    }
    forall q
      ensures Logical(c', q) == Logical(c, q)
      ensures Pins(c', q) == Pins(c, q) - (if q == p then 1 else 0)
    {
      assert q in c.table ==> PageOk(c, q);
    }
  }

  function Written(c: Cache, f: nat, p: PageId, data: Buffer): Cache
    requires f < |c.frames|
  {
    c.(frames := c.frames[f := data], unreported := c.unreported + {p})
  }

  lemma {:induction false} WriteKeeps(c: Cache, p: PageId, data: Buffer)
    requires Inv(c) && p in c.table && Pins(c, p) > 0
    ensures PageOk(c, p) && Inv(Written(c, c.table[p], p, data))
    ensures forall q :: Logical(Written(c, c.table[p], p, data), q) == if q == p then data else Logical(c, q)
    ensures forall q :: Pins(Written(c, c.table[p], p, data), q) == Pins(c, q)
  {
    assert PageOk(c, p);
    var f := c.table[p];
    var c' := Written(c, f, p, data);
    forall g | 0 <= g < |c.descs|
      ensures FrameOk(c', g)
    {
      assert FrameOk(c, g);
    }
    forall q | q in c.table
      ensures PageOk(c', q)
    {
      assert PageOk(c, q);
    }
    forall q
      ensures Logical(c', q) == if q == p then data else Logical(c, q)
    {
      assert q in c.table ==> PageOk(c, q);
    }
  }

  /** Emptying frame f without writing it back, if it holds a page of the file. */
  function Emptied(c: Cache, f: nat, fileId: nat): Cache
    requires f < |c.descs|
  {
    match c.descs[f].pageId
    case None => c
    case Some(p) =>
      if p.fileId != fileId then c
      else c.(table := c.table - {p}, descs := c.descs[f := Desc(None, 0, false)], unreported := c.unreported - {p})
  }

  lemma {:induction false} EmptyKeeps(c: Cache, f: nat, fileId: nat)
    requires Inv(c) && f < |c.descs|
    ensures Inv(Emptied(c, f, fileId))
    ensures forall q: PageId :: q.fileId != fileId ==>
              && Logical(Emptied(c, f, fileId), q) == Logical(c, q)
              && Pins(Emptied(c, f, fileId), q) == Pins(c, q)
    ensures forall q :: q in Emptied(c, f, fileId).table <==> q in c.table && !(q.fileId == fileId && c.table[q] == f)
    ensures forall q :: q in Emptied(c, f, fileId).table ==> Emptied(c, f, fileId).table[q] == c.table[q]
  {
    var c' := Emptied(c, f, fileId);
    assert FrameOk(c, f);
    forall g | 0 <= g < |c.descs|
      ensures FrameOk(c', g)
    {
      assert FrameOk(c, g);
    }
    forall q | q in c'.table
      ensures PageOk(c', q)
    {
      assert PageOk(c, q);
    }
    forall q | q in c.table
      ensures PageOk(c, q)
    {
    }
    forall q: PageId | q.fileId != fileId
      ensures Logical(c', q) == Logical(c, q) && Pins(c', q) == Pins(c, q)
    {
      assert q in c.table ==> PageOk(c, q);
    }
  }

  /** With nothing dirty and nothing unreported, the disk is the logical content. */
  lemma {:induction false} CleanCacheIsDisk(c: Cache)
    requires Inv(c) && c.unreported == {} && forall f :: 0 <= f < |c.descs| ==> !c.descs[f].dirty
    ensures forall p :: ReadDisk(c.disk, p, c.pageSize) == Logical(c, p)
  {
    forall p
      ensures ReadDisk(c.disk, p, c.pageSize) == Logical(c, p)
    {
      if p in c.table {
        assert PageOk(c, p) && FrameOk(c, c.table[p]);
      }
    }
  }

  /** A miss: the frame is written back if dirty and then shows page p. */
  function Refilled(c: Cache, f: nat, p: PageId): Cache
    requires f < |c.descs| == |c.frames|
  {
    Loaded(Flushed(c, f), f, p)
  }

  lemma {:induction false} RefillKeeps(c: Cache, f: nat, p: PageId)
    requires Inv(c) && f < |c.descs| && c.descs[f].pins == 0 && p !in c.table
    ensures |c.descs| == |c.frames|
    ensures var c' := Refilled(c, f, p);
            && Inv(c') && SameContent(c, c') && PinsChanged(c, c', p, 1) && PinnedStay(c, c')
            && c'.table[p] == f && c'.frames[f] == Logical(c, p)
            && c'.table.Keys <= c.table.Keys + {p} && c'.disk.Keys <= c.disk.Keys + c.table.Keys
  {
    var flushed := Flushed(c, f);
    FlushKeeps(c, f);
    assert FrameOk(c, f) && FrameOk(flushed, f);
    LoadKeeps(flushed, f, p);
    SameContentTrans(c, flushed, Loaded(flushed, f, p));
    assert forall q :: Pins(flushed, q) == Pins(c, q);
    assert Logical(flushed, p) == Logical(c, p);
  }

  // ----- Whole runs

  /** What clients and the pool do to the cache. A miss brings page p into a frame nobody holds. */
  datatype Step =
    | Miss(f: nat, p: PageId)
    | Hit(p: PageId)
    | Unpin(p: PageId, dirty: bool)
    | Write(p: PageId, data: Buffer)
    | Flush(f: nat)

  /** The client protocol, and the frames the pool may choose. */
  predicate Enabled(c: Cache, s: Step) {
    |c.descs| == |c.frames| &&
    match s
    case Miss(f, p) => f < |c.descs| && c.descs[f].pins == 0 && p !in c.table
    case Hit(p) => p in c.table && c.table[p] < |c.descs|
    case Unpin(p, dirty) => p in c.table && Pins(c, p) > 0 && (p in c.unreported && Pins(c, p) == 1 ==> dirty)
    case Write(p, _) => p in c.table && Pins(c, p) > 0
    case Flush(f) => f < |c.descs|
  }

  function Take(c: Cache, s: Step): Cache
    requires Enabled(c, s)
  {
    match s
    case Miss(f, p) => Refilled(c, f, p)
    case Hit(p) => Pinned(c, c.table[p])
    case Unpin(p, dirty) => Unpinned(c, c.table[p], p, dirty)
    case Write(p, data) => Written(c, c.table[p], p, data)
    case Flush(f) => Flushed(c, f)
  }

  /** The caches a run passes through. */
  ghost predicate IsRun(caches: seq<Cache>, steps: seq<Step>) {
    && |caches| == |steps| + 1
    && forall i {:trigger steps[i]} :: 0 <= i < |steps| ==>
         Enabled(caches[i], steps[i]) && caches[i + 1] == Take(caches[i], steps[i])
  }

  /** The last content the steps wrote to page p, or what it was before. */
  function LastWrite(steps: seq<Step>, p: PageId, before: Buffer): Buffer {
    if steps == [] then before
    else match steps[|steps| - 1]
      case Write(q, data) => if q == p then data else LastWrite(steps[..|steps| - 1], p, before)
      case _ => LastWrite(steps[..|steps| - 1], p, before)
  }

  lemma {:induction false} StepKeeps(c: Cache, s: Step)
    requires Inv(c) && Enabled(c, s)
    ensures Inv(Take(c, s))
    ensures forall p {:trigger Logical(Take(c, s), p)} ::
              Logical(Take(c, s), p) == if s.Write? && s.p == p then s.data else Logical(c, p)
    ensures forall p {:trigger Pins(c, p)} ::
              Pins(c, p) > 0 && s != Unpin(p, true) && s != Unpin(p, false) ==>
                p in c.table && p in Take(c, s).table && Take(c, s).table[p] == c.table[p] && Pins(Take(c, s), p) > 0
  {
    hide Inv, Flushed, Loaded, Logical;
    match s
    case Miss(f, p) => RefillKeeps(c, f, p);
    case Hit(p) => PinKeeps(c, p);
    case Unpin(p, dirty) => UnpinKeeps(c, p, dirty);
    case Write(p, data) => WriteKeeps(c, p, data);
    case Flush(f) =>
      FlushKeeps(c, f);
      FlushKeepsPins(c, f);
  }

  lemma {:induction false} FlushKeepsPins(c: Cache, f: nat)
    requires f < |c.descs| == |c.frames|
    ensures Flushed(c, f).table == c.table && SamePins(c, Flushed(c, f))
  {
  }

  /**
   The cache is invisible: after any run, whatever was evicted, loaded and flushed on the way,
   every page shows the last content written to it, or what it showed at the start.
   */
  lemma {:induction false} RunIsTransparent(caches: seq<Cache>, steps: seq<Step>, p: PageId)
    requires IsRun(caches, steps) && Inv(caches[0])
    ensures Inv(caches[|steps|])
    ensures Logical(caches[|steps|], p) == LastWrite(steps, p, Logical(caches[0], p))
  {
    hide Inv, Logical, Enabled, Take;
    if steps != [] {
      var n := |steps| - 1;
      var init, s := steps[..n], steps[n];
      assert IsRun(caches[..n + 1], init) by {
        assert forall i :: 0 <= i < n ==> init[i] == steps[i];
      }
      RunIsTransparent(caches[..n + 1], init, p);
      StepKeeps(caches[n], s);
    }
  }

  // ----- Enough frames

  ghost function PinnedPages(c: Cache): set<PageId> {
    set p | p in c.table && Pins(c, p) > 0
  }

  /** Pages in distinct frames are distinct. */
  lemma {:induction false} FramesHoldDistinctPages(c: Cache, n: nat)
    requires Inv(c) && n <= |c.descs| && AllFramesPinned(c.descs)
    ensures |set f | 0 <= f < n :: c.descs[f].pageId| == n
  {
    if n > 0 {
      FramesHoldDistinctPages(c, n - 1);
      var before := set f | 0 <= f < n - 1 :: c.descs[f].pageId;
      var last := c.descs[n - 1].pageId;
      assert FrameOk(c, n - 1);
      forall f | 0 <= f < n - 1
        ensures c.descs[f].pageId != last
      {
        assert FrameOk(c, f);
      }
      assert (set f | 0 <= f < n :: c.descs[f].pageId) == before + {last};
    }
  }

  lemma {:induction false} SubsetSize<T>(a: set<T>, b: set<T>)
    requires a <= b
    ensures |a| <= |b|
  {
    assert b == a + (b - a);
  }

  lemma {:induction false} SomeSize(s: set<PageId>)
    ensures |set p | p in s :: Some(p)| == |s|
  {
    if s != {} {
      var x :| x in s;
      SomeSize(s - {x});
      assert (set p | p in s :: Some(p)) == (set p | p in s - {x} :: Some(p)) + {Some(x)};
    }
  }

  /** When fewer pages are pinned than there are frames, some frame is free for a miss. */
  lemma {:induction false} FrameLeft(c: Cache)
    requires Inv(c) && |PinnedPages(c)| < |c.descs|
    ensures !AllFramesPinned(c.descs)
  {
    if AllFramesPinned(c.descs) {
      FramesHoldDistinctPages(c, |c.descs|);
      var held := set f | 0 <= f < |c.descs| :: c.descs[f].pageId;
      var pinned := set p | p in PinnedPages(c) :: Some(p);
      forall x | x in held
        ensures x in pinned
      {
        var f :| 0 <= f < |c.descs| && c.descs[f].pageId == x;
        assert FrameOk(c, f);
        assert x.value in PinnedPages(c);
      }
      SubsetSize(held, pinned);
      SomeSize(PinnedPages(c));
    }
  }

  lemma {:induction false} ImageSize(c: Cache, fs: set<nat>)
    requires forall f :: f in fs ==> f < |c.descs|
    ensures |set f | f in fs :: c.descs[f].pageId| <= |fs|
    decreases |fs|
  {
    if fs != {} {
      var x :| x in fs;
      ImageSize(c, fs - {x});
      assert (set f | f in fs :: c.descs[f].pageId)
          == (set f | f in fs - {x} :: c.descs[f].pageId) + {c.descs[x].pageId};
    }
  }

  /** The numbers of the first n frames. */
  ghost function FrameNumbers(n: nat): (r: set<nat>)
    ensures |r| == n && forall f: nat :: f in r <==> f < n
  {
    if n == 0 then {} else FrameNumbers(n - 1) + {n - 1}
  }

  /** A frame that nobody has pinned is one frame more than there are pinned pages. */
  lemma {:induction false} FreeFrameCounts(c: Cache, free: nat)
    requires Inv(c) && free < |c.descs| && (c.descs[free].pageId.None? || c.descs[free].pins == 0)
    ensures |PinnedPages(c)| < |c.descs|
  {
    var all := FrameNumbers(|c.descs|);
    var held := set f | f in all - {free} :: c.descs[f].pageId;
    var pinned := set p | p in PinnedPages(c) :: Some(p);
    forall x | x in pinned ensures x in held {
      assert PageOk(c, x.value);
      assert c.table[x.value] in all - {free};
    }
    ImageSize(c, all - {free});
    SubsetSize(pinned, held);
    SomeSize(PinnedPages(c));
  }

  /** No frame is left exactly when as many pages are pinned as there are frames. */
  lemma {:induction false} FramesExhaustedIff(c: Cache)
    requires Inv(c)
    ensures |PinnedPages(c)| <= |c.descs|
    ensures AllFramesPinned(c.descs) <==> |PinnedPages(c)| == |c.descs|
  {
    hide Inv;
    if AllFramesPinned(c.descs) {
      if |PinnedPages(c)| < |c.descs| {
        FrameLeft(c);
      }
      PinnedFit(c);
    } else {
      var free :| 0 <= free < |c.descs| && !(c.descs[free].pageId.Some? && c.descs[free].pins > 0);
      FreeFrameCounts(c, free);
    }
  }

  lemma {:induction false} PinnedFit(c: Cache)
    requires Inv(c)
    ensures |PinnedPages(c)| <= |c.descs|
  {
    var all := FrameNumbers(|c.descs|);
    var held := set f | f in all :: c.descs[f].pageId;
    var pinned := set p | p in PinnedPages(c) :: Some(p);
    forall x | x in pinned ensures x in held {
      assert PageOk(c, x.value);
      assert c.table[x.value] in all;
    }
    ImageSize(c, all);
    SubsetSize(pinned, held);
    SomeSize(PinnedPages(c));
  }

  /** Pins that are never given back: the pages pinned afterwards, and when they use up the pool. */
  lemma {:induction false} LeakedPins(entry: Cache, now: Cache, leaks: multiset<PageId>)
    requires Inv(now) && forall p {:trigger Pins(now, p)} :: Pins(now, p) == Pins(entry, p) + leaks[p]
    ensures PinnedPages(now) == PinnedPages(entry) + (set p | p in leaks)
    ensures AllFramesPinned(now.descs) <==> |PinnedPages(entry) + (set p | p in leaks)| == |now.descs|
  {
    hide Inv;
    forall p ensures p in PinnedPages(now) <==> p in PinnedPages(entry) || p in leaks {
      assert p in PinnedPages(now) <==> Pins(now, p) > 0;
      assert p in PinnedPages(entry) <==> Pins(entry, p) > 0;
    }
    FramesExhaustedIff(now);
  }

  lemma {:induction false} SupportSize(m: multiset<PageId>)
    ensures |set p | p in m| <= |m|
    decreases |m|
  {
    if m != multiset{} {
      var x :| x in m;
      SupportSize(m - multiset{x});
      SubsetSize(set p | p in m, (set p | p in m - multiset{x}) + {x});
    }
  }

  /**
   A client that holds at most two pins of its own can always fetch one more page, if three
   frames were free of pins when it began.
   */
  lemma {:induction false} ThreeFreeFramesSuffice(atEntry: Cache, now: Cache, held: multiset<PageId>)
    requires Inv(atEntry) && Inv(now) && |now.descs| == |atEntry.descs|
    requires |PinnedPages(atEntry)| + 3 <= |atEntry.descs|
    requires |held| <= 2 && forall p :: Pins(now, p) == Pins(atEntry, p) + held[p]
    ensures !AllFramesPinned(now.descs)
  {
    var own := set p | p in held;
    forall p | p in PinnedPages(now)
      ensures p in PinnedPages(atEntry) + own
    {
      if held[p] == 0 {
        assert Pins(atEntry, p) > 0;
      }
    }
    SubsetSize(PinnedPages(now), PinnedPages(atEntry) + own);
    SupportSize(held);
    FrameLeft(now);
  }
}
