/**
 The index over the buffer pool: every request an operation makes is served by the pool. With
 three frames free of pins no request fails, and the pool's pages stay those of the index.
 */
module Pooled {
  import opened Storage
  import opened Sequences
  import opened Bytes
  import BTreeShape
  import opened BTreePage
  import opened BTreeState
  import opened PageTrace
  import opened BTree
  import opened Cache
  import opened BufferPool

  /** How a node lies in the bytes of a page. */
  datatype NodeCodec = NodeCodec(encode: Page -> Buffer, decode: Buffer -> Page)

  ghost predicate Faithful(codec: NodeCodec) {
    forall pg: Page :: codec.decode(codec.encode(pg)) == pg
  }

  /** Clients of the cache see the pages of the index. */
  ghost predicate Shows(codec: NodeCodec, c: Cache, pages: Table) {
    forall p {:trigger pages[p]} :: p in pages ==> codec.decode(Logical(c, p)) == pages[p]
  }

  ghost predicate OtherFilesSame(fileId: nat, before: Cache, now: Cache) {
    forall p: PageId {:trigger Logical(now, p)} :: p.fileId != fileId ==> Logical(now, p) == Logical(before, p)
  }

  /**
   The cache after the requests that lead to account `a`: its pins come on top of those at
   entry, its pages are what clients see, and other files are as they were.
   */
  ghost predicate Served(codec: NodeCodec, fileId: nat, entry: Cache, now: Cache, a: Account) {
    && |now.descs| == |entry.descs|
    && (forall p {:trigger Pins(now, p)} :: Pins(now, p) == Pins(entry, p) + a.pins[p])
    && now.unreported == a.unreported
    && Shows(codec, now, a.pages) && OtherFilesSame(fileId, entry, now)
  }

  ghost predicate Room(c: Cache) {
    |PinnedPages(c)| + 3 <= |c.descs|
  }

  lemma {:induction false} SamePinsSameRoom(c: Cache, c': Cache)
    requires SamePins(c, c') && |c'.descs| == |c.descs|
    ensures Room(c') <==> Room(c)
  {
    assert forall p :: p in PinnedPages(c') <==> Pins(c', p) > 0;
    assert forall p :: p in PinnedPages(c) <==> Pins(c', p) > 0;
    assert PinnedPages(c') == PinnedPages(c);
  }

  class PooledIndex {
    const index: BTreeIndex
    const pool: BufferPoolManager
    const codec: NodeCodec

    ghost predicate Valid()
      reads index, pool, pool.lru, pool.log
    {
      && index.Valid() && index.unreported == {}
      && pool.Valid() && pool.unreported == {} && Faithful(codec)
      && pool.TotalPages(index.config.fileId) == index.totalPages
      && Shows(codec, pool.Now(), index.pages)
    }

    /** Both work on the same pages, and no write is pending. */
    constructor (index: BTreeIndex, pool: BufferPoolManager, codec: NodeCodec)
      requires index.Valid() && index.unreported == {} && pool.Valid() && pool.unreported == {} && Faithful(codec)
      requires pool.TotalPages(index.config.fileId) == index.totalPages
      requires Shows(codec, pool.Now(), index.pages)
      ensures Valid() && this.index == index && this.pool == pool
    {
      this.index, this.pool, this.codec := index, pool, codec;
    }

    /** Before a request: the pool is where account `a` says, and one pin more than it has stays within three. */
    ghost predicate Ready(entry: Cache, a: Account)
      reads pool, pool.lru, pool.log
    {
      && pool.Valid() && Faithful(codec)
      && Inv(entry) && Room(entry)
      && Served(codec, index.config.fileId, entry, pool.Now(), a)
      && pool.TotalPages(index.config.fileId) == a.total
    }

    method ServeFetch(p: PageId, ghost entry: Cache, ghost a: Account) returns (r: Result<nat, BufferError>)
      requires Ready(entry, a) && |a.pins| <= 2 && p in a.pages
      modifies pool, pool.lru, pool.log
      ensures r.Ok? && r.value < |pool.frames| && codec.decode(pool.frames[r.value]) == a.pages[p]
      ensures Ready(entry, Do(a, FetchOp(p)))
      ensures pool.log.History() == old(pool.log.History())
    {
      ThreeFreeFramesSuffice(entry, pool.Now(), a.pins);
      r := pool.FetchPage(p);
    }

    method ServeNew(ghost entry: Cache, ghost a: Account) returns (r: Result<(nat, PageId), BufferError>)
      requires Ready(entry, a) && |a.pins| <= 2
      modifies pool, pool.lru, pool.log
      ensures r.Ok? && r.value.1 == NextId(index.config, a.total)
      ensures Ready(entry, Do(a, NewOp(NextId(index.config, a.total))))
      ensures pool.log.History() == old(pool.log.History())
    {
      ThreeFreeFramesSuffice(entry, pool.Now(), a.pins);
      r := pool.NewPage(index.config.fileId);
    }

    method ServeWrite(p: PageId, pg: Page, ghost entry: Cache, ghost a: Account)
      requires Ready(entry, a) && p in a.pins && p.fileId == index.config.fileId
      modifies pool, pool.lru, pool.log
      ensures Ready(entry, Do(a, WriteOp(p, pg)))
      ensures pool.log.History() == old(pool.log.History())
    {
      assert Pins(pool.Now(), p) > 0;
      assert PageOk(pool.Now(), p);
      pool.WritePage(pool.pageTable[p], codec.encode(pg));
    }

    method ServeUnpin(p: PageId, dirty: bool, ghost entry: Cache, ghost a: Account) returns (r: Result<(), BufferError>)
      requires Ready(entry, a) && p in a.pins && (p in a.unreported && a.pins[p] == 1 ==> dirty)
      modifies pool, pool.lru, pool.log
      ensures r == Ok(())
      ensures Ready(entry, Do(a, UnpinOp(p, dirty)))
      ensures pool.log.History() == old(pool.log.History())
    {
      assert Pins(pool.Now(), p) > 0;
      r := pool.UnpinPage(p, dirty);
    }

    /** Serves one request. */
    method ServeOne(op: PageOp, ghost entry: Cache, ghost a: Account) returns (r: Result<(), BufferError>)
      requires Ready(entry, a) && Allowed(index.config, a, op) && |a.pins| <= a.peak && Do(a, op).peak <= 3
      requires forall p :: p in a.pins ==> p.fileId == index.config.fileId
      modifies pool, pool.lru, pool.log
      ensures r == Ok(()) && Ready(entry, Do(a, op))
      ensures pool.log.History() == old(pool.log.History())
    {
      hide Ready;
      match op
      case FetchOp(p) =>
        var frame := ServeFetch(p, entry, a);
        r := match frame case Ok(_) => Ok(()) case Err(e) => Err(e);
      case NewOp(p) =>
        var page := ServeNew(entry, a);
        r := match page case Ok(_) => Ok(()) case Err(e) => Err(e);
      case WriteOp(p, pg) =>
        ServeWrite(p, pg, entry, a);
        return Ok(());
      case UnpinOp(p, dirty) =>
        r := ServeUnpin(p, dirty, entry, a);
    }

    /** Serves every request of the account, in order; none fails. */
    method Serve(ghost entry: Cache) returns (r: Result<(), BufferError>)
      requires index.Traced() && index.begun.pins == multiset{} && index.peak <= 3
      requires IdsOk(index.config, index.begun.pages, index.begun.total) && Ready(entry, index.begun)
      modifies pool, pool.lru, pool.log
      ensures r == Ok(())
      ensures Ready(entry, Account(index.pages, index.totalPages, index.pins, index.peak, index.unreported))
      ensures pool.log.History() == old(pool.log.History())
    {
      hide Ready, Allowed, Do, IdsOk;
      var ops := index.issued;
      ghost var from := index.begun;
      assert After(from, ops[..0]) == from;
      for i := 0 to |ops|
        invariant Ready(entry, After(from, ops[..i])) && pool.log.History() == old(pool.log.History())
      {
        AfterStep(index.config, from, ops, i);
        AccountKeeps(index.config, from, ops[..i]);
        var one := ServeOne(ops[i], entry, After(from, ops[..i]));
        if one.Err? {
          return one;
        }
      }
      assert ops[..|ops|] == ops;
      return Ok(());
    }

    /** What an operation finds and leaves behind, apart from its own effect. */
    twostate predicate Undisturbed()
      reads index, pool, pool.lru, pool.log
    {
      && |pool.descs| == old(|pool.descs|)
      && OtherFilesSame(index.config.fileId, old(pool.Now()), pool.Now())
      && pool.log.History() == old(pool.log.History())
    }

    /** Opening the account of one operation. */
    method Begin()
      requires Valid() && Room(pool.Now())
      modifies index
      ensures Valid() && index.Quiet() && index.pins == multiset{} && index.peak == 0
      ensures index.begun.pins == multiset{} && Ready(pool.Now(), index.begun)
      ensures IdsOk(index.config, index.begun.pages, index.begun.total)
      ensures index.contents == old(index.contents) && index.root == old(index.root)
      ensures index.shape == old(index.shape) && index.pages == old(index.pages)
    {
      hide Inv;
      index.Begin();
    }

    method Insert(key: Key, val: Ctid) returns (r: Result<(), TreeError>, served: Result<(), BufferError>)
      requires Valid() && Room(pool.Now())
      modifies index, pool, pool.lru, pool.log
      ensures Valid() && Room(pool.Now()) && served == Ok(())
      ensures r == if key in old(index.contents) then Err(DuplicateKey) else Ok(())
      ensures index.contents == if r.Ok? then old(index.contents)[key := val] else old(index.contents)
      ensures SamePins(old(pool.Now()), pool.Now()) && Undisturbed()
    {
      hide Room, Inv, BTreeIndex.Valid, BufferPoolManager.Valid, BTreeIndex.Traced;
      ghost var entry := pool.Now();
      Begin();
      r := index.Insert(key, val);
      served := Serve(entry);
      SamePinsSameRoom(entry, pool.Now());
    }

    method Search(key: Key) returns (r: Result<Ctid, TreeError>, served: Result<(), BufferError>)
      requires Valid() && Room(pool.Now())
      modifies index, pool, pool.lru, pool.log
      ensures Valid() && Room(pool.Now()) && served == Ok(())
      ensures r == if key in old(index.contents) then Ok(old(index.contents)[key]) else Err(KeyNotFound)
      ensures index.contents == old(index.contents)
      ensures SamePins(old(pool.Now()), pool.Now()) && Undisturbed()
    {
      hide Room, Inv, BTreeIndex.Valid, BufferPoolManager.Valid, BTreeIndex.Traced;
      ghost var entry := pool.Now();
      Begin();
      r := index.Search(key);
      served := Serve(entry);
      SamePinsSameRoom(entry, pool.Now());
    }

    method Delete(key: Key) returns (r: Result<(), TreeError>, served: Result<(), BufferError>)
      requires Valid() && Room(pool.Now())
      modifies index, pool, pool.lru, pool.log
      ensures Valid() && Room(pool.Now()) && served == Ok(())
      ensures r == if key in old(index.contents) then Ok(()) else Err(KeyNotFound)
      ensures index.contents == old(index.contents) - {key}
      ensures SamePins(old(pool.Now()), pool.Now()) && Undisturbed()
    {
      hide Room, Inv, BTreeIndex.Valid, BufferPoolManager.Valid, BTreeIndex.Traced;
      ghost var entry := pool.Now();
      Begin();
      r := index.Delete(key);
      served := Serve(entry);
      SamePinsSameRoom(entry, pool.Now());
    }

    /** The scan is served as well, but its first leaf keeps a pin. */
    method RangeSearch(a: Key, b: Key)
        returns (results: seq<Ctid>, ghost keys: seq<int>, served: Result<(), BufferError>)
      requires Valid() && Room(pool.Now())
      modifies index, pool, pool.lru, pool.log
      ensures Valid() && served == Ok(()) && index.contents == old(index.contents)
      ensures index.root == old(index.root) && index.shape == old(index.shape)
      ensures StrictlySorted(keys) && |keys| == |results|
      ensures forall k :: k in keys <==> k in index.contents && a <= k <= b
      ensures forall i :: 0 <= i < |keys| ==> keys[i] in index.contents && results[i] == index.contents[keys[i]]
      ensures index.root.None? ==> SamePins(old(pool.Now()), pool.Now())
      ensures index.root.Some? ==>
                exists leaf :: Covers(index.shape, leaf, a) && PinsChanged(old(pool.Now()), pool.Now(), leaf, 1)
      ensures Undisturbed()
    {
      hide Room, Inv, BTreeIndex.Valid, BufferPoolManager.Valid, BTreeIndex.Traced;
      ghost var entry := pool.Now();
      Begin();
      results, keys := index.RangeSearch(a, b);
      ghost var leaf: PageId;
      if index.root.Some? {
        leaf :| Covers(index.shape, leaf, a) && index.pins == multiset{leaf};
      }
      served := Serve(entry);
      assert index.root.Some? ==> PinsChanged(entry, pool.Now(), leaf, 1);
    }

    lemma {:induction false} CacheOk()
      requires Valid()
      ensures Inv(pool.Now())
    {
    }

    /**
     Scans one after the other. Each leaves a pin on the leaf covering its lower bound, so n scans
     need n - 1 frames more than one; `LeakedPins` says when the pins left use up the pool.
     */
    method RangeScans(queries: seq<(Key, Key)>)
        returns (results: seq<seq<Ctid>>, served: Result<(), BufferError>, ghost leaves: seq<PageId>)
      requires Valid() && |PinnedPages(pool.Now())| + |queries| + 2 <= |pool.descs|
      modifies index, pool, pool.lru, pool.log
      ensures Valid() && served == Ok(()) && |pool.descs| == old(|pool.descs|)
      ensures index.contents == old(index.contents) && index.root == old(index.root) && |results| == |queries|
      ensures forall i {:trigger results[i]} :: 0 <= i < |queries| ==>
                ValuesBetween(index.contents, queries[i].0, queries[i].1, results[i])
      ensures |leaves| == if index.root.Some? then |queries| else 0
      ensures forall i {:trigger leaves[i]} :: 0 <= i < |leaves| ==> Covers(index.shape, leaves[i], queries[i].0)
      ensures forall p {:trigger Pins(pool.Now(), p)} ::
                Pins(pool.Now(), p) == Pins(old(pool.Now()), p) + multiset(leaves)[p]
    {
      hide BTreeIndex.Valid, BufferPoolManager.Valid, Inv, ValuesBetween;
      results, served, leaves := [], Ok(()), [];
      ghost var entry := pool.Now();
      for i := 0 to |queries|
        invariant Valid() && served == Ok(()) && |pool.descs| == old(|pool.descs|)
        invariant index.contents == old(index.contents) && index.root == old(index.root) && |results| == i
        invariant forall j {:trigger results[j]} :: 0 <= j < i ==>
                    ValuesBetween(index.contents, queries[j].0, queries[j].1, results[j])
        invariant index.shape == old(index.shape) && |leaves| == if index.root.Some? then i else 0
        invariant forall j {:trigger leaves[j]} :: 0 <= j < |leaves| ==> Covers(index.shape, leaves[j], queries[j].0)
        invariant forall p {:trigger Pins(pool.Now(), p)} ::
                    Pins(pool.Now(), p) == Pins(entry, p) + multiset(leaves)[p]
      {
        CacheOk();
        RoomAfterLeaks(entry, pool.Now(), leaves);
        ghost var before := pool.Now();
        var found;
        ghost var keys;
        found, keys, served := RangeSearch(queries[i].0, queries[i].1);
        Answers(index.contents, queries[i].0, queries[i].1, found, keys);
        results := results + [found];
        if index.root.Some? {
          ghost var leaf :|
            Covers(index.shape, leaf, queries[i].0) && PinsChanged(before, pool.Now(), leaf, 1);
          leaves := leaves + [leaf];
        }
      }
    }
  }

  ghost predicate Covers(shape: BTreeShape.Shape, leaf: PageId, key: int) {
    leaf in shape && shape[leaf].lo <= key < shape[leaf].hi
  }

  /** The values of the keys in [a, b], by ascending key. */
  ghost predicate ValuesBetween(m: map<int, Ctid>, a: int, b: int, values: seq<Ctid>) {
    exists keys: seq<int> ::
      && StrictlySorted(keys) && |keys| == |values|
      && (forall k :: k in keys <==> k in m && a <= k <= b)
      && forall i :: 0 <= i < |keys| ==> keys[i] in m && values[i] == m[keys[i]]
  }

  lemma {:induction false} Answers(m: map<int, Ctid>, a: int, b: int, values: seq<Ctid>, keys: seq<int>)
    requires StrictlySorted(keys) && |keys| == |values|
    requires forall k :: k in keys <==> k in m && a <= k <= b
    requires forall i :: 0 <= i < |keys| ==> keys[i] in m && values[i] == m[keys[i]]
    ensures ValuesBetween(m, a, b, values)
  {
  }

  lemma {:induction false} RoomAfterLeaks(entry: Cache, now: Cache, leaves: seq<PageId>)
    requires Inv(now) && |PinnedPages(entry)| + |leaves| + 3 <= |now.descs|
    requires forall p {:trigger Pins(now, p)} :: Pins(now, p) == Pins(entry, p) + multiset(leaves)[p]
    ensures Room(now)
  {
    hide Inv;
    LeakedPins(entry, now, multiset(leaves));
    var left := set p | p in multiset(leaves);
    SupportSize(multiset(leaves));
    SubsetSize(PinnedPages(now), PinnedPages(entry) + left);
    assert |PinnedPages(entry) + left| <= |PinnedPages(entry)| + |left|;
  }
}
