/**
 The B+ tree index: pages edited in place between a fetch and an unpin.

 Every public operation is proved against the finite map `contents`. The tree sees the
 buffer pool through its pins: a fetched page is pinned once more, a new page is the next
 one of the index file, and a page is written only while it is pinned. It keeps an account of
 its requests, from which `Pooled` shows that the pool serves all of them.
 */
module BTree {
  import opened Storage
  import opened Sequences
  import opened BTreeShape
  import opened BTreeSplit
  import opened BTreeMerge
  import opened BTreePage
  import opened BTreeState
  import opened PageTrace

  datatype TreeError = KeyNotFound | DuplicateKey

  lemma {:induction false} RemoveAbsent(m: map<int, Ctid>, key: int)
    requires key !in m
    ensures m - {key} == m
  {
  }

  class BTreeIndex {
    const config: Config

    var pages: map<PageId, Page>
    var root: Option<PageId>
    var totalPages: nat
    /** The pins taken since the account was opened, page by page, and the most held at once. */
    var pins: multiset<PageId>
    ghost var peak: nat
    /** The requests made of the pool since the account was opened, and the writes not reported yet. */
    var issued: seq<PageOp>
    ghost var begun: Account
    ghost var unreported: set<PageId>

    ghost var shape: Shape
    ghost var contents: map<int, Ctid>

    ghost predicate Valid()
      reads this`pages, this`totalPages, this`root, this`shape, this`contents
    {
      TreeOk(config, pages, totalPages, root, shape, contents)
    }

    /**
     Opens the index file at its root page, or without one. The contents are those the pages
     under the root represent; without a root the index is empty, whatever pages the file has.
     */
    constructor (config: Config, pages: map<PageId, Page>, totalPages: nat, root: Option<PageId>,
                 ghost shape: Shape, ghost contents: map<int, Ctid>)
      requires Formed(config, pages, totalPages)
      requires root.Some? ==> TreeOk(config, pages, totalPages, root, shape, contents)
      ensures Valid() && this.contents == if root.None? then map[] else contents
      ensures this.config == config && this.pages == pages && this.totalPages == totalPages && this.root == root
      ensures pins == multiset{} && peak == 0 && Quiet()
    {
      this.config, this.pages, this.totalPages, this.root := config, pages, totalPages, root;
      pins, peak, issued, unreported := multiset{}, 0, [], {};
      begun := Account(pages, totalPages, multiset{}, 0, {});
      this.shape, this.contents := if root.None? then map[] else shape, if root.None? then map[] else contents;
    }

    // ----- The buffer pool as the index uses it

    /** The requests made since the account was opened are legal and lead to the state of this index. */
    ghost predicate Traced()
      reads this`pages, this`totalPages, this`pins, this`peak, this`unreported, this`issued, this`begun
    {
      Leads(config, begun, issued, Account(pages, totalPages, pins, peak, unreported))
    }

    /** Between operations every write has been reported. */
    ghost predicate Quiet()
      reads this`pages, this`totalPages, this`pins, this`peak, this`unreported, this`issued, this`begun
    {
      Traced() && unreported == {}
    }

    /** Opens a new account; pins left behind by earlier range scans do not count in it. */
    method Begin()
      requires unreported == {}
      modifies this`pins, this`peak, this`issued, this`begun
      ensures Quiet() && pins == multiset{} && peak == 0
      ensures begun == Account(pages, totalPages, multiset{}, 0, {})
    {
      pins, peak, issued := multiset{}, 0, [];
      begun := Account(pages, totalPages, multiset{}, 0, {});
    }

    method Fetch(p: PageId)
      requires p in pages
      modifies this`pins, this`peak, this`issued
      ensures pins == old(pins) + multiset{p}
      ensures peak == Max(old(peak), |pins|)
      ensures old(Traced()) ==> Traced()
    {
      Request(FetchOp(p));
      pins := pins + multiset{p};
      peak := Max(peak, |pins|);
      issued := issued + [FetchOp(p)];
    }

    method Unpin(p: PageId, dirty: bool)
      requires p in pins
      modifies this`pins, this`issued, this`unreported
      ensures pins == old(pins) - multiset{p}
      ensures unreported == if dirty then old(unreported) - {p} else old(unreported)
      ensures old(Traced()) && (dirty || p !in old(unreported)) ==> Traced()
    {
      Request(UnpinOp(p, dirty));
      pins := pins - multiset{p};
      unreported := if dirty then unreported - {p} else unreported;
      issued := issued + [UnpinOp(p, dirty)];
    }

    method NewPage() returns (p: PageId)
      modifies this`totalPages, this`pins, this`peak, this`issued
      ensures p == NextId(config, old(totalPages)) && totalPages == old(totalPages) + 1
      ensures pins == old(pins) + multiset{p}
      ensures peak == Max(old(peak), |pins|)
      ensures old(Traced()) ==> Traced()
    {
      p := PageId(config.fileId, totalPages);
      Request(NewOp(p));
      totalPages := totalPages + 1;
      pins := pins + multiset{p};
      peak := Max(peak, |pins|);
      issued := issued + [NewOp(p)];
    }

    method Write(p: PageId, pg: Page)
      requires p in pins
      modifies this`pages, this`issued, this`unreported
      ensures pages == old(pages)[p := pg]
      ensures unreported == old(unreported) + {p}
      ensures old(Traced()) ==> Traced()
    {
      Request(WriteOp(p, pg));
      pages := pages[p := pg];
      unreported := unreported + {p};
      issued := issued + [WriteOp(p, pg)];
    }

    /** One request more keeps the trace. */
    lemma {:induction false} Request(op: PageOp)
      ensures var now := Account(pages, totalPages, pins, peak, unreported);
              Traced() && Allowed(config, now, op) ==> Leads(config, begun, issued + [op], Do(now, op))
    {
      var now := Account(pages, totalPages, pins, peak, unreported);
      if Traced() && Allowed(config, now, op) {
        LeadsOn(config, begun, issued, now, op);
      }
    }

    // ----- Lookup

    method FindLeafPage(key: Key) returns (r: Option<PageId>)
      requires Valid()
      modifies this`pins, this`peak, this`issued, this`unreported
      ensures r.None? <==> root.None?
      ensures r.None? ==> pins == old(pins) && peak == old(peak)
      ensures r.Some? ==>
                && r.value in shape && r.value in pages && pages[r.value].LeafPage?
                && shape[r.value].lo <= key < shape[r.value].hi
                && pins == old(pins) + multiset{r.value}
                && peak <= Max(old(peak), |old(pins)| + 1)
      ensures old(Quiet()) ==> Quiet()
    {
      hide Traced, TreeOk;
      if root.None? {
        return None;
      }
      var curr := root.value;
      RootCovers(config, pages, totalPages, curr, shape, contents, key);
      while true
        invariant curr in shape && shape[curr].lo <= key < shape[curr].hi
        invariant pins == old(pins) && peak <= Max(old(peak), |old(pins)| + 1)
        invariant old(Quiet()) ==> Quiet()
        decreases shape[curr].level
      {
        var next := Descend(curr, key);
        if next.None? {
          return Some(curr);
        }
        curr := next.value;
      }
    }

    /** One level of the descent: a leaf stays pinned, an internal page leads to the child that covers the key. */
    method Descend(curr: PageId, key: Key) returns (next: Option<PageId>)
      requires Valid() && root.Some? && curr in shape && shape[curr].lo <= key < shape[curr].hi
      modifies this`pins, this`peak, this`issued, this`unreported
      ensures next.None? ==> curr in pages && pages[curr].LeafPage? && pins == old(pins) + multiset{curr}
      ensures next.Some? ==>
                && next.value in shape && shape[next.value].lo <= key < shape[next.value].hi
                && shape[next.value].level < shape[curr].level && pins == old(pins)
      ensures peak <= Max(old(peak), |old(pins)| + 1)
      ensures old(Quiet()) ==> Quiet()
    {
      hide Traced, TreeOk;
      Reachable(config, pages, totalPages, root.value, shape, contents, curr);
      Fetch(curr);
      var page := pages[curr];
      if page.LeafPage? {
        return None;
      }
      Route(config, pages, totalPages, root.value, shape, contents, curr, key);
      next := Some(page.childSlots[RouteIndex(page.keySlots[..page.numKeys], key)]);
      Unpin(curr, false);
      assert pins == old(pins);
    }

    method Search(key: Key) returns (r: Result<Ctid, TreeError>)
      requires Valid()
      modifies this`pins, this`peak, this`issued, this`unreported
      ensures r == if key in contents then Ok(contents[key]) else Err(KeyNotFound)
      ensures pins == old(pins)
      ensures peak <= Max(old(peak), |pins| + 1)
      ensures old(Quiet()) ==> Quiet()
    {
      hide Traced, TreeOk;
      EmptyTree();
      var leaf := FindLeafPage(key);
      if leaf.None? {
        return Err(KeyNotFound);
      }
      var page := pages[leaf.value];
      LeafAnswers(config, pages, totalPages, root.value, shape, contents, leaf.value, key);
      var found := BinarySearch(page.keySlots[..page.numKeys], key);
      Unpin(leaf.value, false);
      if found.Found? {
        return Ok(page.valSlots[found.at]);
      }
      return Err(KeyNotFound);
    }

    lemma {:induction false} EmptyTree()
      requires Valid()
      ensures root.None? ==> contents == map[] && shape == map[]
    {
    }

    // ----- Insertion

    method Insert(key: Key, val: Ctid) returns (r: Result<(), TreeError>)
      requires Valid()
      modifies this
      ensures Valid()
      ensures key in old(contents) ==>
                && r == Err(DuplicateKey) && contents == old(contents)
                && pages == old(pages) && root == old(root)
      ensures key !in old(contents) ==> r == Ok(()) && contents == old(contents)[key := val]
      ensures pins == old(pins)
      ensures peak <= Max(old(peak), |pins| + 3)
      ensures begun == old(begun) && (old(Quiet()) ==> Quiet())
    {
      hide Traced, TreeOk;
      EmptyTree();
      if root.None? {
        CreateRootAndInsert(key, val);
        return Ok(());
      }
      var leaf := FindLeafPage(key);
      r := InsertIntoLeaf(leaf.value, key, val);
      assert pins == old(pins);
    }

    method CreateRootAndInsert(key: Key, val: Ctid)
      requires Valid() && root.None?
      modifies this
      ensures Valid() && contents == map[key := val]
      ensures pins == old(pins) && peak <= Max(old(peak), |pins| + 1)
      ensures begun == old(begun) && (old(Quiet()) ==> Quiet())
    {
      hide Traced, TreeOk;
      EmptyTree();
      FirstLeafState(config, pages, totalPages, key, val);
      var p := NewWritten(FirstLeaf(config.leafMax, key, val));
      root := Some(p);
      shape, contents := map[p := Info(KEY_MIN, KEY_END, 0)], map[key := val];
    }

    /** A new page, written and reported. */
    method NewWritten(pg: Page) returns (p: PageId)
      modifies this`pages, this`totalPages, this`pins, this`peak, this`issued, this`unreported
      ensures p == NextId(config, old(totalPages)) && totalPages == old(totalPages) + 1
      ensures pages == old(pages)[p := pg]
      ensures pins == old(pins) && peak <= Max(old(peak), |pins| + 1)
      ensures old(Quiet()) ==> Quiet()
    {
      hide Traced;
      p := NewPage();
      Write(p, pg);
      Unpin(p, true);
      assert pins == old(pins);
    }

    method InsertIntoLeaf(p: PageId, key: Key, val: Ctid) returns (r: Result<(), TreeError>)
      requires Valid() && root.Some? && p in shape && p in pages && pages[p].LeafPage?
      requires shape[p].lo <= key < shape[p].hi
      requires p in pins
      modifies this
      ensures Valid()
      ensures key in old(contents) ==>
                && r == Err(DuplicateKey) && contents == old(contents)
                && pages == old(pages) && root == old(root)
      ensures key !in old(contents) ==> r == Ok(()) && contents == old(contents)[key := val]
      ensures pins == old(pins) - multiset{p}
      ensures peak <= Max(old(peak), |pins| + 3)
      ensures begun == old(begun) && (old(Quiet()) ==> Quiet())
    {
      hide Traced, TreeOk;
      var leaf := pages[p];
      LeafAnswers(config, pages, totalPages, root.value, shape, contents, p, key);
      var found := BinarySearch(leaf.keySlots[..leaf.numKeys], key);
      if found.Found? {
        Unpin(p, false);
        return Err(DuplicateKey);
      }
      if leaf.numKeys < leaf.maxKeys {
        PutState(config, pages, totalPages, root.value, shape, contents, p, key, val);
        WriteAndUnpin(p, LeafWithPair(leaf, found.at, key, val));
        contents := contents[key := val];
        return Ok(());
      }
      Unpin(p, false);
      SplitLeaf(p, key, val);
      return Ok(());
    }

    /** Writing a pinned page and reporting it with the pin. */
    method WriteAndUnpin(p: PageId, pg: Page)
      requires p in pins
      modifies this`pages, this`pins, this`issued, this`unreported
      ensures pages == old(pages)[p := pg] && pins == old(pins) - multiset{p}
      ensures old(Quiet()) ==> Quiet()
    {
      hide Traced;
      Write(p, pg);
      Unpin(p, true);
    }

    method SplitLeaf(p: PageId, key: Key, val: Ctid)
      requires Valid() && root.Some? && p in shape && p in pages && pages[p].LeafPage?
      requires shape[p].lo <= key < shape[p].hi && key !in contents
      requires Sized(pages[p], config.leafMax, config.internalMax) && pages[p].numKeys == pages[p].maxKeys
      modifies this
      ensures Valid() && contents == old(contents)[key := val]
      ensures pins == old(pins) && peak <= Max(old(peak), |pins| + 3)
      ensures begun == old(begun) && (old(Quiet()) ==> Quiet())
    {
      hide Traced, TreeOk, Owes, CutLeafPages, CuttableLeaf;
      var leaf := pages[p];
      var total := leaf.numKeys;
      var mid := total / 2;
      var at := BinarySearch(leaf.keySlots[..total], key).at;
      var tempKeys := InsertAt(leaf.keySlots[..total], at, key);
      var tempVals := InsertAt(leaf.valSlots[..total], at, val);
      SplitLeafState(config, pages, totalPages, root.value, shape, contents, p, key, val, tempKeys, tempVals, mid);
      var promoted, q := CutLeaf(p, tempKeys, tempVals, mid);
      InsertIntoParent(p, promoted, q, leaf.parent,
                       ShapeAfterSplit(shape, p, tempKeys[mid], q, p == root.value, NextId(config, totalPages)),
                       contents[key := val]);
    }

    /** The page writes of split_leaf: both halves, the right one on a new page. */
    method CutLeaf(p: PageId, keys: seq<int>, vals: seq<Ctid>, mid: nat)
        returns (promoted: int, q: PageId)
      requires CuttableLeaf(pages, p, keys, vals, mid) && p != NextId(config, totalPages)
      modifies this`pages, this`totalPages, this`pins, this`peak, this`issued, this`unreported
      ensures q == NextId(config, old(totalPages)) && totalPages == old(totalPages) + 1
      ensures pages == CutLeafPages(old(pages), p, keys, vals, mid, q) && promoted == keys[mid]
      ensures pins == old(pins) && peak <= Max(old(peak), |pins| + 2)
      ensures old(Quiet()) ==> Quiet()
    {
      hide Traced, LeafLower, LeafUpper;
      q := PinWithNew(p);
      var leaf := pages[p];
      Write(p, LeafLower(leaf, keys, vals, mid, q));
      var upper := LeafUpper(leaf, keys, vals, mid);
      Write(q, upper);
      LeafUpperFirst(leaf, keys, vals, mid);
      promoted := upper.keySlots[0];
      UnpinPair(p, q, true, true);
      assert pins == old(pins);
    }

    /** An existing page and the next new one. */
    method PinWithNew(p: PageId) returns (q: PageId)
      requires p in pages
      modifies this`totalPages, this`pins, this`peak, this`issued
      ensures q == NextId(config, old(totalPages)) && totalPages == old(totalPages) + 1
      ensures pins == old(pins) + multiset{p, q} && peak <= Max(old(peak), |old(pins)| + 2)
      ensures old(Traced()) ==> Traced()
    {
      hide Traced;
      Fetch(p);
      q := NewPage();
    }

    method InsertIntoParent(p: PageId, key: int, q: PageId, parent: PageId,
                            ghost shape': Shape, ghost m: map<int, Ctid>)
      requires root.Some? && Owes(config, pages, totalPages, root.value, p, key, q, parent, shape', m)
      modifies this
      ensures Valid() && contents == m
      ensures pins == old(pins) && peak <= Max(old(peak), |pins| + 3)
      ensures begun == old(begun) && (old(Quiet()) ==> Quiet())
      decreases Climb(shape', root.value, parent), 1
    {
      hide Traced, TreeOk, Owes, Overfull, InternalWithChild;
      OwedPages(config, pages, totalPages, root.value, p, key, q, parent, shape', m);
      if parent == INVALID_PAGE_ID {
        CreateNewRoot(p, key, q, shape', m);
        return;
      }
      var page := pages[parent];
      if page.numKeys < page.maxKeys {
        ParentRoomState(config, pages, totalPages, root.value, p, key, q, parent, shape', m);
        TakeChild(parent, key, q);
        shape, contents := shape', m;
      } else {
        ParentFullState(config, pages, totalPages, root.value, p, key, q, parent, shape', m);
        Peek(parent);
        SplitInternal(parent, key, q, shape', m);
      }
    }

    /** Looking at a page and letting it go unchanged. */
    method Peek(p: PageId)
      requires p in pages
      modifies this`pins, this`peak, this`issued, this`unreported
      ensures pins == old(pins) && peak == Max(old(peak), |pins| + 1)
      ensures old(Quiet()) ==> Quiet()
    {
      hide Traced;
      Fetch(p);
      Unpin(p, false);
      assert pins == old(pins);
    }

    /** The page writes of insert_into_parent when the parent has room. */
    method TakeChild(parent: PageId, key: int, q: PageId)
      requires parent in pages && pages[parent].InternalPage?
      requires Sized(pages[parent], pages[parent].maxKeys, pages[parent].maxKeys)
      requires pages[parent].numKeys < pages[parent].maxKeys
      modifies this`pages, this`pins, this`peak, this`issued, this`unreported
      ensures var page := old(pages[parent]);
              var at := LowerBound(page.keySlots[..page.numKeys], key);
              pages == old(pages)[parent := InternalWithChild(page, at, key, q)]
      ensures pins == old(pins) && peak == Max(old(peak), |pins| + 1)
      ensures old(Quiet()) ==> Quiet()
    {
      hide Traced, InternalWithChild;
      Fetch(parent);
      var page := pages[parent];
      var at := BinarySearch(page.keySlots[..page.numKeys], key).at;
      Write(parent, InternalWithChild(page, at, key, q));
      Unpin(parent, true);
      assert pins == old(pins);
    }

    method CreateNewRoot(p: PageId, key: int, q: PageId, ghost shape': Shape, ghost m: map<int, Ctid>)
      requires root.Some? && Owes(config, pages, totalPages, root.value, p, key, q, INVALID_PAGE_ID, shape', m)
      modifies this
      ensures Valid() && contents == m
      ensures pins == old(pins) && peak <= Max(old(peak), |pins| + 3)
      ensures begun == old(begun) && (old(Quiet()) ==> Quiet())
    {
      hide Traced, TreeOk, Owes, NewRootPages;
      OwedPages(config, pages, totalPages, root.value, p, key, q, INVALID_PAGE_ID, shape', m);
      NewRootState(config, pages, totalPages, root.value, p, key, q, shape', m);
      var r := LinkNewRoot(p, key, q);
      root := Some(r);
      shape, contents := shape', m;
    }

    /** The page writes of create_new_root. */
    method LinkNewRoot(p: PageId, key: int, q: PageId) returns (r: PageId)
      requires p in pages && q in pages && p != q && config.internalMax > 0
      modifies this`pages, this`totalPages, this`pins, this`peak, this`issued, this`unreported
      ensures r == NextId(config, old(totalPages)) && totalPages == old(totalPages) + 1
      ensures pages == NewRootPages(old(pages), config.internalMax, p, key, q, r)
      ensures pins == old(pins) && peak <= Max(old(peak), |pins| + 2)
      ensures old(Quiet()) ==> Quiet()
    {
      hide Traced, FirstInternal;
      r := NewPage();
      var top := FirstInternal(config.internalMax, p, key, q);
      UpdateParentId(p, r);
      UpdateParentId(q, r);
      Write(r, top);
      Unpin(r, true);
      assert pins == old(pins);
    }

    method UpdateParentId(c: PageId, parent: PageId)
      requires c in pages
      modifies this`pages, this`pins, this`peak, this`issued, this`unreported
      ensures pages == old(pages)[c := old(pages)[c].(parent := parent)]
      ensures pins == old(pins) && peak == Max(old(peak), |pins| + 1)
      ensures unreported == old(unreported) - {c} && (old(Traced()) ==> Traced())
    {
      hide Traced;
      Fetch(c);
      Write(c, pages[c].(parent := parent));
      Unpin(c, true);
      assert pins == old(pins);
    }

    method SplitInternal(p: PageId, key: int, child: PageId, ghost shape': Shape, ghost m: map<int, Ctid>)
      requires root.Some? && Overfull(config, pages, totalPages, root.value, p, key, child, shape', m)
      modifies this
      ensures Valid() && contents == m
      ensures pins == old(pins) && peak <= Max(old(peak), |pins| + 3)
      ensures begun == old(begun) && (old(Quiet()) ==> Quiet())
      decreases Climb(shape', root.value, p), 0
    {
      hide Traced, TreeOk, Owes, Overfull;
      ghost var shape'';
      var promoted, q, up;
      promoted, q, up, shape'' := CutOverfull(p, key, child, shape', m);
      InsertIntoParent(p, promoted, q, up, shape'', m);
    }

    /** Splits a parent without room; its own parent is owed the promoted key. */
    method CutOverfull(p: PageId, key: int, child: PageId, ghost shape': Shape, ghost m: map<int, Ctid>)
        returns (promoted: int, q: PageId, up: PageId, ghost shape'': Shape)
      requires root.Some? && Overfull(config, pages, totalPages, root.value, p, key, child, shape', m)
      modifies this`pages, this`totalPages, this`pins, this`peak, this`issued, this`unreported
      ensures Owes(config, pages, totalPages, root.value, p, promoted, q, up, shape'', m)
      ensures Climb(shape'', root.value, up) < Climb(shape', root.value, p)
      ensures pins == old(pins) && peak <= Max(old(peak), |pins| + 3)
      ensures old(Quiet()) ==> Quiet()
    {
      hide Traced, Owes, Overfull, Gathered, Climb, ShapeAfterSplit, CutInternalPages, CuttableInternal;
      OverfullPage(config, pages, totalPages, root.value, p, key, child, shape', m);
      var page := pages[p];
      var keys, kids, mid := GatherInternal(page, key, child);
      SplitInternalState(config, pages, totalPages, root.value, p, key, child, shape', m, keys, kids, mid);
      shape'' := ShapeAfterSplit(shape', p, keys[mid], NextId(config, totalPages), p == root.value,
                                 NextId(config, totalPages + 1));
      q := CutInternal(p, keys, kids, mid);
      promoted, up := keys[mid], page.parent;
    }

    /** The temporary arrays of split_internal. */
    method GatherInternal(page: Page, key: int, child: PageId)
        returns (keys: seq<int>, kids: seq<PageId>, mid: nat)
      requires page.InternalPage? && Sized(page, page.maxKeys, page.maxKeys)
      ensures Gathered(page, key, child, keys, kids, mid)
      ensures mid < |keys| && |kids| == |keys| + 1
    {
      var n := page.numKeys;
      var at := BinarySearch(page.keySlots[..n], key).at;
      keys := InsertAt(page.keySlots[..n], at, key);
      kids := InsertAt(page.childSlots[..n + 1], at + 1, child);
      mid := |keys| / 2;
    }

    /** The page writes of split_internal: both halves, then the parent of every moved child. */
    method CutInternal(p: PageId, keys: seq<int>, kids: seq<PageId>, mid: nat) returns (q: PageId)
      requires CuttableInternal(pages, p, keys, kids, mid) && p != NextId(config, totalPages)
      modifies this`pages, this`totalPages, this`pins, this`peak, this`issued, this`unreported
      ensures q == NextId(config, old(totalPages)) && totalPages == old(totalPages) + 1
      ensures pages == CutInternalPages(old(pages), p, keys, kids, mid, q)
      ensures pins == old(pins) && peak <= Max(old(peak), |pins| + 3)
      ensures old(Quiet()) ==> Quiet()
    {
      hide Traced, CutInternalPages, CuttableInternal;
      UpperKids(pages, p, keys, kids, mid);
      q := PinWithNew(p);
      WriteHalves(p, q, keys, kids, mid);
      UnpinPair(p, q, true, true);
      assert pins == old(pins);
    }

    method WriteHalves(p: PageId, q: PageId, keys: seq<int>, kids: seq<PageId>, mid: nat)
      requires CuttableInternal(pages, p, keys, kids, mid) && p != q && p in pins && q in pins
      modifies this`pages, this`pins, this`peak, this`issued, this`unreported
      ensures pages == CutInternalPages(old(pages), p, keys, kids, mid, q)
      ensures pins == old(pins) && peak <= Max(old(peak), |pins| + 1)
      ensures unreported <= old(unreported) + {p, q} && (old(Traced()) ==> Traced())
    {
      hide Traced, InternalLower, InternalUpper, ReparentPages, View, CuttableInternal;
      UpperKids(pages, p, keys, kids, mid);
      var page := pages[p];
      var upper := InternalUpper(page, keys, kids, mid);
      Write(p, InternalLower(page, keys, kids, mid));
      Write(q, upper);
      ReparentChildren(upper, q);
    }

    /** The upper half is a well-formed page whose live children are existing pages. */
    lemma {:induction false} UpperKids(pages: map<PageId, Page>, p: PageId, keys: seq<int>, kids: seq<PageId>, mid: nat)
      requires CuttableInternal(pages, p, keys, kids, mid)
      ensures p in pages && pages[p].InternalPage? && Sized(pages[p], pages[p].maxKeys, pages[p].maxKeys)
      ensures mid < |keys| && |kids| == |keys| + 1
      ensures mid <= pages[p].maxKeys && |keys| - mid - 1 <= pages[p].maxKeys
      ensures var upper := InternalUpper(pages[p], keys, kids, mid);
              && upper.InternalPage? && Sized(upper, upper.maxKeys, upper.maxKeys)
              && upper.childSlots[..upper.numKeys + 1] == kids[mid + 1..]
              && forall x :: x in upper.childSlots[..upper.numKeys + 1] ==> x in pages
    {
    }

    /** Points the live children of `upper` at q. */
    method ReparentChildren(upper: Page, q: PageId)
      requires upper.InternalPage? && Sized(upper, upper.maxKeys, upper.maxKeys)
      requires forall x :: x in upper.childSlots[..upper.numKeys + 1] ==> x in pages
      modifies this`pages, this`pins, this`peak, this`issued, this`unreported
      ensures pages == ReparentPages(old(pages), upper.childSlots[..upper.numKeys + 1], q)
      ensures pins == old(pins) && peak <= Max(old(peak), |pins| + 1)
      ensures unreported <= old(unreported) && (old(Traced()) ==> Traced())
    {
      hide Traced;
      var kids := upper.childSlots[..upper.numKeys + 1];
      var i := 0;
      assert ReparentPages(pages, kids[..0], q) == pages;
      while i <= upper.numKeys
        invariant i <= |kids|
        invariant pages == ReparentPages(old(pages), kids[..i], q)
        invariant pins == old(pins) && peak <= Max(old(peak), |pins| + 1)
        invariant unreported <= old(unreported) && (old(Traced()) ==> Traced())
      {
        UpdateParentId(kids[i], q);
        ReparentOneMore(old(pages), kids, i, q);
        i := i + 1;
      }
      assert kids[..i] == kids;
    }

    // ----- Deletion

    method Delete(key: Key) returns (r: Result<(), TreeError>)
      requires Valid()
      modifies this
      ensures Valid() && root == old(root)
      ensures contents == old(contents) - {key}
      ensures key in old(contents) ==> r == Ok(())
      ensures key !in old(contents) ==> r == Err(KeyNotFound)
      ensures r.Err? ==> pages == old(pages)
      ensures pins == old(pins)
      ensures peak <= Max(old(peak), |pins| + 3)
      ensures begun == old(begun) && (old(Quiet()) ==> Quiet())
    {
      hide Traced, TreeOk;
      EmptyTree();
      var leaf := FindLeafPage(key);
      if leaf.None? {
        RemoveAbsent(contents, key);
        return Err(KeyNotFound);
      }
      var p := leaf.value;
      var page := pages[p];
      LeafAnswers(config, pages, totalPages, root.value, shape, contents, p, key);
      var found := BinarySearch(page.keySlots[..page.numKeys], key);
      if found.Missing? {
        Unpin(p, false);
        RemoveAbsent(contents, key);
        return Err(KeyNotFound);
      }
      RemoveFromLeaf(p, found.at);
      return Ok(());
    }

    /** Drops cell i of a pinned leaf, lets the leaf go, and merges it when it became small. */
    method RemoveFromLeaf(p: PageId, i: nat)
      requires Valid() && root.Some? && p in shape && p in pages && pages[p].LeafPage? && p in pins
      requires Sized(pages[p], config.leafMax, config.internalMax) && i < pages[p].numKeys
      modifies this`pages, this`shape, this`contents, this`pins, this`peak, this`issued, this`unreported
      ensures Valid() && contents == old(contents) - {old(pages[p].keySlots[i])}
      ensures pins == old(pins) - multiset{p}
      ensures peak <= Max(old(peak), |pins| + 3)
      ensures old(Quiet()) ==> Quiet()
    {
      hide Traced, TreeOk, LeafWithoutPair;
      DropState(config, pages, totalPages, root.value, shape, contents, p, i);
      contents := contents - {pages[p].keySlots[i]};
      assert contents == old(contents) - {old(pages[p].keySlots[i])};
      var smaller := LeafWithoutPair(pages[p], i);
      WriteAndUnpin(p, smaller);
      assert Valid();
      if Some(p) != root && smaller.numKeys < smaller.maxKeys / 2 {
        MergeLeaf(p, smaller.parent);
      }
    }

    method MergeLeaf(p: PageId, parent: PageId)
      requires Valid() && root.Some? && p in shape && p in pages && pages[p].LeafPage? && p != root.value
      requires parent == pages[p].parent
      modifies this`pages, this`shape, this`pins, this`peak, this`issued, this`unreported
      ensures Valid()
      ensures pins == old(pins)
      ensures peak <= Max(old(peak), |pins| + 3)
      ensures old(Quiet()) ==> Quiet()
    {
      hide Traced, TreeOk, Sized;
      LeafParent(config, pages, totalPages, root.value, shape, contents, p);
      Fetch(parent);
      var merged := JoinWithSibling(p, parent);
      Unpin(parent, merged);
      assert pins == old(pins);
    }

    /** Joins the leaf with its left sibling, or with its right one if it is the first child. */
    method JoinWithSibling(p: PageId, parent: PageId) returns (merged: bool)
      requires Valid() && root.Some? && parent in pins
      requires parent in shape && parent in pages && pages[parent].InternalPage? && shape[parent].level == 1
      requires Sized(pages[parent], config.leafMax, config.internalMax)
      requires p in pages[parent].childSlots[..pages[parent].numKeys + 1]
      modifies this`pages, this`shape, this`pins, this`peak, this`issued, this`unreported
      ensures Valid()
      ensures pins == old(pins) && peak <= Max(old(peak), |pins| + 2)
      ensures old(Quiet()) ==> Traced() && unreported == if merged then {parent} else {}
    {
      hide Traced, TreeOk;
      var page := pages[parent];
      var leafIdx := FindChild(page, p);
      var siblingIdx := if leafIdx > 0 then leafIdx - 1 else leafIdx + 1;
      if siblingIdx > page.numKeys {
        return false;
      }
      merged := JoinSiblings(parent, if leafIdx > 0 then leafIdx else siblingIdx);
    }

    method FindChild(page: Page, p: PageId) returns (leafIdx: nat)
      requires page.InternalPage? && Sized(page, page.maxKeys, page.maxKeys)
      requires p in page.childSlots[..page.numKeys + 1]
      ensures leafIdx <= page.numKeys && page.childSlots[leafIdx] == p
      ensures forall i :: 0 <= i < leafIdx ==> page.childSlots[i] != p
    {
      leafIdx := 0;
      while page.childSlots[leafIdx] != p
        invariant leafIdx <= page.numKeys
        invariant p in page.childSlots[leafIdx..page.numKeys + 1]
        invariant forall i :: 0 <= i < leafIdx ==> page.childSlots[i] != p
        decreases page.numKeys - leafIdx
      {
        leafIdx := leafIdx + 1;
      }
    }

    /** Merges child d of the pinned parent into child d - 1, unless their keys do not fit one leaf. */
    method JoinSiblings(parent: PageId, d: nat) returns (merged: bool)
      requires Valid() && root.Some? && parent in pins
      requires parent in shape && parent in pages && pages[parent].InternalPage? && shape[parent].level == 1
      requires Sized(pages[parent], config.leafMax, config.internalMax) && 0 < d <= pages[parent].numKeys
      modifies this`pages, this`shape, this`pins, this`peak, this`issued, this`unreported
      ensures Valid()
      ensures pins == old(pins) && peak <= Max(old(peak), |pins| + 2)
      ensures old(Quiet()) ==> Traced() && unreported == if merged then {parent} else {}
    {
      hide Traced, TreeOk, LeafJoined, InternalWithoutChild, MergeShape;
      var page := pages[parent];
      var l, r := page.childSlots[d - 1], page.childSlots[d];
      SiblingLeaves(config, pages, totalPages, root.value, shape, contents, parent, d);
      if pages[l].numKeys + pages[r].numKeys <= pages[l].maxKeys {
        MergeState(config, pages, totalPages, root.value, shape, contents, parent, d, l, r);
      }
      merged := MergePages(parent, d, l, r);
      if merged {
        shape := MergeShape(shape, l, r);
      }
    }

    /** The page writes of merge_leaf: the right sibling's cells join the left one's, if they fit. */
    method MergePages(parent: PageId, d: nat, l: PageId, r: PageId) returns (merged: bool)
      requires parent in pins && parent in pages && pages[parent].InternalPage? && 0 < d <= pages[parent].numKeys
      requires Sized(pages[parent], pages[parent].maxKeys, pages[parent].maxKeys)
      requires l in pages && pages[l].LeafPage? && Sized(pages[l], pages[l].maxKeys, pages[l].maxKeys)
      requires r in pages && pages[r].LeafPage? && Sized(pages[r], pages[r].maxKeys, pages[r].maxKeys)
      requires l != r && l != parent && r != parent
      modifies this`pages, this`pins, this`peak, this`issued, this`unreported
      ensures merged <==> old(pages[l].numKeys + pages[r].numKeys <= pages[l].maxKeys)
      ensures merged ==>
                pages == old(pages)[l := LeafJoined(old(pages)[l], old(pages)[r])]
                                   [parent := InternalWithoutChild(old(pages)[parent], d)]
      ensures !merged ==> pages == old(pages)
      ensures pins == old(pins) && peak <= Max(old(peak), |pins| + 2)
      ensures old(Quiet()) ==> Traced() && unreported == if merged then {parent} else {}
    {
      hide Traced, LeafJoined, InternalWithoutChild;
      PinPair(l, r);
      merged := pages[l].numKeys + pages[r].numKeys <= pages[l].maxKeys;
      if merged {
        WriteMerged(l, r, parent, LeafJoined(pages[l], pages[r]), InternalWithoutChild(pages[parent], d));
      } else {
        UnpinPair(l, r, false, false);
      }
      assert pins == old(pins);
    }

    method WriteMerged(l: PageId, r: PageId, parent: PageId, left: Page, page: Page)
      requires multiset{l, r} <= pins && parent in pins && l != r && parent != l && parent != r
      modifies this`pages, this`pins, this`issued, this`unreported
      ensures pages == old(pages)[l := left][parent := page] && pins == old(pins) - multiset{l, r}
      ensures old(Quiet()) ==> Traced() && unreported == {parent}
    {
      hide Traced;
      Write(l, left);
      Write(parent, page);
      UnpinPair(l, r, true, false);
    }

    method PinPair(l: PageId, r: PageId)
      requires l in pages && r in pages
      modifies this`pins, this`peak, this`issued
      ensures pins == old(pins) + multiset{l, r} && peak <= Max(old(peak), |old(pins)| + 2)
      ensures old(Traced()) ==> Traced()
    {
      hide Traced;
      Fetch(l);
      Fetch(r);
    }

    method UnpinPair(l: PageId, r: PageId, left: bool, right: bool)
      requires multiset{l, r} <= pins
      modifies this`pins, this`issued, this`unreported
      ensures pins == old(pins) - multiset{l, r}
      ensures unreported == old(unreported) - (if left then {l} else {}) - (if right then {r} else {})
      ensures old(Traced()) && (left || l !in old(unreported)) && (right || r !in old(unreported)) ==> Traced()
    {
      hide Traced;
      WithoutPair(pins, l, r);
      Unpin(l, left);
      Unpin(r, right);
    }

    lemma {:induction false} WithoutPair(held: multiset<PageId>, l: PageId, r: PageId)
      requires multiset{l, r} <= held
      ensures l in held && r in held - multiset{l} && held - multiset{l} - multiset{r} == held - multiset{l, r}
    {
      assert multiset{l, r}[l] == if l == r then 2 else 1;
    }

    // ----- Range scan

    /** The answer lists the values of the keys in [a, b] by ascending key. The leaf that covers a stays pinned. */
    method RangeSearch(a: Key, b: Key) returns (results: seq<Ctid>, ghost keys: seq<int>)
      requires Valid()
      modifies this`pins, this`peak, this`issued, this`unreported
      ensures StrictlySorted(keys) && |keys| == |results|
      ensures forall k :: k in keys <==> k in contents && a <= k <= b
      ensures forall i :: 0 <= i < |keys| ==> keys[i] in contents && results[i] == contents[keys[i]]
      ensures pins == old(pins) <==> root.None?
      ensures root.Some? ==>
                exists leaf :: leaf in shape && shape[leaf].lo <= a < shape[leaf].hi
                               && pins == old(pins) + multiset{leaf}
      ensures peak <= Max(old(peak), |old(pins)| + 2)
      ensures old(Quiet()) ==> Quiet()
    {
      hide Traced, TreeOk, RangeUpTo, KeysBetween, ValsBetween, StrictlySorted;
      EmptyTree();
      KeysInRange();
      results, keys := [], [];
      var leaf := FindLeafPage(a);
      if leaf.None? {
        RangeOfNothing(a, b);
        RangeAnswer(contents, a, b, keys, results);
        return;
      }
      var curr := leaf.value;
      RangeStart(contents, a, b, shape[curr].lo);
      ghost var held := pins;
      while true
        invariant curr in shape && curr in pages && pages[curr].LeafPage?
        invariant RangeUpTo(contents, a, b, shape[curr].lo, keys, results)
        invariant pins == held && peak <= Max(old(peak), |old(pins)| + 2)
        invariant old(Quiet()) ==> Quiet()
        decreases KEY_END - shape[curr].hi
      {
        Reachable(config, pages, totalPages, root.value, shape, contents, curr);
        NextLeaf(config, pages, totalPages, root.value, shape, contents, curr);
        ScanLeaf(config, pages, totalPages, root.value, shape, contents, curr, a, b, keys, results);
        var page := pages[curr];
        var found, stop := ScanPage(page, a, b);
        Peek(curr);
        results := results + found;
        keys := keys + KeysBetween(View(page).keys, a, b);
        if stop || page.next == INVALID_PAGE_ID {
          RangeComplete(contents, a, b, shape[curr].hi, keys, results);
          RangeAnswer(contents, a, b, keys, results);
          break;
        }
        curr := page.next;
      }
    }

    lemma {:induction false} RangeOfNothing(a: int, b: int)
      ensures RangeUpTo(map[], a, b, KEY_END, [], [])
    {
    }

    lemma {:induction false} KeysInRange()
      requires Valid()
      ensures forall k :: k in contents ==> KEY_MIN <= k < KEY_END
    {
    }

    /** The inner loop of the scan: collect until a key exceeds b. */
    method ScanPage(page: Page, a: int, b: int) returns (found: seq<Ctid>, stop: bool)
      requires page.LeafPage? && Sized(page, page.maxKeys, page.maxKeys)
      requires StrictlySorted(View(page).keys)
      ensures found == ValsBetween(View(page).keys, View(page).vals, a, b)
      ensures stop <==> exists k :: k in View(page).keys && k > b
    {
      ghost var n := View(page);
      found, stop := [], false;
      var i := 0;
      while i < page.numKeys
        invariant i <= page.numKeys
        invariant found == ValsBetween(n.keys[..i], n.vals[..i], a, b)
        invariant forall j :: 0 <= j < i ==> n.keys[j] <= b
      {
        var k := page.keySlots[i];
        assert n.keys[i] == k;
        assert n.keys[..i + 1][..i] == n.keys[..i] && n.vals[..i + 1][..i] == n.vals[..i];
        if a <= k && k <= b {
          found := found + [page.valSlots[i]];
        } else if k > b {
          BetweenStops(n.keys, n.vals, i, a, b);
          stop := true;
          assert n.keys[i] in n.keys;
          return;
        }
        i := i + 1;
      }
      assert n.keys[..i] == n.keys && n.vals[..i] == n.vals;
    }
  }
}
