/**
 What each step of the page code does to the tree, stated on the page table as a value.

 `TreeOk` is the state between operations. While a split climbs, the tree is in one of two
 intermediate states: `Owes` (a page was split and its parent does not list the new half yet)
 and `Overfull` (a parent without room must take one more child).

 Each lemma takes one state to the next: descending, inserting, splitting a leaf or an internal
 node, growing a root, deleting, merging, and scanning a range. The class in `BTree` calls the
 lemma that belongs to its page writes, so that its methods argue about pages and pins only.
 */
module BTreeState {
  import opened Storage
  import opened Sequences
  import opened BTreeShape
  import opened BTreeSplit
  import opened BTreeMerge
  import opened BTreePage

  /** The capacities of the two page kinds and the file the index lives in. */
  datatype Config = Config(leafMax: nat, internalMax: nat, fileId: nat)

  type Table = map<PageId, Page>

  ghost predicate ConfigOk(c: Config) {
    c.leafMax >= 2 && c.internalMax >= 1 && c.fileId != U32_MAX
  }

  function NextId(c: Config, total: nat): PageId {
    PageId(c.fileId, total)
  }

  ghost predicate IdsOk(c: Config, pages: Table, total: nat) {
    forall p {:trigger p in pages} :: p in pages ==> p.fileId == c.fileId && p.pageNum < total
  }

  ghost predicate Formed(c: Config, pages: Table, total: nat) {
    ConfigOk(c) && PagesOk(pages, c.leafMax, c.internalMax) && IdsOk(c, pages, total)
  }

  ghost function Live(c: Config, pages: Table): Store
    requires PagesOk(pages, c.leafMax, c.internalMax)
  {
    Views(pages, c.leafMax, c.internalMax)
  }

  /** The pages under `root` are a B+ tree that stores exactly m. */
  ghost predicate TreeOk(c: Config, pages: Table, total: nat, root: Option<PageId>, shape: Shape, m: map<int, Ctid>) {
    && Formed(c, pages, total)
    && match root
       case None => shape == map[] && m == map[]
       case Some(r) => Inv(Live(c, pages), shape, r) && Holds(Live(c, pages), shape, m)
  }

  /** Page p was split into p and q, and the parent has not taken the pair (key, q) yet. */
  ghost predicate Owes(c: Config, pages: Table, total: nat, root: PageId,
                       p: PageId, key: int, q: PageId, parent: PageId, shape: Shape, m: map<int, Ctid>)
  {
    && Formed(c, pages, total)
    && p in pages && q in pages && p != q
    && (parent != INVALID_PAGE_ID ==>
          && parent in pages && pages[parent].InternalPage? && parent in shape
          && p != parent && q != parent)
    && var r := NextId(c, total);
       var paid := Absorb(Live(c, pages), p, key, q, parent, r);
       var top := if parent == INVALID_PAGE_ID then r else root;
       Inv(paid, shape, top) && Holds(paid, shape, m)
  }

  /** Page p has no room, and the tree would be complete if it took the pair (key, child). */
  ghost predicate Overfull(c: Config, pages: Table, total: nat, root: PageId,
                           p: PageId, key: int, child: PageId, shape: Shape, m: map<int, Ctid>)
  {
    && Formed(c, pages, total)
    && p in pages && p in shape && child in pages
    && pages[p].InternalPage? && pages[p].numKeys == pages[p].maxKeys
    && var full := Live(c, pages)[p := InsertChild(Live(c, pages)[p], key, child)];
       Inv(full, shape, root) && Holds(full, shape, m)
  }

  /** The levels left above p. */
  ghost function Above(shape: Shape, root: PageId, p: PageId): nat {
    if p in shape && root in shape && shape[p].level <= shape[root].level
    then shape[root].level - shape[p].level else 0
  }

  /** What the climb of splits decreases: there is nothing left to do above the root. */
  ghost function Climb(shape: Shape, root: PageId, parent: PageId): nat {
    if parent == INVALID_PAGE_ID then 0 else 1 + Above(shape, root, parent)
  }

  lemma {:induction false} FormedAfterWrite(c: Config, pages: Table, total: nat, p: PageId, pg: Page)
    requires Formed(c, pages, total) && Sized(pg, c.leafMax, c.internalMax)
    requires p.fileId == c.fileId && p.pageNum <= total
    ensures PagesOk(pages[p := pg], c.leafMax, c.internalMax)
    ensures p in pages ==> Formed(c, pages[p := pg], total)
    ensures Formed(c, pages[p := pg], total + 1)
    ensures Live(c, pages[p := pg]) == Live(c, pages)[p := View(pg)]
  {
    ViewsAfterWrite(pages, c.leafMax, c.internalMax, p, pg);
  }

  lemma {:induction false} NextIdFresh(c: Config, pages: Table, total: nat)
    requires Formed(c, pages, total)
    ensures NextId(c, total) !in pages && NextId(c, total) != INVALID_PAGE_ID
    ensures NextId(c, total + 1) !in pages && NextId(c, total + 1) != INVALID_PAGE_ID
  {
  }

  // ----- Descending

  lemma {:induction false} RootCovers(c: Config, pages: Table, total: nat, root: PageId, shape: Shape, m: map<int,
      Ctid>, key: Key)
    requires TreeOk(c, pages, total, Some(root), shape, m)
    ensures root in shape && root in pages && shape[root].lo <= key < shape[root].hi
  {
  }

  lemma {:induction false} Reachable(c: Config, pages: Table, total: nat, root: PageId, shape: Shape, m: map<int,
      Ctid>, p: PageId)
    requires TreeOk(c, pages, total, Some(root), shape, m) && p in shape
    ensures p in pages && Sized(pages[p], c.leafMax, c.internalMax)
    ensures pages[p].LeafPage? <==> shape[p].level == 0
    ensures shape[p].lo < shape[p].hi <= KEY_END
  {
    assert NodeOk(Live(c, pages), shape, p);
  }

  function RouteIndex(keys: seq<int>, key: int): nat {
    var found := BinarySearch(keys, key);
    if found.Found? then found.at + 1 else found.at
  }

  lemma {:induction false} Route(c: Config, pages: Table, total: nat, root: PageId, shape: Shape, m: map<int, Ctid>,
      p: PageId, key: int)
    requires TreeOk(c, pages, total, Some(root), shape, m)
    requires p in shape && p in pages && pages[p].InternalPage? && shape[p].lo <= key < shape[p].hi
    ensures pages[p].numKeys <= |pages[p].keySlots|
    ensures var i := RouteIndex(pages[p].keySlots[..pages[p].numKeys], key);
            && i < |pages[p].childSlots|
            && var child := pages[p].childSlots[i];
               child in shape && shape[child].lo <= key < shape[child].hi && shape[child].level < shape[p].level
  {
    var n := Live(c, pages)[p];
    assert NodeOk(Live(c, pages), shape, p);
    KeysOfFence(shape[p], n.keys);
    var i := RouteIndex(n.keys, key);
    RouteChild(Live(c, pages), shape, root, p, key, i);
    assert n.children[i] == pages[p].childSlots[i];
  }

  /** The leaf that covers a key stores it exactly when the tree does, with the same value. */
  lemma {:induction false} LeafAnswers(c: Config, pages: Table, total: nat, root: PageId, shape: Shape, m: map<int,
      Ctid>,
                    p: PageId, key: int)
    requires TreeOk(c, pages, total, Some(root), shape, m)
    requires p in shape && p in pages && pages[p].LeafPage? && shape[p].lo <= key < shape[p].hi
    ensures Sized(pages[p], c.leafMax, c.internalMax)
    ensures var found := BinarySearch(pages[p].keySlots[..pages[p].numKeys], key);
            && (found.Found? <==> key in m)
            && (key in pages[p].keySlots[..pages[p].numKeys] <==> key in m)
            && (found.Found? ==> found.at < pages[p].numKeys && m[key] == pages[p].valSlots[found.at])
  {
    var n := Live(c, pages)[p];
    assert NodeOk(Live(c, pages), shape, p);
    assert LeafHolds(n, shape[p], m);
    assert n.keys == pages[p].keySlots[..pages[p].numKeys];
  }

  // ----- Insertion steps

  lemma {:induction false} FirstLeafState(c: Config, pages: Table, total: nat, key: Key, val: Ctid)
    requires TreeOk(c, pages, total, None, map[], map[])
    ensures var p := NextId(c, total);
            c.leafMax > 0 &&
            TreeOk(c, pages[p := FirstLeaf(c.leafMax, key, val)], total + 1, Some(p),
                   map[p := Info(KEY_MIN, KEY_END, 0)], map[key := val])
  {
    var p, pg := NextId(c, total), FirstLeaf(c.leafMax, key, val);
    var shape, m := map[p := Info(KEY_MIN, KEY_END, 0)], map[key := val];
    FormedAfterWrite(c, pages, total, p, pg);
    var store := Live(c, pages[p := pg]);
    assert store[p] == Leaf([key], [val], INVALID_PAGE_ID, INVALID_PAGE_ID);
    assert NodeOk(store, shape, p);
    assert LeafHolds(store[p], shape[p], m);
  }

  lemma {:induction false} PutState(c: Config, pages: Table, total: nat, root: PageId, shape: Shape, m: map<int, Ctid>,
                 p: PageId, key: Key, val: Ctid)
    requires TreeOk(c, pages, total, Some(root), shape, m)
    requires p in shape && p in pages && pages[p].LeafPage? && shape[p].lo <= key < shape[p].hi
    requires key !in m && Sized(pages[p], c.leafMax, c.internalMax) && pages[p].numKeys < pages[p].maxKeys
    ensures var at := LowerBound(pages[p].keySlots[..pages[p].numKeys], key);
            TreeOk(c, pages[p := LeafWithPair(pages[p], at, key, val)], total, Some(root), shape, m[key := val])
  {
    var at := LowerBound(pages[p].keySlots[..pages[p].numKeys], key);
    LeafAnswers(c, pages, total, root, shape, m, p, key);
    PutInLeaf(Live(c, pages), shape, root, p, key, val, m);
    LeafWithPairView(pages[p], at, key, val);
    FormedAfterWrite(c, pages, total, p, LeafWithPair(pages[p], at, key, val));
  }

  lemma {:induction false} SplitLeafState(c: Config, pages: Table, total: nat, root: PageId, shape: Shape,
      m: map<int, Ctid>,
                       p: PageId, key: Key, val: Ctid, keys: seq<int>, vals: seq<Ctid>, mid: nat)
    requires TreeOk(c, pages, total, Some(root), shape, m)
    requires p in shape && p in pages && pages[p].LeafPage? && shape[p].lo <= key < shape[p].hi && key !in m
    requires Sized(pages[p], c.leafMax, c.internalMax) && pages[p].numKeys == pages[p].maxKeys
    requires var pg := pages[p];
             var at := LowerBound(pg.keySlots[..pg.numKeys], key);
             && keys == InsertAt(pg.keySlots[..pg.numKeys], at, key)
             && vals == InsertAt(pg.valSlots[..pg.numKeys], at, val)
             && mid == pg.numKeys / 2
    ensures CuttableLeaf(pages, p, keys, vals, mid)
    ensures var q := NextId(c, total);
            && p != q
            && Owes(c, CutLeafPages(pages, p, keys, vals, mid, q), total + 1, root, p, keys[mid], q, pages[p].parent,
                    ShapeAfterSplit(shape, p, keys[mid], q, p == root, NextId(c, total + 1)), m[key := val])
  {
    hide Inv, Holds;
    var pg, q, r := pages[p], NextId(c, total), NextId(c, total + 1);
    NextIdFresh(c, pages, total);
    LeafAnswers(c, pages, total, root, shape, m, p, key);
    var store := Live(c, pages);
    var full := Leaf(keys, vals, pg.parent, pg.next);
    PutInLeaf(store, shape, root, p, key, val, m);
    assert full == store[p].(keys := keys, vals := vals);
    LeafSplitViews(pg, keys, vals, mid, q);
    var lower, upper := LeafLower(pg, keys, vals, mid, q), LeafUpper(pg, keys, vals, mid);
    FormedAfterWrite(c, pages, total, p, lower);
    FormedAfterWrite(c, pages[p := lower], total, q, upper);
    LeafSplitStores(store, p, full, mid, q);
    OwesAfterSplit(c, pages, total, root, p, full, mid, pages[p := lower][q := upper], shape, m[key := val]);
  }

  lemma {:induction false} LeafSplitStores(store: Store, p: PageId, full: Node, mid: nat, q: PageId)
    requires p in store && full.Leaf? && CanSplit(full, mid)
    ensures SplitNode(store[p := full], p, mid, q) == store[p := LeftHalf(full, mid, q)][q := RightHalf(full, mid)]
  {
    assert Reparent(store[p := full], [], q) == store[p := full];
  }

  /** A split that has written both halves, and reparented the moved children, owes the parent. */
  lemma {:induction false} OwesAfterSplit(c: Config, pages: Table, total: nat, root: PageId, p: PageId, full: Node,
      mid: nat,
                       pages': Table, shape: Shape, m: map<int, Ctid>)
    requires Formed(c, pages, total) && p in pages && p in shape && CanSplit(full, mid)
    requires Inv(Live(c, pages)[p := full], shape, root) && Holds(Live(c, pages)[p := full], shape, m)
    requires full.parent == pages[p].parent
    requires Formed(c, pages', total + 1)
    requires Live(c, pages') == SplitNode(Live(c, pages)[p := full], p, mid, NextId(c, total))
    ensures Owes(c, pages', total + 1, root, p, full.keys[mid], NextId(c, total), full.parent,
                 ShapeAfterSplit(shape, p, full.keys[mid], NextId(c, total), p == root, NextId(c, total + 1)), m)
  {
    hide Inv, Holds;
    var store, q, r := Live(c, pages)[p := full], NextId(c, total), NextId(c, total + 1);
    NextIdFresh(c, pages, total);
    SplitSafe(store, shape, root, p, mid, q);
    SplitKeepsInv(store, shape, root, p, mid, q, r, m);
    var up := full.parent;
    if up != INVALID_PAGE_ID {
      assert up in SplitNode(store, p, mid, q) && SplitNode(store, p, mid, q)[up] == store[up];
      assert Live(c, pages')[up] == View(pages'[up]);
    }
  }

  lemma {:induction false} ParentRoomState(c: Config, pages: Table, total: nat, root: PageId,
                        p: PageId, key: int, q: PageId, parent: PageId, shape: Shape, m: map<int, Ctid>)
    requires Owes(c, pages, total, root, p, key, q, parent, shape, m)
    requires parent != INVALID_PAGE_ID && pages[parent].numKeys < pages[parent].maxKeys
    ensures Sized(pages[parent], c.leafMax, c.internalMax) && pages[parent].InternalPage?
    ensures var at := LowerBound(pages[parent].keySlots[..pages[parent].numKeys], key);
            TreeOk(c, pages[parent := InternalWithChild(pages[parent], at, key, q)], total, Some(root), shape, m)
  {
    var at := LowerBound(pages[parent].keySlots[..pages[parent].numKeys], key);
    InternalWithChildView(pages[parent], key, q);
    FormedAfterWrite(c, pages, total, parent, InternalWithChild(pages[parent], at, key, q));
  }

  lemma {:induction false} ParentFullState(c: Config, pages: Table, total: nat, root: PageId,
                        p: PageId, key: int, q: PageId, parent: PageId, shape: Shape, m: map<int, Ctid>)
    requires Owes(c, pages, total, root, p, key, q, parent, shape, m)
    requires parent != INVALID_PAGE_ID && pages[parent].numKeys >= pages[parent].maxKeys
    ensures Overfull(c, pages, total, root, parent, key, q, shape, m)
  {
    assert Sized(pages[parent], c.leafMax, c.internalMax);
  }

  lemma {:induction false} OwedPages(c: Config, pages: Table, total: nat, root: PageId,
                  p: PageId, key: int, q: PageId, parent: PageId, shape: Shape, m: map<int, Ctid>)
    requires Owes(c, pages, total, root, p, key, q, parent, shape, m)
    ensures p in pages && q in pages && p != q && c.internalMax > 0
    ensures parent != INVALID_PAGE_ID ==>
              && parent in pages && pages[parent].InternalPage? && Sized(pages[parent], c.leafMax, c.internalMax)
  {
  }

  lemma {:induction false} ViewParent(pg: Page, parent: PageId)
    requires Sized(pg, pg.maxKeys, pg.maxKeys)
    ensures View(pg.(parent := parent)) == View(pg).(parent := parent)
  {
  }

  lemma {:induction false} NewRootState(c: Config, pages: Table, total: nat, root: PageId,
                     p: PageId, key: int, q: PageId, shape: Shape, m: map<int, Ctid>)
    requires Owes(c, pages, total, root, p, key, q, INVALID_PAGE_ID, shape, m)
    ensures p in pages && q in pages && p != q && c.internalMax > 0
    ensures var r := NextId(c, total);
            TreeOk(c, NewRootPages(pages, c.internalMax, p, key, q, r), total + 1, Some(r), shape, m)
  {
    hide Inv, Holds, View;
    ViewParent(pages[p], NextId(c, total));
    ViewParent(pages[q], NextId(c, total));
    var r := NextId(c, total);
    NextIdFresh(c, pages, total);
    var pages1 := pages[p := pages[p].(parent := r)];
    var pages2 := pages1[q := pages[q].(parent := r)];
    var top := FirstInternal(c.internalMax, p, key, q);
    FormedAfterWrite(c, pages, total, p, pages[p].(parent := r));
    FormedAfterWrite(c, pages1, total, q, pages[q].(parent := r));
    FormedAfterWrite(c, pages2, total, r, top);
    FirstInternalView(c.internalMax, p, key, q);
  }

  lemma {:induction false} InternalCut(c: Config, pages: Table, total: nat, p: PageId, keys: seq<int>,
      kids: seq<PageId>, mid: nat)
    requires Formed(c, pages, total) && p in pages && pages[p].InternalPage?
    requires mid < |keys| && |kids| == |keys| + 1 && mid <= pages[p].maxKeys && |keys| - mid - 1 <= pages[p].maxKeys
    ensures Sized(pages[p], c.leafMax, c.internalMax)
    ensures var q, full := NextId(c, total), Internal(keys, kids, pages[p].parent);
            var lower, upper := InternalLower(pages[p], keys, kids, mid), InternalUpper(pages[p], keys, kids, mid);
            var cut := pages[p := lower][q := upper];
            && Formed(c, cut, total + 1)
            && Live(c, cut) == Live(c, pages)[p := LeftHalf(full, mid, q)][q := RightHalf(full, mid)]
  {
    var pg, q := pages[p], NextId(c, total);
    assert Sized(pg, c.leafMax, c.internalMax);
    var lower, upper := InternalLower(pg, keys, kids, mid), InternalUpper(pg, keys, kids, mid);
    InternalSplitViews(pg, keys, kids, mid, q);
    FormedAfterWrite(c, pages, total, p, lower);
    FormedAfterWrite(c, pages[p := lower], total, q, upper);
  }

  /** The keys and children of an overfull page once it has taken the pair (key, child). */
  ghost predicate Gathered(pg: Page, key: int, child: PageId, keys: seq<int>, kids: seq<PageId>, mid: nat)
    requires pg.InternalPage? && Sized(pg, pg.maxKeys, pg.maxKeys)
  {
    && InsertChild(View(pg), key, child) == Internal(keys, kids, pg.parent)
    && |keys| == pg.numKeys + 1 && |kids| == |keys| + 1
    && mid == |keys| / 2
  }

  lemma {:induction false} OverfullPage(c: Config, pages: Table, total: nat, root: PageId,
                     p: PageId, key: int, child: PageId, shape: Shape, m: map<int, Ctid>)
    requires Overfull(c, pages, total, root, p, key, child, shape, m)
    ensures p in pages && pages[p].InternalPage? && p != NextId(c, total)
    ensures Sized(pages[p], c.leafMax, c.internalMax) && Sized(pages[p], pages[p].maxKeys, pages[p].maxKeys)
  {
    NextIdFresh(c, pages, total);
  }

  lemma {:induction false} OverfullKids(c: Config, pages: Table, total: nat, root: PageId,
                     p: PageId, key: int, child: PageId, shape: Shape, m: map<int, Ctid>,
                     keys: seq<int>, kids: seq<PageId>, mid: nat)
    requires Overfull(c, pages, total, root, p, key, child, shape, m)
    requires Sized(pages[p], c.leafMax, c.internalMax) && Gathered(pages[p], key, child, keys, kids, mid)
    ensures p in shape && mid < |keys| && mid <= pages[p].maxKeys && |keys| - mid - 1 <= pages[p].maxKeys
    ensures forall x :: x in kids[mid + 1..] ==> x in pages && x != p && x != NextId(c, total)
    ensures CanSplit(Internal(keys, kids, pages[p].parent), mid)
  {
    hide Inv, Holds;
    var store1 := Live(c, pages)[p := Internal(keys, kids, pages[p].parent)];
    NextIdFresh(c, pages, total);
    SplitSafe(store1, shape, root, p, mid, NextId(c, total));
    assert MovedKids(store1[p], mid) == kids[mid + 1..];
  }

  /** The live content after an internal cut is the split node. */
  lemma {:induction false} CutInternalView(c: Config, pages: Table, total: nat, root: PageId,
                           p: PageId, key: int, child: PageId, shape: Shape, m: map<int, Ctid>,
                           keys: seq<int>, kids: seq<PageId>, mid: nat)
    requires Overfull(c, pages, total, root, p, key, child, shape, m)
    requires Sized(pages[p], c.leafMax, c.internalMax) && Gathered(pages[p], key, child, keys, kids, mid)
    ensures p in shape && CuttableInternal(pages, p, keys, kids, mid)
    ensures var q, full := NextId(c, total), Internal(keys, kids, pages[p].parent);
            var cut := CutInternalPages(pages, p, keys, kids, mid, q);
            && Formed(c, cut, total + 1) && CanSplit(full, mid)
            && Live(c, cut) == SplitNode(Live(c, pages)[p := full], p, mid, q)
  {
    hide Inv, Holds, View, SplitNode, Reparent, LeftHalf, RightHalf, InternalLower, InternalUpper, ReparentPages;
    var pg, q := pages[p], NextId(c, total);
    NextIdFresh(c, pages, total);
    OverfullKids(c, pages, total, root, p, key, child, shape, m, keys, kids, mid);
    assert forall i :: mid < i < |kids| ==> kids[i] == kids[mid + 1..][i - mid - 1];
    InternalCut(c, pages, total, p, keys, kids, mid);
    var store, full := Live(c, pages), Internal(keys, kids, pg.parent);
    var cut := pages[p := InternalLower(pg, keys, kids, mid)][q := InternalUpper(pg, keys, kids, mid)];
    ReparentViews(cut, c.leafMax, c.internalMax, kids[mid + 1..], q);
    ReparentKeys(cut, kids[mid + 1..], q);
    assert MovedKids(full, mid) == kids[mid + 1..];
    SplitReparentStores(store, p, full, mid, q);
  }

  lemma {:induction false} ReparentKeys(pages: Table, kids: seq<PageId>, q: PageId)
    ensures ReparentPages(pages, kids, q).Keys == pages.Keys
  {
  }

  lemma {:induction false} SplitInternalState(c: Config, pages: Table, total: nat, root: PageId,
                           p: PageId, key: int, child: PageId, shape: Shape, m: map<int, Ctid>,
                           keys: seq<int>, kids: seq<PageId>, mid: nat)
    requires Overfull(c, pages, total, root, p, key, child, shape, m)
    requires Sized(pages[p], c.leafMax, c.internalMax) && Gathered(pages[p], key, child, keys, kids, mid)
    ensures p in shape && CuttableInternal(pages, p, keys, kids, mid)
    ensures var q := NextId(c, total);
            var shape' := ShapeAfterSplit(shape, p, keys[mid], q, p == root, NextId(c, total + 1));
            && Owes(c, CutInternalPages(pages, p, keys, kids, mid, q), total + 1, root,
                    p, keys[mid], q, pages[p].parent, shape', m)
            && Climb(shape', root, pages[p].parent) < Climb(shape, root, p)
  {
    hide Inv, Holds, View, SplitNode, CutInternalPages, ShapeAfterSplit, Absorb;
    var pg, q, r := pages[p], NextId(c, total), NextId(c, total + 1);
    CutInternalView(c, pages, total, root, p, key, child, shape, m, keys, kids, mid);
    NextIdFresh(c, pages, total);
    var full := Internal(keys, kids, pg.parent);
    var cut := CutInternalPages(pages, p, keys, kids, mid, q);
    OwesAfterSplit(c, pages, total, root, p, full, mid, cut, shape, m);
    if pg.parent != INVALID_PAGE_ID {
      SplitClimbs(Live(c, pages)[p := full], shape, root, p, mid, q, r);
    }
  }

  /** Writing both halves before reparenting the moved children gives the same store. */
  lemma {:induction false} SplitReparentStores(store: Store, p: PageId, full: Node, mid: nat, q: PageId)
    requires p in store && full.Internal? && CanSplit(full, mid)
    requires p !in MovedKids(full, mid) && q !in MovedKids(full, mid) && p != q
    ensures SplitNode(store[p := full], p, mid, q)
         == Reparent(store[p := LeftHalf(full, mid, q)][q := RightHalf(full, mid)], MovedKids(full, mid), q)
  {
    var a := SplitNode(store[p := full], p, mid, q);
    var b := Reparent(store[p := LeftHalf(full, mid, q)][q := RightHalf(full, mid)], MovedKids(full, mid), q);
    assert a.Keys == b.Keys;
    forall x | x in a
      ensures a[x] == b[x]
    {
    }
  }

  /** The parent of a split page is nearer to the root. */
  lemma {:induction false} SplitClimbs(store: Store, shape: Shape, root: PageId, p: PageId, mid: nat, q: PageId,
      r: PageId)
    requires Inv(store, shape, root) && p in shape && CanSplit(store[p], mid)
    requires q !in store && r !in store && store[p].parent != INVALID_PAGE_ID
    ensures var up := store[p].parent;
            Above(ShapeAfterSplit(shape, p, store[p].keys[mid], q, p == root, r), root, up) < Above(shape, root, p)
  {
    SplitSafe(store, shape, root, p, mid, q);
    var up := store[p].parent;
    assert Lower(shape[p], shape[root]);
    assert up != root ==> Lower(shape[up], shape[root]);
  }

  // ----- Deletion steps

  lemma {:induction false} DropState(c: Config, pages: Table, total: nat, root: PageId, shape: Shape, m: map<int, Ctid>,
                  p: PageId, i: nat)
    requires TreeOk(c, pages, total, Some(root), shape, m)
    requires p in shape && p in pages && pages[p].LeafPage? && i < pages[p].numKeys
    ensures Sized(pages[p], c.leafMax, c.internalMax) && LeafWithoutPair(pages[p], i).LeafPage?
    ensures TreeOk(c, pages[p := LeafWithoutPair(pages[p], i)], total, Some(root), shape, m - {pages[p].keySlots[i]})
  {
    assert NodeOk(Live(c, pages), shape, p);
    DropFromLeaf(Live(c, pages), shape, root, p, i, m);
    LeafWithoutPairView(pages[p], i);
    FormedAfterWrite(c, pages, total, p, LeafWithoutPair(pages[p], i));
  }

  /** A leaf that is not the root has a parent one level up that lists it. */
  lemma {:induction false} LeafParent(c: Config, pages: Table, total: nat, root: PageId, shape: Shape, m: map<int,
      Ctid>, p: PageId)
    requires TreeOk(c, pages, total, Some(root), shape, m)
    requires p in shape && p in pages && pages[p].LeafPage? && p != root
    ensures var up := pages[p].parent;
            && up in shape && up in pages && pages[up].InternalPage? && shape[up].level == 1
            && Sized(pages[up], c.leafMax, c.internalMax)
            && p in pages[up].childSlots[..pages[up].numKeys + 1]
  {
    var i := ChildIndex(Live(c, pages), shape, root, p);
    assert NodeOk(Live(c, pages), shape, p);
    assert Live(c, pages)[pages[p].parent] == View(pages[pages[p].parent]);
  }

  lemma {:induction false} SiblingLeaves(c: Config, pages: Table, total: nat, root: PageId, shape: Shape, m: map<int,
      Ctid>,
                      up: PageId, d: nat)
    requires TreeOk(c, pages, total, Some(root), shape, m)
    requires up in shape && up in pages && pages[up].InternalPage? && shape[up].level == 1
    requires Sized(pages[up], c.leafMax, c.internalMax) && 0 < d <= pages[up].numKeys
    ensures var l, r := pages[up].childSlots[d - 1], pages[up].childSlots[d];
            && l in shape && r in shape && l in pages && r in pages && pages[l].LeafPage? && pages[r].LeafPage?
            && Sized(pages[l], c.leafMax, c.internalMax) && Sized(pages[r], c.leafMax, c.internalMax)
            && l != r && l != up && r != up
  {
    MakeMergeSite(Live(c, pages), shape, root, up, d);
    assert Live(c, pages)[up].children[d - 1] == pages[up].childSlots[d - 1];
    assert Live(c, pages)[up].children[d] == pages[up].childSlots[d];
  }

  lemma {:induction false} MergeState(c: Config, pages: Table, total: nat, root: PageId, shape: Shape, m: map<int,
      Ctid>,
                   up: PageId, d: nat, l: PageId, r: PageId)
    requires TreeOk(c, pages, total, Some(root), shape, m)
    requires up in shape && up in pages && pages[up].InternalPage? && shape[up].level == 1
    requires Sized(pages[up], c.leafMax, c.internalMax) && 0 < d <= pages[up].numKeys
    requires l == pages[up].childSlots[d - 1] && r == pages[up].childSlots[d]
    requires l in shape && r in shape && l in pages && r in pages && pages[l].LeafPage? && pages[r].LeafPage?
    requires Sized(pages[l], c.leafMax, c.internalMax) && Sized(pages[r], c.leafMax, c.internalMax) && l != up
    requires pages[l].numKeys + pages[r].numKeys <= pages[l].maxKeys
    ensures TreeOk(c, pages[l := LeafJoined(pages[l], pages[r])][up := InternalWithoutChild(pages[up], d)],
                   total, Some(root), MergeShape(shape, l, r), m)
  {
    hide Inv, Holds;
    var store := Live(c, pages);
    assert store[up].children[d - 1] == l && store[up].children[d] == r;
    MergeKeepsInv(store, shape, root, up, d, m);
    LeafJoinedView(pages[l], pages[r]);
    InternalWithoutChildView(pages[up], d);
    FormedAfterWrite(c, pages, total, l, LeafJoined(pages[l], pages[r]));
    FormedAfterWrite(c, pages[l := LeafJoined(pages[l], pages[r])], total, up, InternalWithoutChild(pages[up], d));
  }

  // ----- Scanning a range

  /** The keys of one leaf that lie in [a, b], in order. */
  function KeysBetween(keys: seq<int>, a: int, b: int): (r: seq<int>)
    ensures forall k :: k in r <==> k in keys && a <= k <= b
  {
    if keys == [] then [] else
      var init, k := keys[..|keys| - 1], keys[|keys| - 1];
      assert keys == init + [k];
      KeysBetween(init, a, b) + (if a <= k <= b then [k] else [])
  }

  /** The values stored with the keys of one leaf that lie in [a, b]. */
  function ValsBetween(keys: seq<int>, vals: seq<Ctid>, a: int, b: int): (r: seq<Ctid>)
    requires |keys| == |vals|
    ensures |r| == |KeysBetween(keys, a, b)|
  {
    if keys == [] then [] else
      var n := |keys| - 1;
      ValsBetween(keys[..n], vals[..n], a, b) + (if a <= keys[n] <= b then [vals[n]] else [])
  }

  ghost predicate PairsIn(ks: seq<int>, vs: seq<Ctid>, m: map<int, Ctid>) {
    |ks| == |vs| && forall i :: 0 <= i < |ks| ==> ks[i] in m && m[ks[i]] == vs[i]
  }

  lemma {:induction false} KeysBetweenSorted(keys: seq<int>, a: int, b: int)
    requires StrictlySorted(keys)
    ensures StrictlySorted(KeysBetween(keys, a, b))
  {
    if keys != [] {
      var n := |keys| - 1;
      var init, ks := keys[..n], KeysBetween(keys[..n], a, b);
      KeysBetweenSorted(init, a, b);
      forall i | 0 <= i < |ks|
        ensures ks[i] < keys[n]
      {
        assert ks[i] in ks;
        var j :| 0 <= j < |init| && init[j] == ks[i];
        assert keys[j] < keys[n];
      }
    }
  }

  lemma {:induction false} ValsBetweenInMap(keys: seq<int>, vals: seq<Ctid>, a: int, b: int, m: map<int, Ctid>)
    requires PairsIn(keys, vals, m)
    ensures PairsIn(KeysBetween(keys, a, b), ValsBetween(keys, vals, a, b), m)
  {
    if keys != [] {
      var n := |keys| - 1;
      ValsBetweenInMap(keys[..n], vals[..n], a, b, m);
      assert keys[n] in m && m[keys[n]] == vals[n];
      var ks0, vs0 := KeysBetween(keys[..n], a, b), ValsBetween(keys[..n], vals[..n], a, b);
      var ks, vs := KeysBetween(keys, a, b), ValsBetween(keys, vals, a, b);
      var hit := a <= keys[n] <= b;
      assert ks == ks0 + (if hit then [keys[n]] else []);
      assert vs == vs0 + (if hit then [vals[n]] else []);
    }
  }

  /** Once a key exceeds b, nothing further in a sorted leaf is in the range. */
  lemma {:induction false} BetweenStops(keys: seq<int>, vals: seq<Ctid>, i: nat, a: int, b: int)
    requires |keys| == |vals| && StrictlySorted(keys) && i < |keys| && keys[i] > b
    ensures KeysBetween(keys, a, b) == KeysBetween(keys[..i], a, b)
    ensures ValsBetween(keys, vals, a, b) == ValsBetween(keys[..i], vals[..i], a, b)
  {
    var n := |keys| - 1;
    if i < n {
      BetweenStops(keys[..n], vals[..n], i, a, b);
      assert keys[..n][..i] == keys[..i] && vals[..n][..i] == vals[..i];
    }
  }

  /** ks lists in ascending order the keys of m in [a, b] below `upto`, and vs their values. */
  ghost predicate RangeUpTo(m: map<int, Ctid>, a: int, b: int, upto: int, ks: seq<int>, vs: seq<Ctid>) {
    && StrictlySorted(ks)
    && (forall k :: k in ks <==> k in m && a <= k <= b && k < upto)
    && PairsIn(ks, vs, m)
  }

  lemma {:induction false} ScanPairs(n: Node, f: Info, m: map<int, Ctid>, a: int, b: int, ks: seq<int>, vs: seq<Ctid>)
    requires n.Leaf? && LeafHolds(n, f, m) && StrictlySorted(n.keys) && KeysWithin(n.keys, f.lo, f.hi)
    requires f.lo < f.hi && RangeUpTo(m, a, b, f.lo, ks, vs)
    ensures RangeUpTo(m, a, b, f.hi, ks + KeysBetween(n.keys, a, b), vs + ValsBetween(n.keys, n.vals, a, b))
  {
    var ks', vs' := KeysBetween(n.keys, a, b), ValsBetween(n.keys, n.vals, a, b);
    ValsBetweenInMap(n.keys, n.vals, a, b, m);
    KeysBetweenSorted(n.keys, a, b);
    forall k | k in m && f.lo <= k < f.hi && a <= k <= b
      ensures k in ks'
    {
    }
    forall k | k in ks'
      ensures k in m && f.lo <= k < f.hi && a <= k <= b
    {
      var j :| 0 <= j < |n.keys| && n.keys[j] == k;
    }
    RangeJoin(m, a, b, f.lo, f.hi, ks, vs, ks', vs');
  }

  lemma {:induction false} SortedJoin(a: seq<int>, b: seq<int>)
    requires StrictlySorted(a) && StrictlySorted(b)
    requires forall i, j :: 0 <= i < |a| && 0 <= j < |b| ==> a[i] < b[j]
    ensures StrictlySorted(a + b)
  {
  }

  lemma {:induction false} PairsJoin(m: map<int, Ctid>, ks: seq<int>, vs: seq<Ctid>, ks': seq<int>, vs': seq<Ctid>)
    requires PairsIn(ks, vs, m) && PairsIn(ks', vs', m)
    ensures PairsIn(ks + ks', vs + vs', m)
  {
  }

  lemma {:induction false} RangeJoin(m: map<int, Ctid>, a: int, b: int, lo: int, hi: int,
                  ks: seq<int>, vs: seq<Ctid>, ks': seq<int>, vs': seq<Ctid>)
    requires RangeUpTo(m, a, b, lo, ks, vs) && lo < hi
    requires StrictlySorted(ks') && PairsIn(ks', vs', m)
    requires forall k :: k in ks' <==> k in m && a <= k <= b && lo <= k < hi
    ensures RangeUpTo(m, a, b, hi, ks + ks', vs + vs')
  {
    hide StrictlySorted, PairsIn;
    forall i, j | 0 <= i < |ks| && 0 <= j < |ks'|
      ensures ks[i] < ks'[j]
    {
      assert ks[i] in ks && ks'[j] in ks';
    }
    SortedJoin(ks, ks');
    PairsJoin(m, ks, vs, ks', vs');
    assert forall k :: k in ks + ks' <==> k in ks || k in ks';
  }

  /** Scanning one more leaf extends the answer by that leaf's interval. */
  lemma {:induction false} ScanLeaf(c: Config, pages: Table, total: nat, root: PageId, shape: Shape, m: map<int, Ctid>,
                 p: PageId, a: int, b: int, ks: seq<int>, vs: seq<Ctid>)
    requires TreeOk(c, pages, total, Some(root), shape, m)
    requires p in shape && p in pages && pages[p].LeafPage?
    requires RangeUpTo(m, a, b, shape[p].lo, ks, vs)
    ensures var n := View(pages[p]);
            && |n.keys| == |n.vals| && StrictlySorted(n.keys)
            && RangeUpTo(m, a, b, shape[p].hi, ks + KeysBetween(n.keys, a, b), vs + ValsBetween(n.keys, n.vals, a, b))
            && (forall i :: 0 <= i < |n.keys| ==> n.keys[i] < shape[p].hi)
  {
    var n := Live(c, pages)[p];
    assert NodeOk(Live(c, pages), shape, p);
    assert LeafHolds(n, shape[p], m);
    ScanPairs(n, shape[p], m, a, b, ks, vs);
  }

  /** The leaf chain leads to the leaf that starts where this one ends, or ends the key space. */
  lemma {:induction false} NextLeaf(c: Config, pages: Table, total: nat, root: PageId, shape: Shape, m: map<int,
      Ctid>, p: PageId)
    requires TreeOk(c, pages, total, Some(root), shape, m)
    requires p in shape && p in pages && pages[p].LeafPage?
    ensures var next := pages[p].next;
            && (next == INVALID_PAGE_ID <==> shape[p].hi == KEY_END)
            && (next != INVALID_PAGE_ID ==>
                  && next in shape && next in pages && pages[next].LeafPage?
                  && shape[next].lo == shape[p].hi && shape[p].hi < shape[next].hi <= KEY_END)
  {
    assert NodeOk(Live(c, pages), shape, p);
    var next := pages[p].next;
    if next in shape {
      assert NodeOk(Live(c, pages), shape, next);
    }
  }

  /** Keys at or above an exceeded bound contribute nothing. */
  lemma {:induction false} RangeComplete(m: map<int, Ctid>, a: int, b: int, upto: int, ks: seq<int>, vs: seq<Ctid>)
    requires RangeUpTo(m, a, b, upto, ks, vs) && (b < upto || upto == KEY_END)
    requires forall k :: k in m ==> k < KEY_END
    ensures RangeUpTo(m, a, b, KEY_END, ks, vs)
  {
  }

  lemma {:induction false} RangeStart(m: map<int, Ctid>, a: int, b: int, upto: int)
    requires upto <= a
    ensures RangeUpTo(m, a, b, upto, [], [])
  {
  }

  /** What a finished scan returns. */
  lemma {:induction false} RangeAnswer(m: map<int, Ctid>, a: int, b: int, ks: seq<int>, vs: seq<Ctid>)
    requires RangeUpTo(m, a, b, KEY_END, ks, vs)
    requires forall k :: k in m ==> k < KEY_END
    ensures StrictlySorted(ks) && |ks| == |vs|
    ensures forall k :: k in ks <==> k in m && a <= k <= b
    ensures forall i :: 0 <= i < |ks| ==> ks[i] in m && vs[i] == m[ks[i]]
  {
  }
}
