/**
 The physical B+ tree page: a header and fixed-capacity cell arrays of which only the first
 `numKeys` cells are live. Cells past the live prefix keep whatever was there before.
 */
module BTreePage {
  import opened Storage
  import opened Sequences
  import opened BTreeShape
  import opened BTreeSplit
  import opened BTreeMerge

  datatype Page =
    | LeafPage(numKeys: nat, maxKeys: nat, keySlots: seq<int>, valSlots: seq<Ctid>,
               parent: PageId, next: PageId)
    | InternalPage(numKeys: nat, maxKeys: nat, keySlots: seq<int>, childSlots: seq<PageId>,
                   parent: PageId)

  const HEADER_SIZE: nat := 24
  const LEAF_PAIR_SIZE: nat := 16
  const INTERNAL_PAIR_SIZE: nat := 12
  const CHILD_SIZE: nat := 8

  function LeafMaxKeys(pageSize: nat): nat
    requires HEADER_SIZE <= pageSize
  {
    (pageSize - HEADER_SIZE) / LEAF_PAIR_SIZE
  }

  function InternalMaxKeys(pageSize: nat): nat
    requires HEADER_SIZE + CHILD_SIZE <= pageSize
  {
    (pageSize - HEADER_SIZE - CHILD_SIZE) / INTERNAL_PAIR_SIZE
  }

  /** The cell arrays fill a page without overrunning it, and one more cell would overrun it. */
  lemma {:induction false} CapacitiesFitPage(pageSize: nat)
    requires HEADER_SIZE + 2 * LEAF_PAIR_SIZE <= pageSize
    ensures LeafMaxKeys(pageSize) >= 2 && InternalMaxKeys(pageSize) >= 1
    ensures var n := LeafMaxKeys(pageSize);
            HEADER_SIZE + n * LEAF_PAIR_SIZE <= pageSize < HEADER_SIZE + (n + 1) * LEAF_PAIR_SIZE
    ensures var n := InternalMaxKeys(pageSize);
            && HEADER_SIZE + n * INTERNAL_PAIR_SIZE + CHILD_SIZE <= pageSize
            && pageSize < HEADER_SIZE + (n + 1) * INTERNAL_PAIR_SIZE + CHILD_SIZE
  {
  }

  predicate Sized(pg: Page, leafMax: nat, internalMax: nat) {
    && pg.numKeys <= pg.maxKeys
    && |pg.keySlots| == pg.maxKeys
    && match pg
       case LeafPage(_, _, _, vals, _, _) => pg.maxKeys == leafMax && |vals| == leafMax
       case InternalPage(_, _, _, children, _) => pg.maxKeys == internalMax && |children| == internalMax + 1
  }

  /** The live content of a page. */
  function View(pg: Page): Node
    requires Sized(pg, pg.maxKeys, pg.maxKeys)
  {
    match pg
    case LeafPage(n, _, keys, vals, parent, next) => Leaf(keys[..n], vals[..n], parent, next)
    case InternalPage(n, _, keys, children, parent) => Internal(keys[..n], children[..n + 1], parent)
  }

  ghost predicate PagesOk(pages: map<PageId, Page>, leafMax: nat, internalMax: nat) {
    forall p {:trigger pages[p]} :: p in pages ==> Sized(pages[p], leafMax, internalMax)
  }

  ghost function Views(pages: map<PageId, Page>, leafMax: nat, internalMax: nat): (r: Store)
    requires PagesOk(pages, leafMax, internalMax)
    ensures r.Keys == pages.Keys
    ensures forall p {:trigger r[p]} :: p in pages ==> r[p] == View(pages[p])
  {
    map p | p in pages :: View(pages[p])
  }

  lemma {:induction false} ViewsAfterWrite(pages: map<PageId, Page>, leafMax: nat, internalMax: nat, p: PageId,
      pg: Page)
    requires PagesOk(pages, leafMax, internalMax) && Sized(pg, leafMax, internalMax)
    ensures PagesOk(pages[p := pg], leafMax, internalMax)
    ensures Views(pages[p := pg], leafMax, internalMax) == Views(pages, leafMax, internalMax)[p := View(pg)]
  {
  }

  // ----- In-place edits of one page

  /** insert_into_leaf with room: shift both arrays right and write the gap. */
  function LeafWithPair(pg: Page, i: nat, key: int, val: Ctid): Page
    requires pg.LeafPage? && Sized(pg, pg.maxKeys, pg.maxKeys) && i <= pg.numKeys < pg.maxKeys
  {
    var n := pg.numKeys;
    pg.(keySlots := CopyWithin(pg.keySlots, i, n, i + 1)[i := key],
        valSlots := CopyWithin(pg.valSlots, i, n, i + 1)[i := val],
        numKeys := n + 1)
  }

  lemma {:induction false} LeafWithPairView(pg: Page, i: nat, key: int, val: Ctid)
    requires pg.LeafPage? && Sized(pg, pg.maxKeys, pg.maxKeys) && i <= pg.numKeys < pg.maxKeys
    ensures var n := View(pg);
            View(LeafWithPair(pg, i, key, val)) ==
            n.(keys := InsertAt(n.keys, i, key), vals := InsertAt(n.vals, i, val))
  {
    ShiftRightInserts(pg.keySlots, pg.numKeys, i, key);
    ShiftRightInserts(pg.valSlots, pg.numKeys, i, val);
  }

  /** delete: shift both arrays left over the removed cell. */
  function LeafWithoutPair(pg: Page, i: nat): Page
    requires pg.LeafPage? && Sized(pg, pg.maxKeys, pg.maxKeys) && i < pg.numKeys
  {
    var n := pg.numKeys;
    pg.(keySlots := CopyWithin(pg.keySlots, i + 1, n, i),
        valSlots := CopyWithin(pg.valSlots, i + 1, n, i),
        numKeys := n - 1)
  }

  lemma {:induction false} LeafWithoutPairView(pg: Page, i: nat)
    requires pg.LeafPage? && Sized(pg, pg.maxKeys, pg.maxKeys) && i < pg.numKeys
    ensures var n := View(pg);
            View(LeafWithoutPair(pg, i)) == n.(keys := RemoveAt(n.keys, i), vals := RemoveAt(n.vals, i))
  {
    ShiftLeftRemoves(pg.keySlots, pg.numKeys, i);
    ShiftLeftRemoves(pg.valSlots, pg.numKeys, i);
  }

  /** insert_into_parent with room: shift the keys, and the children right of the gap. */
  function InternalWithChild(pg: Page, i: nat, key: int, child: PageId): Page
    requires pg.InternalPage? && Sized(pg, pg.maxKeys, pg.maxKeys) && i <= pg.numKeys < pg.maxKeys
  {
    var n := pg.numKeys;
    pg.(keySlots := CopyWithin(pg.keySlots, i, n, i + 1)[i := key],
        childSlots := CopyWithin(pg.childSlots, i + 1, n + 1, i + 2)[i + 1 := child],
        numKeys := n + 1)
  }

  lemma {:induction false} InternalWithChildView(pg: Page, key: int, child: PageId)
    requires pg.InternalPage? && Sized(pg, pg.maxKeys, pg.maxKeys) && pg.numKeys < pg.maxKeys
    ensures var i := LowerBound(View(pg).keys, key);
            View(InternalWithChild(pg, i, key, child)) == InsertChild(View(pg), key, child)
  {
    var i := LowerBound(View(pg).keys, key);
    ShiftRightInserts(pg.keySlots, pg.numKeys, i, key);
    ShiftRightInserts(pg.childSlots, pg.numKeys + 1, i + 1, child);
  }

  /** merge_leaf's edit of the parent: drop separator d - 1 and child d. */
  function InternalWithoutChild(pg: Page, d: nat): Page
    requires pg.InternalPage? && Sized(pg, pg.maxKeys, pg.maxKeys) && 0 < d <= pg.numKeys
  {
    var n := pg.numKeys;
    pg.(keySlots := CopyWithin(pg.keySlots, d, n, d - 1),
        childSlots := CopyWithin(pg.childSlots, d + 1, n + 1, d),
        numKeys := n - 1)
  }

  lemma {:induction false} InternalWithoutChildView(pg: Page, d: nat)
    requires pg.InternalPage? && Sized(pg, pg.maxKeys, pg.maxKeys) && 0 < d <= pg.numKeys
    ensures View(InternalWithoutChild(pg, d)) == RemoveChild(View(pg), d)
  {
    ShiftLeftRemoves(pg.keySlots, pg.numKeys, d - 1);
    ShiftLeftRemoves(pg.childSlots, pg.numKeys + 1, d);
  }

  /** merge_leaf's edit of the left leaf: append the right leaf's live cells. */
  function LeafJoined(l: Page, r: Page): Page
    requires l.LeafPage? && r.LeafPage?
    requires Sized(l, l.maxKeys, l.maxKeys) && Sized(r, r.maxKeys, r.maxKeys)
    requires l.numKeys + r.numKeys <= l.maxKeys
  {
    l.(keySlots := CopyFrom(l.keySlots, l.numKeys, r.keySlots[..r.numKeys]),
       valSlots := CopyFrom(l.valSlots, l.numKeys, r.valSlots[..r.numKeys]),
       numKeys := l.numKeys + r.numKeys,
       next := r.next)
  }

  lemma {:induction false} LeafJoinedView(l: Page, r: Page)
    requires l.LeafPage? && r.LeafPage?
    requires Sized(l, l.maxKeys, l.maxKeys) && Sized(r, r.maxKeys, r.maxKeys)
    requires l.numKeys + r.numKeys <= l.maxKeys
    ensures View(LeafJoined(l, r)) == JoinLeaves(View(l), View(r))
  {
  }

  function ZeroKeys(n: nat): seq<int> {
    seq(n, _ => 0)
  }

  function ZeroVals(n: nat): seq<Ctid> {
    seq(n, _ => Ctid(PageId(0, 0), 0))
  }

  function ZeroKids(n: nat): seq<PageId> {
    seq(n, _ => PageId(0, 0))
  }

  /** create_root_and_insert: a leaf with one pair on a zeroed page. */
  function FirstLeaf(leafMax: nat, key: int, val: Ctid): Page
    requires leafMax > 0
  {
    LeafPage(1, leafMax, ZeroKeys(leafMax)[0 := key], ZeroVals(leafMax)[0 := val],
             INVALID_PAGE_ID, INVALID_PAGE_ID)
  }

  /** create_new_root: an internal page with one key on a zeroed page. */
  function FirstInternal(internalMax: nat, p: PageId, key: int, q: PageId): Page
    requires internalMax > 0
  {
    InternalPage(1, internalMax, ZeroKeys(internalMax)[0 := key],
                 ZeroKids(internalMax + 1)[0 := p][1 := q], INVALID_PAGE_ID)
  }

  lemma {:induction false} FirstInternalView(internalMax: nat, p: PageId, key: int, q: PageId)
    requires internalMax > 0
    ensures View(FirstInternal(internalMax, p, key, q)) == NewRoot(p, key, q)
  {
  }

  /** split_leaf: the lower `mid` pairs stay, and the leaf is chained to q. */
  function LeafLower(pg: Page, keys: seq<int>, vals: seq<Ctid>, mid: nat, q: PageId): Page
    requires pg.LeafPage? && Sized(pg, pg.maxKeys, pg.maxKeys)
    requires mid <= |keys| == |vals| && mid <= pg.maxKeys
  {
    pg.(next := q,
        numKeys := mid,
        keySlots := CopyFrom(pg.keySlots, 0, keys[..mid]),
        valSlots := CopyFrom(pg.valSlots, 0, vals[..mid]))
  }

  /** split_leaf: the upper pairs on a zeroed page. */
  function LeafUpper(pg: Page, keys: seq<int>, vals: seq<Ctid>, mid: nat): Page
    requires pg.LeafPage? && mid <= |keys| == |vals| && |keys| - mid <= pg.maxKeys
  {
    LeafPage(|keys| - mid, pg.maxKeys,
             CopyFrom(ZeroKeys(pg.maxKeys), 0, keys[mid..]),
             CopyFrom(ZeroVals(pg.maxKeys), 0, vals[mid..]),
             pg.parent, pg.next)
  }

  lemma {:induction false} LeafSplitViews(pg: Page, keys: seq<int>, vals: seq<Ctid>, mid: nat, q: PageId)
    requires pg.LeafPage? && Sized(pg, pg.maxKeys, pg.maxKeys)
    requires mid <= |keys| == |vals| && mid <= pg.maxKeys && |keys| - mid <= pg.maxKeys
    requires 0 < mid < |keys|
    ensures var full := Leaf(keys, vals, pg.parent, pg.next);
            && View(LeafLower(pg, keys, vals, mid, q)) == LeftHalf(full, mid, q)
            && View(LeafUpper(pg, keys, vals, mid)) == RightHalf(full, mid)
  {
  }

  lemma {:induction false} LeafUpperFirst(pg: Page, keys: seq<int>, vals: seq<Ctid>, mid: nat)
    requires pg.LeafPage? && mid < |keys| == |vals| && |keys| - mid <= pg.maxKeys
    ensures |LeafUpper(pg, keys, vals, mid).keySlots| > 0 && LeafUpper(pg, keys, vals, mid).keySlots[0] == keys[mid]
  {
  }

  /** split_internal: the lower `mid` keys and `mid + 1` children stay. */
  function InternalLower(pg: Page, keys: seq<int>, kids: seq<PageId>, mid: nat): Page
    requires pg.InternalPage? && Sized(pg, pg.maxKeys, pg.maxKeys)
    requires mid < |keys| && |kids| == |keys| + 1 && mid <= pg.maxKeys
  {
    pg.(numKeys := mid,
        keySlots := CopyFrom(pg.keySlots, 0, keys[..mid]),
        childSlots := CopyFrom(pg.childSlots, 0, kids[..mid + 1]))
  }

  /** split_internal: the keys and children above the promoted key, on a zeroed page. */
  function InternalUpper(pg: Page, keys: seq<int>, kids: seq<PageId>, mid: nat): Page
    requires pg.InternalPage? && mid < |keys| && |kids| == |keys| + 1 && |keys| - mid - 1 <= pg.maxKeys
  {
    InternalPage(|keys| - mid - 1, pg.maxKeys,
                 CopyFrom(ZeroKeys(pg.maxKeys), 0, keys[mid + 1..]),
                 CopyFrom(ZeroKids(pg.maxKeys + 1), 0, kids[mid + 1..]),
                 pg.parent)
  }

  lemma {:induction false} InternalSplitViews(pg: Page, keys: seq<int>, kids: seq<PageId>, mid: nat, q: PageId)
    requires pg.InternalPage? && Sized(pg, pg.maxKeys, pg.maxKeys)
    requires mid < |keys| && |kids| == |keys| + 1 && mid <= pg.maxKeys && |keys| - mid - 1 <= pg.maxKeys
    ensures var full := Internal(keys, kids, pg.parent);
            && View(InternalLower(pg, keys, kids, mid)) == LeftHalf(full, mid, q)
            && View(InternalUpper(pg, keys, kids, mid)) == RightHalf(full, mid)
  {
  }

  /** The pages after the listed children have been pointed at q. */
  function ReparentPages(pages: map<PageId, Page>, kids: seq<PageId>, q: PageId): (r: map<PageId, Page>)
    ensures r.Keys == pages.Keys
  {
    map x | x in pages :: if x in kids then pages[x].(parent := q) else pages[x]
  }

  lemma {:induction false} ReparentOneMore(pages: map<PageId, Page>, kids: seq<PageId>, i: nat, q: PageId)
    requires i < |kids| && kids[i] in pages
    ensures var before := ReparentPages(pages, kids[..i], q);
            ReparentPages(pages, kids[..i + 1], q) == before[kids[i] := before[kids[i]].(parent := q)]
  {
    assert kids[..i + 1] == kids[..i] + [kids[i]];
  }

  lemma {:induction false} ReparentViews(pages: map<PageId, Page>, leafMax: nat, internalMax: nat, kids: seq<PageId>,
      q: PageId)
    requires PagesOk(pages, leafMax, internalMax)
    ensures PagesOk(ReparentPages(pages, kids, q), leafMax, internalMax)
    ensures Views(ReparentPages(pages, kids, q), leafMax, internalMax)
         == Reparent(Views(pages, leafMax, internalMax), kids, q)
  {
    var r := ReparentPages(pages, kids, q);
    assert forall x :: x in pages ==> Sized(pages[x], leafMax, internalMax);
    assert forall x :: x in r ==> Sized(r[x], leafMax, internalMax);
  }

  // ----- What the multi-page edits leave in the page table

  predicate CuttableLeaf(pages: map<PageId, Page>, p: PageId, keys: seq<int>, vals: seq<Ctid>, mid: nat) {
    && p in pages && pages[p].LeafPage? && Sized(pages[p], pages[p].maxKeys, pages[p].maxKeys)
    && 0 < mid < |keys| == |vals| && mid <= pages[p].maxKeys && |keys| - mid <= pages[p].maxKeys
  }

  function CutLeafPages(pages: map<PageId, Page>, p: PageId, keys: seq<int>, vals: seq<Ctid>, mid: nat, q: PageId)
      : map<PageId, Page>
    requires CuttableLeaf(pages, p, keys, vals, mid)
  {
    pages[p := LeafLower(pages[p], keys, vals, mid, q)][q := LeafUpper(pages[p], keys, vals, mid)]
  }

  predicate CuttableInternal(pages: map<PageId, Page>, p: PageId, keys: seq<int>, kids: seq<PageId>, mid: nat) {
    && p in pages && pages[p].InternalPage? && Sized(pages[p], pages[p].maxKeys, pages[p].maxKeys)
    && mid < |keys| && |kids| == |keys| + 1 && mid <= pages[p].maxKeys && |keys| - mid - 1 <= pages[p].maxKeys
    && forall i :: mid < i < |kids| ==> kids[i] in pages
  }

  function CutInternalPages(pages: map<PageId, Page>, p: PageId, keys: seq<int>, kids: seq<PageId>, mid: nat, q: PageId)
      : map<PageId, Page>
    requires CuttableInternal(pages, p, keys, kids, mid)
  {
    ReparentPages(pages[p := InternalLower(pages[p], keys, kids, mid)][q := InternalUpper(pages[p], keys, kids, mid)],
                  kids[mid + 1..], q)
  }

  function NewRootPages(pages: map<PageId, Page>, internalMax: nat, p: PageId, key: int, q: PageId, r: PageId)
      : map<PageId, Page>
    requires p in pages && q in pages && internalMax > 0
  {
    pages[p := pages[p].(parent := r)][q := pages[q].(parent := r)][r := FirstInternal(internalMax, p, key, q)]
  }
}
