/**
 The classical reading of the local invariant: every leaf lies at one depth, and the leaf
 chain visits all leaves in key order and ends at the invalid page.
 */
module BTreeChain {
  import opened Storage
  import opened BTreeShape

  ghost predicate IsChild(store: Store, p: PageId, c: PageId) {
    p in store && store[p].Internal? && c in store[p].children
  }

  /** Each page of the path lists the next one as a child. */
  ghost predicate IsPath(store: Store, path: seq<PageId>)
    requires path != []
  {
    |path| == 1 ||
    (IsChild(store, path[|path| - 2], path[|path| - 1]) && IsPath(store, path[..|path| - 1]))
  }

  /** All leaves lie at the same depth below the root. */
  lemma {:induction false} EqualDepth(store: Store, shape: Shape, root: PageId, path: seq<PageId>)
    requires Inv(store, shape, root) && path != [] && path[0] == root && IsPath(store, path)
    ensures var last := path[|path| - 1];
            && last in shape && last in store
            && shape[last].level + |path| == shape[root].level + 1
            && (store[last].Leaf? <==> |path| == shape[root].level + 1)
  {
    var n := |path| - 1;
    if n > 0 {
      EqualDepth(store, shape, root, path[..n]);
      var p := path[n - 1];
      assert NodeOk(store, shape, p);
      var i :| 0 <= i < |store[p].children| && store[p].children[i] == path[n];
      assert ChildOk(p, store[p], shape[p], i, store, shape);
    }
    assert NodeOk(store, shape, path[n]);
  }

  ghost function ChainFrom(store: Store, shape: Shape, root: PageId, p: PageId): (r: seq<PageId>)
    requires Inv(store, shape, root) && p in shape && store[p].Leaf?
    ensures r != [] && r[0] == p
    decreases KEY_END - shape[p].hi
  {
    var next := store[p].next;
    assert NodeOk(store, shape, p);
    if next == INVALID_PAGE_ID then [p] else
      assert NodeOk(store, shape, next);
      [p] + ChainFrom(store, shape, root, next)
  }

  ghost predicate Follows(store: Store, shape: Shape, p: PageId, next: PageId)
    requires p in shape && next in shape && p in store && store[p].Leaf?
  {
    store[p].next == next && shape[p].hi == shape[next].lo
  }

  /** The pages of a chain are leaves that cover adjacent intervals, up to the end of the key space. */
  ghost predicate Adjacent(store: Store, shape: Shape, chain: seq<PageId>) {
    && (forall i :: 0 <= i < |chain| ==> chain[i] in shape && chain[i] in store && store[chain[i]].Leaf?)
    && (forall i, j :: 0 <= i < |chain| && 0 <= j < |chain| && j == i + 1 ==> Follows(store, shape, chain[i], chain[j]))
    && (chain != [] ==>
          var last := chain[|chain| - 1];
          store[last].next == INVALID_PAGE_ID && shape[last].hi == KEY_END)
  }

  lemma {:induction false} ChainAdjacent(store: Store, shape: Shape, root: PageId, p: PageId)
    requires Inv(store, shape, root) && p in shape && store[p].Leaf?
    ensures Adjacent(store, shape, ChainFrom(store, shape, root, p))
    decreases KEY_END - shape[p].hi
  {
    var next := store[p].next;
    assert NodeOk(store, shape, p);
    if next != INVALID_PAGE_ID {
      assert NodeOk(store, shape, next);
      ChainAdjacent(store, shape, root, next);
      var tail, chain := ChainFrom(store, shape, root, next), ChainFrom(store, shape, root, p);
      assert chain == [p] + tail;
      assert forall i :: 0 < i < |chain| ==> chain[i] == tail[i - 1];
      assert chain[|chain| - 1] == tail[|tail| - 1];
    }
  }

  lemma {:induction false} ChainReaches(store: Store, shape: Shape, root: PageId, p: PageId, x: PageId)
    requires Inv(store, shape, root) && p in shape && store[p].Leaf?
    requires x in shape && store[x].Leaf? && shape[p].lo <= shape[x].lo
    ensures x in ChainFrom(store, shape, root, p)
    decreases KEY_END - shape[p].hi
  {
    assert NodeOk(store, shape, p) && NodeOk(store, shape, x);
    if x != p {
      assert Apart(shape[p], shape[x]);
      var next := store[p].next;
      assert NodeOk(store, shape, next);
      ChainReaches(store, shape, root, next, x);
      assert ChainFrom(store, shape, root, p) == [p] + ChainFrom(store, shape, root, next);
    }
  }

  /** From the first leaf, the chain visits every leaf, in key order, and then stops. */
  lemma {:induction false} LeafChain(store: Store, shape: Shape, root: PageId) returns (first: PageId)
    requires Inv(store, shape, root)
    ensures first in shape && store[first].Leaf? && shape[first].lo == KEY_MIN
    ensures var chain := ChainFrom(store, shape, root, first);
            && Adjacent(store, shape, chain)
            && forall x :: x in shape && store[x].Leaf? ==> x in chain
  {
    first := LeafBelow(store, shape, root, root, KEY_MIN);
    assert NodeOk(store, shape, first);
    ChainAdjacent(store, shape, root, first);
    forall x | x in shape && store[x].Leaf?
      ensures x in ChainFrom(store, shape, root, first)
    {
      assert NodeOk(store, shape, x);
      ChainReaches(store, shape, root, first, x);
    }
  }
}
