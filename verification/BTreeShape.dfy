/**
 The live content of a B+ tree as a store of linked nodes, and its invariant.

 The invariant is local: a ghost `Shape` records for every reachable page the key interval
 it covers and its height above the leaves, and every clause relates a page to its
 immediate neighbours. There is no minimum fill: a leaf may be empty, and an internal node
 may hold no key and a single child.
 */
module BTreeShape {
  import opened Storage
  import opened Sequences

  datatype Node =
    | Leaf(keys: seq<int>, vals: seq<Ctid>, parent: PageId, next: PageId)
    | Internal(keys: seq<int>, children: seq<PageId>, parent: PageId)

  /** The page covers the keys in [lo, hi) and lies `level` links above the leaves. */
  datatype Info = Info(lo: int, hi: int, level: nat)

  type Store = map<PageId, Node>
  type Shape = map<PageId, Info>

  function SetParent(n: Node, parent: PageId): Node {
    n.(parent := parent)
  }

  /** Child i of an internal node covers [Fence[i], Fence[i + 1]). */
  function Fence(f: Info, keys: seq<int>): (r: seq<int>)
    ensures |r| == |keys| + 2
  {
    [f.lo] + keys + [f.hi]
  }

  ghost predicate InRange(f: Info) {
    KEY_MIN <= f.lo < f.hi <= KEY_END
  }

  ghost predicate NextOk(next: PageId, f: Info, shape: Shape) {
    if f.hi == KEY_END then next == INVALID_PAGE_ID
    else next in shape && shape[next].level == 0 && shape[next].lo == f.hi
  }

  ghost predicate KeysWithin(keys: seq<int>, lo: int, hi: int) {
    forall i :: 0 <= i < |keys| ==> lo <= keys[i] < hi
  }

  ghost predicate LeafOk(n: Node, f: Info, shape: Shape)
    requires n.Leaf?
  {
    && f.level == 0
    && |n.keys| == |n.vals|
    && StrictlySorted(n.keys)
    && KeysWithin(n.keys, f.lo, f.hi)
    && NextOk(n.next, f, shape)
  }

  ghost predicate ChildOk(p: PageId, n: Node, f: Info, i: nat, store: Store, shape: Shape)
    requires n.Internal? && |n.children| == |n.keys| + 1 && i < |n.children| && f.level > 0
  {
    var c := n.children[i];
    && c in shape && c in store
    && shape[c] == Info(Fence(f, n.keys)[i], Fence(f, n.keys)[i + 1], f.level - 1)
    && store[c].parent == p
  }

  ghost predicate InternalOk(p: PageId, n: Node, f: Info, store: Store, shape: Shape)
    requires n.Internal?
  {
    && f.level > 0
    && |n.children| == |n.keys| + 1
    && StrictlySorted(Fence(f, n.keys))
    && forall i {:trigger ChildOk(p, n, f, i, store, shape)} ::
         0 <= i < |n.children| ==> ChildOk(p, n, f, i, store, shape)
  }

  ghost predicate NodeOk(store: Store, shape: Shape, p: PageId)
    requires p in shape
  {
    && p in store && InRange(shape[p])
    && match store[p]
       case Leaf(_, _, _, _) => LeafOk(store[p], shape[p], shape)
       case Internal(_, _, _) => InternalOk(p, store[p], shape[p], store, shape)
  }

  ghost predicate RootOk(store: Store, shape: Shape, root: PageId) {
    && root in shape && root in store
    && shape[root].lo == KEY_MIN && shape[root].hi == KEY_END
    && store[root].parent == INVALID_PAGE_ID
    && INVALID_PAGE_ID !in shape
  }

  /** The parent pointer of p names a reachable internal node that lists p as a child. */
  ghost predicate LinkedUp(store: Store, shape: Shape, p: PageId)
    requires p in store
  {
    var up := store[p].parent;
    && up in shape && up in store
    && store[up].Internal? && p in store[up].children
  }

  ghost predicate Apart(f: Info, g: Info) {
    f.level == g.level ==> f.hi <= g.lo || g.hi <= f.lo
  }

  ghost predicate AllNodesOk(store: Store, shape: Shape) {
    forall p {:trigger NodeOk(store, shape, p)} :: p in shape ==> NodeOk(store, shape, p)
  }

  ghost predicate AllLinked(store: Store, shape: Shape, root: PageId)
    requires shape.Keys <= store.Keys
  {
    forall p {:trigger LinkedUp(store, shape, p)} :: p in shape && p != root ==> LinkedUp(store, shape, p)
  }

  ghost predicate AllApart(shape: Shape) {
    forall p, q {:trigger Apart(shape[p], shape[q])} :: p in shape && q in shape && p != q ==> Apart(shape[p], shape[q])
  }

  ghost predicate Lower(f: Info, top: Info) {
    f.level < top.level
  }

  ghost predicate AllLower(shape: Shape, root: PageId)
    requires root in shape
  {
    forall p {:trigger Lower(shape[p], shape[root])} :: p in shape && p != root ==> Lower(shape[p], shape[root])
  }

  /** The B+ tree invariant. */
  ghost predicate Inv(store: Store, shape: Shape, root: PageId) {
    && shape.Keys <= store.Keys
    && AllNodesOk(store, shape)
    && RootOk(store, shape, root)
    && AllLinked(store, shape, root)
    && AllApart(shape)
    && AllLower(shape, root)
  }

  /** Every pair stored in a leaf is in m. */
  ghost predicate LeafPairsIn(n: Node, m: map<int, Ctid>)
    requires n.Leaf? && |n.keys| == |n.vals|
  {
    forall i :: 0 <= i < |n.keys| ==> n.keys[i] in m && m[n.keys[i]] == n.vals[i]
  }

  /** Every key of m that a leaf covers is stored in it. */
  ghost predicate LeafCovers(n: Node, f: Info, m: map<int, Ctid>)
    requires n.Leaf?
  {
    forall k :: k in m && f.lo <= k < f.hi ==> k in n.keys
  }

  ghost predicate LeafHolds(n: Node, f: Info, m: map<int, Ctid>)
    requires n.Leaf?
  {
    |n.keys| == |n.vals| && LeafPairsIn(n, m) && LeafCovers(n, f, m)
  }

  /** The leaves store exactly the finite map m. */
  ghost predicate Holds(store: Store, shape: Shape, m: map<int, Ctid>) {
    && shape.Keys <= store.Keys
    && (forall k :: k in m ==> KEY_MIN <= k < KEY_END)
    && (forall p {:trigger LeafHolds(store[p], shape[p], m)} ::
          p in shape && store[p].Leaf? ==> LeafHolds(store[p], shape[p], m))
  }

  // ----- Consequences of the invariant

  /** An internal node sends a key to a child that covers it. */
  lemma {:induction false} RouteChild(store: Store, shape: Shape, root: PageId, p: PageId, key: int, i: nat)
    requires Inv(store, shape, root) && p in shape && store[p].Internal?
    requires shape[p].lo <= key < shape[p].hi
    requires i <= |store[p].keys|
    requires forall j :: 0 <= j < i ==> store[p].keys[j] <= key
    requires i < |store[p].keys| ==> key < store[p].keys[i]
    ensures i < |store[p].children|
    ensures var c := store[p].children[i];
            && c in shape && c in store
            && shape[c].lo <= key < shape[c].hi
            && shape[c].level == shape[p].level - 1
  {
    assert NodeOk(store, shape, p);
    assert ChildOk(p, store[p], shape[p], i, store, shape);
    var fence := Fence(shape[p], store[p].keys);
    assert i > 0 ==> fence[i] == store[p].keys[i - 1];
    assert i < |store[p].keys| ==> fence[i + 1] == store[p].keys[i];
  }

  /** Below a page, every key it covers lies in some leaf. */
  lemma {:induction false} LeafBelow(store: Store, shape: Shape, root: PageId, p: PageId, key: int)
      returns (leaf: PageId)
    requires Inv(store, shape, root) && p in shape
    requires shape[p].lo <= key < shape[p].hi
    ensures leaf in shape && store[leaf].Leaf?
    ensures shape[leaf].lo <= key < shape[leaf].hi
    decreases shape[p].level
  {
    assert NodeOk(store, shape, p);
    if store[p].Leaf? {
      leaf := p;
    } else {
      var keys := store[p].keys;
      assert StrictlySorted(keys) by { KeysOfFence(shape[p], keys); }
      var b := LowerBound(keys, key);
      var i := if b < |keys| && keys[b] == key then b + 1 else b;
      RouteChild(store, shape, root, p, key, i);
      leaf := LeafBelow(store, shape, root, store[p].children[i], key);
    }
  }

  lemma {:induction false} KeysOfFence(f: Info, keys: seq<int>)
    requires StrictlySorted(Fence(f, keys))
    ensures StrictlySorted(keys)
    ensures forall i :: 0 <= i < |keys| ==> f.lo < keys[i] < f.hi
    ensures f.lo < f.hi
  {
    var fence := Fence(f, keys);
    assert fence[0] == f.lo && fence[|keys| + 1] == f.hi;
    forall i | 0 <= i < |keys|
      ensures keys[i] == fence[i + 1] && f.lo < keys[i] < f.hi
    {
      assert fence[0] < fence[i + 1] < fence[|keys| + 1];
    }
  }

  /** Two leaves that cover one key are the same page. */
  lemma {:induction false} LeafUnique(store: Store, shape: Shape, root: PageId, p: PageId, q: PageId, key: int)
    requires Inv(store, shape, root) && p in shape && q in shape
    requires store[p].Leaf? && store[q].Leaf?
    requires shape[p].lo <= key < shape[p].hi && shape[q].lo <= key < shape[q].hi
    ensures p == q
  {
    assert NodeOk(store, shape, p) && NodeOk(store, shape, q);
    assert p != q ==> Apart(shape[p], shape[q]);
  }

  /** The store determines the map it holds. */
  lemma {:induction false} HoldsUnique(store: Store, shape: Shape, root: PageId, m: map<int, Ctid>, m': map<int, Ctid>)
    requires Inv(store, shape, root)
    requires Holds(store, shape, m) && Holds(store, shape, m')
    ensures m == m'
  {
    HoldsWithin(store, shape, root, m, m');
    HoldsWithin(store, shape, root, m', m);
    assert forall k :: k in m <==> k in m';
    assert forall k :: k in m ==> m[k] == m'[k];
  }

  lemma {:induction false} HoldsWithin(store: Store, shape: Shape, root: PageId, m: map<int, Ctid>, m': map<int, Ctid>)
    requires Inv(store, shape, root)
    requires Holds(store, shape, m) && Holds(store, shape, m')
    ensures forall k :: k in m ==> k in m' && m'[k] == m[k]
  {
    forall k | k in m
      ensures k in m' && m'[k] == m[k]
    {
      var p := LeafBelow(store, shape, root, root, k);
      assert LeafHolds(store[p], shape[p], m) && LeafHolds(store[p], shape[p], m');
      var i :| 0 <= i < |store[p].keys| && store[p].keys[i] == k;
    }
  }

  // ----- Rewriting one leaf in place

  lemma {:induction false} ReplaceLeafInv(store: Store, shape: Shape, root: PageId, p: PageId, keys: seq<int>,
      vals: seq<Ctid>)
    requires Inv(store, shape, root) && p in shape && store[p].Leaf?
    requires |keys| == |vals| && StrictlySorted(keys) && KeysWithin(keys, shape[p].lo, shape[p].hi)
    ensures Inv(store[p := store[p].(keys := keys, vals := vals)], shape, root)
  {
    ReplaceLeafNodes(store, shape, p, keys, vals);
    var store' := store[p := store[p].(keys := keys, vals := vals)];
    forall x | x in shape && x != root
      ensures LinkedUp(store', shape, x)
    {
      assert LinkedUp(store, shape, x);
    }
  }

  lemma {:induction false} ReplaceLeafNodes(store: Store, shape: Shape, p: PageId, keys: seq<int>, vals: seq<Ctid>)
    requires shape.Keys <= store.Keys && AllNodesOk(store, shape) && p in shape && store[p].Leaf?
    requires |keys| == |vals| && StrictlySorted(keys) && KeysWithin(keys, shape[p].lo, shape[p].hi)
    ensures AllNodesOk(store[p := store[p].(keys := keys, vals := vals)], shape)
  {
    var store' := store[p := store[p].(keys := keys, vals := vals)];
    forall x | x in shape
      ensures NodeOk(store', shape, x)
    {
      assert NodeOk(store, shape, x);
      if store[x].Internal? {
        assert x != p;
        forall i | 0 <= i < |store[x].children|
          ensures ChildOk(x, store'[x], shape[x], i, store', shape)
        {
          assert ChildOk(x, store[x], shape[x], i, store, shape);
        }
      }
    }
  }

  /** Rewriting one leaf changes the map only on the keys that leaf covers. */
  lemma {:induction false} ReplaceLeafHolds(store: Store, shape: Shape, root: PageId, p: PageId,
                         keys: seq<int>, vals: seq<Ctid>, m: map<int, Ctid>, m': map<int, Ctid>)
    requires Inv(store, shape, root) && Holds(store, shape, m)
    requires p in shape && store[p].Leaf?
    requires LeafHolds(store[p].(keys := keys, vals := vals), shape[p], m')
    requires forall k :: k in m' ==> KEY_MIN <= k < KEY_END
    requires forall k | !(shape[p].lo <= k < shape[p].hi) :: k in m <==> k in m'
    requires forall k | !(shape[p].lo <= k < shape[p].hi) && k in m && k in m' :: m[k] == m'[k]
    ensures Holds(store[p := store[p].(keys := keys, vals := vals)], shape, m')
  {
    var store' := store[p := store[p].(keys := keys, vals := vals)];
    forall x | x in shape && store'[x].Leaf?
      ensures LeafHolds(store'[x], shape[x], m')
    {
      if x != p {
        assert NodeOk(store, shape, x) && NodeOk(store, shape, p);
        assert Apart(shape[x], shape[p]);
        assert LeafHolds(store[x], shape[x], m);
      }
    }
  }

  /** Putting a fresh pair into the leaf that covers its key. */
  lemma {:induction false} PutInLeaf(store: Store, shape: Shape, root: PageId, p: PageId, key: int, val: Ctid,
      m: map<int, Ctid>)
    requires Inv(store, shape, root) && Holds(store, shape, m)
    requires p in shape && store[p].Leaf? && |store[p].keys| == |store[p].vals|
    requires shape[p].lo <= key < shape[p].hi && KEY_MIN <= key < KEY_END
    requires key !in store[p].keys
    ensures var i := LowerBound(store[p].keys, key);
            var n := store[p].(keys := InsertAt(store[p].keys, i, key), vals := InsertAt(store[p].vals, i, val));
            Inv(store[p := n], shape, root) && Holds(store[p := n], shape, m[key := val])
    ensures key !in m
  {
    assert NodeOk(store, shape, p);
    assert LeafHolds(store[p], shape[p], m);
    var i := LowerBound(store[p].keys, key);
    var keys, vals := InsertAt(store[p].keys, i, key), InsertAt(store[p].vals, i, val);
    SortedInsert(store[p].keys, key);
    ReplaceLeafInv(store, shape, root, p, keys, vals);
    var m' := m[key := val];
    var n := store[p].(keys := keys, vals := vals);
    PutPairs(store[p], i, key, val, m);
    assert LeafCovers(n, shape[p], m') by { InsertKeepsMembers(store[p].keys, i, key); }
    ReplaceLeafHolds(store, shape, root, p, keys, vals, m, m');
  }

  lemma {:induction false} PutPairs(n: Node, i: nat, key: int, val: Ctid, m: map<int, Ctid>)
    requires n.Leaf? && |n.keys| == |n.vals| && LeafPairsIn(n, m)
    requires i <= |n.keys| && key !in n.keys
    ensures LeafPairsIn(n.(keys := InsertAt(n.keys, i, key), vals := InsertAt(n.vals, i, val)), m[key := val])
  {
    var n', m' := n.(keys := InsertAt(n.keys, i, key), vals := InsertAt(n.vals, i, val)), m[key := val];
    forall j | 0 <= j < |n'.keys|
      ensures n'.keys[j] in m' && m'[n'.keys[j]] == n'.vals[j]
    {
      if j < i {
        assert n'.keys[j] == n.keys[j];
      } else if j > i {
        assert n'.keys[j] == n.keys[j - 1];
      }
    }
  }

  lemma {:induction false} InsertKeepsMembers<T>(s: seq<T>, i: nat, x: T)
    requires i <= |s|
    ensures x in InsertAt(s, i, x)
    ensures forall y :: y in s ==> y in InsertAt(s, i, x)
    ensures forall y :: y in InsertAt(s, i, x) ==> y == x || y in s
  {
    var r := InsertAt(s, i, x);
    assert r[i] == x;
    forall y | y in s
      ensures y in r
    {
      var j :| 0 <= j < |s| && s[j] == y;
      assert r[if j < i then j else j + 1] == y;
    }
  }

  /** Dropping a stored pair from the leaf that covers its key. */
  lemma {:induction false} DropFromLeaf(store: Store, shape: Shape, root: PageId, p: PageId, i: nat, m: map<int, Ctid>)
    requires Inv(store, shape, root) && Holds(store, shape, m)
    requires p in shape && store[p].Leaf? && i < |store[p].keys| == |store[p].vals|
    ensures var n := store[p].(keys := RemoveAt(store[p].keys, i), vals := RemoveAt(store[p].vals, i));
            Inv(store[p := n], shape, root) && Holds(store[p := n], shape, m - {store[p].keys[i]})
    ensures store[p].keys[i] in m
  {
    assert NodeOk(store, shape, p);
    assert LeafHolds(store[p], shape[p], m);
    var keys, vals := RemoveAt(store[p].keys, i), RemoveAt(store[p].vals, i);
    var m' := m - {store[p].keys[i]};
    ReplaceLeafInv(store, shape, root, p, keys, vals);
    var n := store[p].(keys := keys, vals := vals);
    assert LeafPairsIn(n, m') by {
      forall j | 0 <= j < |n.keys|
        ensures n.keys[j] in m' && m'[n.keys[j]] == n.vals[j]
      {
        var j' := if j < i then j else j + 1;
        assert n.keys[j] == store[p].keys[j'] && n.vals[j] == store[p].vals[j'];
      }
    }
    ReplaceLeafHolds(store, shape, root, p, keys, vals, m, m');
  }
}
