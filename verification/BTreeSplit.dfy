/**
 Splitting a node and hanging the new half below the parent.

 `SplitNode` cuts node p and moves its right half to a fresh page q. Until the parent lists
 q the store is not a B+ tree; `Absorb` is the parent update that is still owed (or the new
 root, when p had no parent). `SplitKeepsInv` says that paying it restores the invariant and
 never changes the stored map.
 */
module BTreeSplit {
  import opened Storage
  import opened Sequences
  import opened BTreeShape

  function Reparent(store: Store, kids: seq<PageId>, q: PageId): (r: Store)
    ensures r.Keys == store.Keys
  {
    map x | x in store :: if x in kids then SetParent(store[x], q) else store[x]
  }

  predicate CanSplit(n: Node, mid: nat) {
    match n
    case Leaf(keys, vals, _, _) => 0 < mid < |keys| == |vals|
    case Internal(keys, children, _) => mid < |keys| && |children| == |keys| + 1
  }

  function LeftHalf(n: Node, mid: nat, q: PageId): Node
    requires CanSplit(n, mid)
  {
    match n
    case Leaf(keys, vals, parent, next) => Leaf(keys[..mid], vals[..mid], parent, q)
    case Internal(keys, children, parent) => Internal(keys[..mid], children[..mid + 1], parent)
  }

  function RightHalf(n: Node, mid: nat): Node
    requires CanSplit(n, mid)
  {
    match n
    case Leaf(keys, vals, parent, next) => Leaf(keys[mid..], vals[mid..], parent, next)
    case Internal(keys, children, parent) => Internal(keys[mid + 1..], children[mid + 1..], parent)
  }

  /** The children that move to the right half. */
  function MovedKids(n: Node, mid: nat): seq<PageId>
    requires CanSplit(n, mid)
  {
    match n
    case Leaf(_, _, _, _) => []
    case Internal(keys, children, _) => children[mid + 1..]
  }

  function SplitNode(store: Store, p: PageId, mid: nat, q: PageId): Store
    requires p in store && CanSplit(store[p], mid)
  {
    var n := store[p];
    Reparent(store, MovedKids(n, mid), q)[p := LeftHalf(n, mid, q)][q := RightHalf(n, mid)]
  }

  /** Adding a separator and the child to its right. */
  function InsertChild(n: Node, key: int, child: PageId): (r: Node)
    requires n.Internal? && |n.children| == |n.keys| + 1
    ensures r.Internal? && |r.children| == |r.keys| + 1
  {
    var i := LowerBound(n.keys, key);
    Internal(InsertAt(n.keys, i, key), InsertAt(n.children, i + 1, child), n.parent)
  }

  function NewRoot(left: PageId, key: int, right: PageId): Node {
    Internal([key], [left, right], INVALID_PAGE_ID)
  }

  /** The parent update owed after a split; r is the page a new root would take. */
  function Absorb(store: Store, p: PageId, key: int, q: PageId, parent: PageId, r: PageId): Store
    requires p in store && q in store
    requires parent != INVALID_PAGE_ID ==>
               parent in store && store[parent].Internal? && |store[parent].children| == |store[parent].keys| + 1
  {
    if parent == INVALID_PAGE_ID then
      store[p := SetParent(store[p], r)][q := SetParent(store[q], r)][r := NewRoot(p, key, q)]
    else
      store[parent := InsertChild(store[parent], key, q)]
  }

  function SplitShape(shape: Shape, p: PageId, key: int, q: PageId): Shape
    requires p in shape
  {
    var f := shape[p];
    shape[p := Info(f.lo, key, f.level)][q := Info(key, f.hi, f.level)]
  }

  function GrownShape(shape: Shape, p: PageId, r: PageId): Shape
    requires p in shape
  {
    shape[r := Info(KEY_MIN, KEY_END, shape[p].level + 1)]
  }

  /** Where page p stands among the children of its parent. */
  lemma {:induction false} ChildIndex(store: Store, shape: Shape, root: PageId, p: PageId) returns (i: nat)
    requires Inv(store, shape, root) && p in shape && p != root
    ensures var up := store[p].parent;
            && up in shape && up in store && up != p && store[up].Internal?
            && NodeOk(store, shape, up)
            && i < |store[up].children| && store[up].children[i] == p
            && ChildOk(up, store[up], shape[up], i, store, shape)
            && shape[p].level + 1 == shape[up].level
  {
    assert LinkedUp(store, shape, p);
    var up := store[p].parent;
    assert NodeOk(store, shape, up);
    i :| 0 <= i < |store[up].children| && store[up].children[i] == p;
    assert ChildOk(up, store[up], shape[up], i, store, shape);
  }

  /** The insertion point of a separator strictly inside child i is i. */
  lemma {:induction false} SeparatorIndex(f: Info, keys: seq<int>, i: nat, key: int)
    requires StrictlySorted(Fence(f, keys)) && i <= |keys|
    requires Fence(f, keys)[i] < key < Fence(f, keys)[i + 1]
    ensures LowerBound(keys, key) == i
    ensures Fence(f, InsertAt(keys, i, key)) == InsertAt(Fence(f, keys), i + 1, key)
    ensures StrictlySorted(Fence(f, InsertAt(keys, i, key)))
  {
    var fence := Fence(f, keys);
    var b := LowerBound(keys, key);
    assert b < |keys| ==> keys[b] == fence[b + 1];
    assert i < |keys| ==> keys[i] == fence[i + 1];
    assert b == i;
    assert Fence(f, InsertAt(keys, i, key)) == InsertAt(fence, i + 1, key);
    SortedInsertAt(fence, i + 1, key);
  }

  lemma {:induction false} SortedInsertAt(s: seq<int>, i: nat, x: int)
    requires StrictlySorted(s) && 0 < i < |s|
    requires s[i - 1] < x < s[i]
    ensures StrictlySorted(InsertAt(s, i, x))
  {
    var r := InsertAt(s, i, x);
    forall a, b | 0 <= a < b < |r|
      ensures r[a] < r[b]
    {
      var a', b' := if a < i then a else a - 1, if b < i then b else b - 1;
      assert a != i ==> r[a] == s[a'];
      assert b != i ==> r[b] == s[b'];
      assert a < i ==> s[a] <= s[i - 1];
      assert b > i ==> s[i] <= s[b - 1];
    }
  }

  /** The separator lies strictly inside the interval of the node that splits. */
  lemma {:induction false} PromotedWithin(store: Store, shape: Shape, p: PageId, mid: nat)
    requires p in shape && NodeOk(store, shape, p) && CanSplit(store[p], mid)
    ensures shape[p].lo < store[p].keys[mid] < shape[p].hi
  {
    var n := store[p];
    if n.Leaf? {
      assert n.keys[0] < n.keys[mid];
    } else {
      var fence := Fence(shape[p], n.keys);
      assert fence[mid + 1] == n.keys[mid];
      assert fence[0] < fence[mid + 1] < fence[|fence| - 1];
    }
  }

  // ----- Splitting below an existing parent

  /** What a split of p below its parent `up` (as child i) assumes. */
  ghost predicate SplitSite(store: Store, shape: Shape, root: PageId, p: PageId, mid: nat, q: PageId,
                            up: PageId, i: nat)
  {
    && Inv(store, shape, root)
    && p in shape && p != root && CanSplit(store[p], mid)
    && q !in store && q != INVALID_PAGE_ID
    && up == store[p].parent && up in shape && up != p && store[up].Internal?
    && NodeOk(store, shape, p)
    && NodeOk(store, shape, up)
    && i < |store[up].children| && store[up].children[i] == p
    && ChildOk(up, store[up], shape[up], i, store, shape)
    && shape[p].level + 1 == shape[up].level
    && shape[p].lo < store[p].keys[mid] < shape[p].hi
    && LowerBound(store[up].keys, store[p].keys[mid]) == i
  }

  function SplitBelow(store: Store, p: PageId, mid: nat, q: PageId, up: PageId): Store
    requires p in store && CanSplit(store[p], mid)
    requires up in store && store[up].Internal? && |store[up].children| == |store[up].keys| + 1
  {
    SplitNode(store, p, mid, q)[up := InsertChild(store[up], store[p].keys[mid], q)]
  }

  lemma {:induction false} MakeSplitSite(store: Store, shape: Shape, root: PageId, p: PageId, mid: nat, q: PageId)
      returns (up: PageId, i: nat)
    requires Inv(store, shape, root) && p in shape && p != root && CanSplit(store[p], mid)
    requires q !in store && q != INVALID_PAGE_ID
    ensures SplitSite(store, shape, root, p, mid, q, up, i)
  {
    up := store[p].parent;
    i := ChildIndex(store, shape, root, p);
    assert NodeOk(store, shape, p);
    PromotedWithin(store, shape, p, mid);
    SeparatorIndex(shape[up], store[up].keys, i, store[p].keys[mid]);
  }

  /** The moved children are one level below p and point to it, so they are neither p nor its parent. */
  lemma {:induction false} MovedKidsOfP(store: Store, shape: Shape, p: PageId, mid: nat)
    requires p in shape && NodeOk(store, shape, p) && CanSplit(store[p], mid)
    ensures forall c :: c in MovedKids(store[p], mid) ==>
              c in shape && c in store && c != p && store[c].parent == p && shape[c].level + 1 == shape[p].level
  {
    var n := store[p];
    forall c | c in MovedKids(n, mid)
      ensures c in shape && c in store && c != p && store[c].parent == p && shape[c].level + 1 == shape[p].level
    {
      var j :| 0 <= j < |MovedKids(n, mid)| && MovedKids(n, mid)[j] == c;
      assert n.children[mid + 1 + j] == c;
      assert ChildOk(p, n, shape[p], mid + 1 + j, store, shape);
    }
  }

  /** What the split leaves on each page. */
  ghost predicate SplitResult(store: Store, p: PageId, mid: nat, q: PageId, up: PageId, store': Store)
    requires p in store && CanSplit(store[p], mid)
    requires up in store && store[up].Internal? && |store[up].children| == |store[up].keys| + 1
  {
    && store'.Keys == store.Keys + {q}
    && store'[p] == LeftHalf(store[p], mid, q)
    && store'[q] == RightHalf(store[p], mid)
    && store'[up] == InsertChild(store[up], store[p].keys[mid], q)
    && up !in MovedKids(store[p], mid)
    && forall x :: x in store && x != p && x != up ==>
         store'[x] == (if x in MovedKids(store[p], mid) then SetParent(store[x], q) else store[x])
  }

  lemma {:induction false} SplitBelowLookup(store: Store, shape: Shape, root: PageId, p: PageId, mid: nat, q: PageId,
      up: PageId, i: nat)
    requires SplitSite(store, shape, root, p, mid, q, up, i)
    ensures SplitResult(store, p, mid, q, up, SplitBelow(store, p, mid, q, up))
  {
    MovedKidsOfP(store, shape, p, mid);
  }

  lemma {:induction false} SplitLeftOk(store: Store, shape: Shape, root: PageId, p: PageId, mid: nat, q: PageId,
      up: PageId, i: nat,
                    store': Store)
    requires SplitSite(store, shape, root, p, mid, q, up, i) && SplitResult(store, p, mid, q, up, store')
    ensures NodeOk(store', SplitShape(shape, p, store[p].keys[mid], q), p)
  {
    var n, key := store[p], store[p].keys[mid];
    var shape' := SplitShape(shape, p, key, q);
    if n.Internal? {
      var fence, fence' := Fence(shape[p], n.keys), Fence(shape'[p], n.keys[..mid]);
      assert forall j :: 0 <= j < mid + 2 ==> fence'[j] == fence[j];
      forall j | 0 <= j < mid + 1
        ensures ChildOk(p, store'[p], shape'[p], j, store', shape')
      {
        assert ChildOk(p, n, shape[p], j, store, shape);
        KidStays(store, shape, p, mid, j);
      }
    } 
  }

  /** A child left of the cut is not among the moved ones. */
  lemma {:induction false} KidStays(store: Store, shape: Shape, p: PageId, mid: nat, j: nat)
    requires p in shape && NodeOk(store, shape, p) && store[p].Internal? && CanSplit(store[p], mid)
    requires j <= mid
    ensures store[p].children[j] !in MovedKids(store[p], mid)
  {
    var n := store[p];
    var fence := Fence(shape[p], n.keys);
    assert ChildOk(p, n, shape[p], j, store, shape);
    forall k | 0 <= k < |MovedKids(n, mid)|
      ensures MovedKids(n, mid)[k] != n.children[j]
    {
      assert ChildOk(p, n, shape[p], mid + 1 + k, store, shape);
      assert fence[j] < fence[mid + 1 + k];
    }
  }

  lemma {:induction false} SplitRightOk(store: Store, shape: Shape, root: PageId, p: PageId, mid: nat, q: PageId,
      up: PageId, i: nat,
                     store': Store)
    requires SplitSite(store, shape, root, p, mid, q, up, i) && SplitResult(store, p, mid, q, up, store')
    ensures NodeOk(store', SplitShape(shape, p, store[p].keys[mid], q), q)
  {
    var n, key := store[p], store[p].keys[mid];
    var shape' := SplitShape(shape, p, key, q);
    if n.Leaf? {
      assert forall j :: mid <= j < |n.keys| ==> n.keys[mid] <= n.keys[j];
      assert store'[q] == Leaf(n.keys[mid..], n.vals[mid..], n.parent, n.next);
    } else {
      var fence, fence' := Fence(shape[p], n.keys), Fence(shape'[q], n.keys[mid + 1..]);
      assert forall j :: 0 <= j < |fence'| ==> fence'[j] == fence[mid + 1 + j];
      forall j | 0 <= j < |n.children| - mid - 1
        ensures ChildOk(q, store'[q], shape'[q], j, store', shape')
      {
        assert ChildOk(p, n, shape[p], mid + 1 + j, store, shape);
        assert store'[q].children[j] == n.children[mid + 1 + j];
        assert MovedKids(n, mid)[j] == n.children[mid + 1 + j];
      }
    }
  }

  /** A child of the parent other than the two halves is untouched, at its shifted index. */
  lemma {:induction false} SplitParentChild(store: Store, shape: Shape, root: PageId, p: PageId, mid: nat, q: PageId,
      up: PageId, i: nat,
                         store': Store, j: nat)
    requires SplitSite(store, shape, root, p, mid, q, up, i) && SplitResult(store, p, mid, q, up, store')
    requires j < |store[up].children| && j != i
    ensures var c := store[up].children[j];
            var shape' := SplitShape(shape, p, store[p].keys[mid], q);
            && c in shape' && c in store' && store'[c].parent == up
            && shape'[c] == Info(Fence(shape[up], store[up].keys)[j], Fence(shape[up], store[up].keys)[j + 1],
                                 shape[up].level - 1)
  {
    var fence := Fence(shape[up], store[up].keys);
    MovedKidsOfP(store, shape, p, mid);
    assert ChildOk(up, store[up], shape[up], j, store, shape);
    assert fence[if j < i then j else i] < fence[if j < i then i else j];
  }

  lemma {:induction false} SplitParentOk(store: Store, shape: Shape, root: PageId, p: PageId, mid: nat, q: PageId,
      up: PageId, i: nat,
                      store': Store)
    requires SplitSite(store, shape, root, p, mid, q, up, i) && SplitResult(store, p, mid, q, up, store')
    ensures NodeOk(store', SplitShape(shape, p, store[p].keys[mid], q), up)
  {
    var key, u := store[p].keys[mid], store[up];
    var shape' := SplitShape(shape, p, key, q);
    SeparatorIndex(shape[up], u.keys, i, key);
    forall j | 0 <= j < |store'[up].children|
      ensures ChildOk(up, store'[up], shape'[up], j, store', shape')
    {
      if j < i {
        SplitParentChild(store, shape, root, p, mid, q, up, i, store', j);
      } else if j > i + 1 {
        SplitParentChild(store, shape, root, p, mid, q, up, i, store', j - 1);
      }
    }
  }

  lemma {:induction false} SplitOtherOk(store: Store, shape: Shape, root: PageId, p: PageId, mid: nat, q: PageId,
      up: PageId, i: nat,
                     store': Store, x: PageId)
    requires SplitSite(store, shape, root, p, mid, q, up, i) && SplitResult(store, p, mid, q, up, store')
    requires x in shape && x != p && x != up
    ensures NodeOk(store', SplitShape(shape, p, store[p].keys[mid], q), x)
  {
    var key := store[p].keys[mid];
    var shape' := SplitShape(shape, p, key, q);
    MovedKidsOfP(store, shape, p, mid);
    assert NodeOk(store, shape, x);
    if store[x].Internal? {
      forall j | 0 <= j < |store[x].children|
        ensures ChildOk(x, store'[x], shape'[x], j, store', shape')
      {
        assert ChildOk(x, store[x], shape[x], j, store, shape);
      }
    }
  }

  lemma {:induction false} SplitBelowNodes(store: Store, shape: Shape, root: PageId, p: PageId, mid: nat, q: PageId,
      up: PageId, i: nat,
                        store': Store)
    requires SplitSite(store, shape, root, p, mid, q, up, i) && SplitResult(store, p, mid, q, up, store')
    ensures AllNodesOk(store', SplitShape(shape, p, store[p].keys[mid], q))
  {
    SplitLeftOk(store, shape, root, p, mid, q, up, i, store');
    SplitRightOk(store, shape, root, p, mid, q, up, i, store');
    SplitParentOk(store, shape, root, p, mid, q, up, i, store');
    forall x | x in shape && x != p && x != up
      ensures NodeOk(store', SplitShape(shape, p, store[p].keys[mid], q), x)
    {
      SplitOtherOk(store, shape, root, p, mid, q, up, i, store', x);
    }
  }

  lemma {:induction false} SplitShapeApart(shape: Shape, p: PageId, key: int, q: PageId)
    requires AllApart(shape) && p in shape && q !in shape
    requires shape[p].lo < key < shape[p].hi
    ensures AllApart(SplitShape(shape, p, key, q))
  {
    var shape' := SplitShape(shape, p, key, q);
    forall x, y | x in shape' && y in shape' && x != y
      ensures Apart(shape'[x], shape'[y])
    {
      var x', y' := if x == q then p else x, if y == q then p else y;
      assert x' != y' ==> Apart(shape[x'], shape[y']);
    }
  }

  lemma {:induction false} SplitShapeLower(shape: Shape, root: PageId, p: PageId, key: int, q: PageId)
    requires root in shape && AllLower(shape, root) && p in shape && p != root && q !in shape
    ensures AllLower(SplitShape(shape, p, key, q), root)
  {
    var shape' := SplitShape(shape, p, key, q);
    forall x | x in shape' && x != root
      ensures Lower(shape'[x], shape'[root])
    {
      assert Lower(shape[if x == q then p else x], shape[root]);
    }
  }

  lemma {:induction false} SplitBelowLinks(store: Store, shape: Shape, root: PageId, p: PageId, mid: nat, q: PageId,
      up: PageId, i: nat,
                        store': Store)
    requires SplitSite(store, shape, root, p, mid, q, up, i) && SplitResult(store, p, mid, q, up, store')
    ensures var shape' := SplitShape(shape, p, store[p].keys[mid], q);
            shape'.Keys <= store'.Keys && AllLinked(store', shape', root)
  {
    var n, key := store[p], store[p].keys[mid];
    var shape' := SplitShape(shape, p, key, q);
    InsertKeepsMembers(store[up].children, i + 1, q);
    forall x | x in shape' && x != root
      ensures LinkedUp(store', shape', x)
    {
      if x != q {
        assert LinkedUp(store, shape, x);
        if store[x].parent == p && x !in MovedKids(n, mid) {
          assert n.children == n.children[..mid + 1] + n.children[mid + 1..];
        }
      }
    }
  }

  lemma {:induction false} SplitBelowHolds(store: Store, shape: Shape, root: PageId, p: PageId, mid: nat, q: PageId,
      up: PageId, i: nat,
                        store': Store, m: map<int, Ctid>)
    requires SplitSite(store, shape, root, p, mid, q, up, i) && SplitResult(store, p, mid, q, up, store')
    requires Holds(store, shape, m)
    ensures Holds(store', SplitShape(shape, p, store[p].keys[mid], q), m)
  {
    var n, key := store[p], store[p].keys[mid];
    var shape' := SplitShape(shape, p, key, q);
    forall x | x in shape' && store'[x].Leaf?
      ensures LeafHolds(store'[x], shape'[x], m)
    {
      if x == p || x == q {
        assert LeafHolds(n, shape[p], m);
        HalvesHold(n, shape[p], mid, q, m);
      } else {
        assert LeafHolds(store[x], shape[x], m);
      }
    }
  }

  lemma {:induction false} HalvesHold(n: Node, f: Info, mid: nat, q: PageId, m: map<int, Ctid>)
    requires n.Leaf? && CanSplit(n, mid) && LeafHolds(n, f, m) && StrictlySorted(n.keys)
    requires f.lo < n.keys[mid] < f.hi
    ensures LeafHolds(LeftHalf(n, mid, q), Info(f.lo, n.keys[mid], f.level), m)
    ensures LeafHolds(RightHalf(n, mid), Info(n.keys[mid], f.hi, f.level), m)
  {
    forall k | k in m && f.lo <= k < f.hi
      ensures k < n.keys[mid] ==> k in n.keys[..mid]
      ensures n.keys[mid] <= k ==> k in n.keys[mid..]
    {
      var j :| 0 <= j < |n.keys| && n.keys[j] == k;
      if j < mid {
        assert n.keys[..mid][j] == k;
      } else {
        assert n.keys[mid..][j - mid] == k;
      }
    }
  }

  lemma {:induction false} SplitBelowInv(store: Store, shape: Shape, root: PageId, p: PageId, mid: nat, q: PageId,
      m: map<int, Ctid>)
    requires Inv(store, shape, root) && Holds(store, shape, m)
    requires p in shape && p != root && CanSplit(store[p], mid)
    requires q !in store && q != INVALID_PAGE_ID
    ensures var up := store[p].parent;
            && up in store && up in shape && up != p && store[up].Internal?
            && |store[up].children| == |store[up].keys| + 1
            && up !in MovedKids(store[p], mid)
    ensures var store' := SplitBelow(store, p, mid, q, store[p].parent);
            var shape' := SplitShape(shape, p, store[p].keys[mid], q);
            Inv(store', shape', root) && Holds(store', shape', m)
  {
    var up, i := MakeSplitSite(store, shape, root, p, mid, q);
    SplitBelowLookup(store, shape, root, p, mid, q, up, i);
    MovedKidsOfP(store, shape, p, mid);
    var store' := SplitBelow(store, p, mid, q, up);
    SplitBelowNodes(store, shape, root, p, mid, q, up, i, store');
    SplitBelowLinks(store, shape, root, p, mid, q, up, i, store');
    SplitShapeApart(shape, p, store[p].keys[mid], q);
    SplitShapeLower(shape, root, p, store[p].keys[mid], q);
    SplitBelowHolds(store, shape, root, p, mid, q, up, i, store', m);
  }

  // ----- Splitting the root

  /** Putting an empty internal node above the root. */
  function Grow(store: Store, root: PageId, r: PageId): Store
    requires root in store
  {
    store[root := SetParent(store[root], r)][r := Internal([], [root], INVALID_PAGE_ID)]
  }

  lemma {:induction false} GrowInv(store: Store, shape: Shape, root: PageId, r: PageId, m: map<int, Ctid>)
    requires Inv(store, shape, root) && Holds(store, shape, m)
    requires r !in store && r != INVALID_PAGE_ID
    ensures Inv(Grow(store, root, r), GrownShape(shape, root, r), r)
    ensures Holds(Grow(store, root, r), GrownShape(shape, root, r), m)
  {
    var store', shape' := Grow(store, root, r), GrownShape(shape, root, r);
    GrowNodes(store, shape, root, r);
    forall x | x in shape' && x != r
      ensures LinkedUp(store', shape', x)
    {
      if x == root {
        assert root in store'[r].children by { assert store'[r].children[0] == root; }
      } else {
        assert LinkedUp(store, shape, x);
      }
    }
    forall x | x in shape' && x != r
      ensures Lower(shape'[x], shape'[r])
    {
      assert x != root ==> Lower(shape[x], shape[root]);
    }
    forall x, y | x in shape' && y in shape' && x != y
      ensures Apart(shape'[x], shape'[y])
    {
      assert x != r ==> Lower(shape'[x], shape'[r]);
      assert y != r ==> Lower(shape'[y], shape'[r]);
      assert x != r && y != r ==> Apart(shape[x], shape[y]);
    }
    forall x | x in shape' && store'[x].Leaf?
      ensures LeafHolds(store'[x], shape'[x], m)
    {
      assert LeafHolds(store[x], shape[x], m);
    }
  }

  lemma {:induction false} GrowNodes(store: Store, shape: Shape, root: PageId, r: PageId)
    requires Inv(store, shape, root)
    requires r !in store && r != INVALID_PAGE_ID
    ensures AllNodesOk(Grow(store, root, r), GrownShape(shape, root, r))
  {
    var store', shape' := Grow(store, root, r), GrownShape(shape, root, r);
    forall x | x in shape'
      ensures NodeOk(store', shape', x)
    {
      if x == r {
        assert ChildOk(r, store'[r], shape'[r], 0, store', shape');
      } else {
        assert NodeOk(store, shape, x);
        if store[x].Internal? {
          forall j | 0 <= j < |store[x].children|
            ensures ChildOk(x, store'[x], shape'[x], j, store', shape')
          {
            assert ChildOk(x, store[x], shape[x], j, store, shape);
          }
        }
      }
    }
  }

  /** Splitting p and paying the owed parent update, in one step. */
  function SplitAndAbsorb(store: Store, p: PageId, mid: nat, q: PageId, r: PageId): Store
    requires p in store && CanSplit(store[p], mid) && p != q && q !in MovedKids(store[p], mid)
    requires var up := store[p].parent;
             up != INVALID_PAGE_ID ==>
               && up in store && up != p && up != q && up !in MovedKids(store[p], mid)
               && store[up].Internal? && |store[up].children| == |store[up].keys| + 1
  {
    Absorb(SplitNode(store, p, mid, q), p, store[p].keys[mid], q, store[p].parent, r)
  }

  function ShapeAfterSplit(shape: Shape, p: PageId, key: int, q: PageId, isRoot: bool, r: PageId): Shape
    requires p in shape
  {
    if isRoot then SplitShape(GrownShape(shape, p, r), p, key, q) else SplitShape(shape, p, key, q)
  }

  /** The page p may be split: what `SplitAndAbsorb` needs to be defined. */
  lemma {:induction false} SplitSafe(store: Store, shape: Shape, root: PageId, p: PageId, mid: nat, q: PageId)
    requires Inv(store, shape, root) && p in shape && CanSplit(store[p], mid) && q !in store
    ensures p == root <==> store[p].parent == INVALID_PAGE_ID
    ensures q !in MovedKids(store[p], mid) && p !in MovedKids(store[p], mid)
    ensures forall x :: x in MovedKids(store[p], mid) ==> x in shape && x in store
    ensures var up := store[p].parent;
            p != root ==>
              && up in shape && up in store && up != p && up !in MovedKids(store[p], mid)
              && store[up].Internal? && |store[up].children| == |store[up].keys| + 1
              && shape[up].level == shape[p].level + 1
  {
    assert NodeOk(store, shape, p);
    MovedKidsOfP(store, shape, p, mid);
    if p != root {
      var i := ChildIndex(store, shape, root, p);
    }
  }

  /** Splitting any node and paying the owed parent update keeps the tree and its map. */
  lemma {:induction false} SplitKeepsInv(store: Store, shape: Shape, root: PageId, p: PageId, mid: nat, q: PageId,
      r: PageId,
                      m: map<int, Ctid>)
    requires Inv(store, shape, root) && Holds(store, shape, m)
    requires p in shape && CanSplit(store[p], mid)
    requires q !in store && q != INVALID_PAGE_ID && r !in store && r != INVALID_PAGE_ID && r != q
    ensures q !in MovedKids(store[p], mid) && p != q
    ensures var up := store[p].parent;
            up != INVALID_PAGE_ID ==>
              && up in store && up != p && up != q && up !in MovedKids(store[p], mid)
              && store[up].Internal? && |store[up].children| == |store[up].keys| + 1
    ensures var store' := SplitAndAbsorb(store, p, mid, q, r);
            var shape' := ShapeAfterSplit(shape, p, store[p].keys[mid], q, p == root, r);
            Inv(store', shape', if p == root then r else root) && Holds(store', shape', m)
  {
    SplitSafe(store, shape, root, p, mid, q);
    if p != root {
      SplitBelowInv(store, shape, root, p, mid, q, m);
    } else {
      SplitRootInv(store, shape, root, mid, q, r, m);
    }
  }

  lemma {:induction false} SplitRootInv(store: Store, shape: Shape, root: PageId, mid: nat, q: PageId, r: PageId,
      m: map<int, Ctid>)
    requires Inv(store, shape, root) && Holds(store, shape, m) && CanSplit(store[root], mid)
    requires q !in store && q != INVALID_PAGE_ID && r !in store && r != INVALID_PAGE_ID && r != q
    requires q !in MovedKids(store[root], mid)
    ensures var store' := SplitAndAbsorb(store, root, mid, q, r);
            var shape' := SplitShape(GrownShape(shape, root, r), root, store[root].keys[mid], q);
            Inv(store', shape', r) && Holds(store', shape', m)
  {
    GrowInv(store, shape, root, r, m);
    SplitBelowInv(Grow(store, root, r), GrownShape(shape, root, r), r, root, mid, q, m);
    SplitSafe(store, shape, root, root, mid, q);
    assert r !in MovedKids(store[root], mid);
    RootSplitStores(store, root, mid, q, r);
  }

  /** Growing first and splitting then gives the store the code reaches the other way round. */
  lemma {:induction false} RootSplitStores(store: Store, p: PageId, mid: nat, q: PageId, r: PageId)
    requires p in store && CanSplit(store[p], mid) && store[p].parent == INVALID_PAGE_ID
    requires q !in store && r !in store && r != q
    requires p !in MovedKids(store[p], mid) && q !in MovedKids(store[p], mid)
    requires r !in MovedKids(store[p], mid)
    ensures SplitBelow(Grow(store, p, r), p, mid, q, r) == SplitAndAbsorb(store, p, mid, q, r)
  {
    var key := store[p].keys[mid];
    assert InsertAt([], 0, key) == [key];
    assert InsertAt([p], 1, q) == [p, q];
    var a, b := SplitBelow(Grow(store, p, r), p, mid, q, r), SplitAndAbsorb(store, p, mid, q, r);
    assert a.Keys == b.Keys;
    forall x | x in a
      ensures a[x] == b[x]
    {
    }
  }
}
