/**
 Merging a leaf with its right neighbour below the same parent.

 The right leaf leaves the tree, the left one takes its keys, its place in the leaf chain
 and its half of the key space, and the parent forgets the separator between them.
 */
module BTreeMerge {
  import opened Storage
  import opened Sequences
  import opened BTreeShape

  function RemoveChild(n: Node, d: nat): (r: Node)
    requires n.Internal? && |n.children| == |n.keys| + 1 && 0 < d < |n.children|
    ensures r.Internal? && |r.children| == |r.keys| + 1
  {
    Internal(RemoveAt(n.keys, d - 1), RemoveAt(n.children, d), n.parent)
  }

  function JoinLeaves(l: Node, r: Node): Node
    requires l.Leaf? && r.Leaf?
  {
    Leaf(l.keys + r.keys, l.vals + r.vals, l.parent, r.next)
  }

  /** Children d - 1 and d of `up` are leaves. */
  ghost predicate MergeSite(store: Store, shape: Shape, root: PageId, up: PageId, d: nat) {
    && Inv(store, shape, root)
    && up in shape && store[up].Internal? && NodeOk(store, shape, up)
    && shape[up].level == 1
    && 0 < d < |store[up].children|
    && ChildOk(up, store[up], shape[up], d - 1, store, shape)
    && ChildOk(up, store[up], shape[up], d, store, shape)
    && var l, r := store[up].children[d - 1], store[up].children[d];
       && NodeOk(store, shape, l) && NodeOk(store, shape, r)
       && store[l].Leaf? && store[r].Leaf?
       && l != up && r != up && l != r
       && shape[l].hi == shape[r].lo
  }

  function MergeStore(store: Store, up: PageId, d: nat): Store
    requires up in store && store[up].Internal? && |store[up].children| == |store[up].keys| + 1
    requires 0 < d < |store[up].children|
    requires var l, r := store[up].children[d - 1], store[up].children[d];
             l in store && r in store && store[l].Leaf? && store[r].Leaf?
  {
    var l, r := store[up].children[d - 1], store[up].children[d];
    store[l := JoinLeaves(store[l], store[r])][up := RemoveChild(store[up], d)]
  }

  function MergeShape(shape: Shape, l: PageId, r: PageId): Shape
    requires l in shape && r in shape
  {
    (shape - {r})[l := Info(shape[l].lo, shape[r].hi, shape[l].level)]
  }

  lemma {:induction false} MakeMergeSite(store: Store, shape: Shape, root: PageId, up: PageId, d: nat)
    requires Inv(store, shape, root) && up in shape && store[up].Internal?
    requires shape[up].level == 1 && 0 < d < |store[up].children|
    ensures MergeSite(store, shape, root, up, d)
  {
    assert NodeOk(store, shape, up);
    var fence := Fence(shape[up], store[up].keys);
    assert ChildOk(up, store[up], shape[up], d - 1, store, shape);
    assert ChildOk(up, store[up], shape[up], d, store, shape);
    assert fence[d - 1] < fence[d];
    var l, r := store[up].children[d - 1], store[up].children[d];
    assert NodeOk(store, shape, l) && NodeOk(store, shape, r);
  }

  lemma {:induction false} MergeParentOk(store: Store, shape: Shape, root: PageId, up: PageId, d: nat)
    requires MergeSite(store, shape, root, up, d)
    ensures var l, r := store[up].children[d - 1], store[up].children[d];
            NodeOk(MergeStore(store, up, d), MergeShape(shape, l, r), up)
  {
    var l, r := store[up].children[d - 1], store[up].children[d];
    var store', shape' := MergeStore(store, up, d), MergeShape(shape, l, r);
    var n, fence := store[up], Fence(shape[up], store[up].keys);
    var fence' := Fence(shape[up], store'[up].keys);
    assert fence' == RemoveAt(fence, d);
    forall j | 0 <= j < |store'[up].children|
      ensures ChildOk(up, store'[up], shape'[up], j, store', shape')
    {
      if j != d - 1 {
        var j' := if j < d then j else j + 1;
        assert store'[up].children[j] == n.children[j'];
        assert ChildOk(up, n, shape[up], j', store, shape);
        assert fence[if j < d then j' else d - 1] < fence[if j < d then d - 1 else j'];
        assert fence[if j < d then j' else d] < fence[if j < d then d else j'];
      }
    }
  }

  /** Only the left leaf is chained to the right one. */
  lemma {:induction false} OnlyLeftPrecedes(store: Store, shape: Shape, root: PageId, up: PageId, d: nat, x: PageId)
    requires MergeSite(store, shape, root, up, d)
    requires x in shape && x != store[up].children[d - 1] && store[x].Leaf?
    ensures shape[x].hi < KEY_END ==> store[x].next != store[up].children[d]
    ensures NodeOk(store, shape, x)
  {
    assert NodeOk(store, shape, x);
    assert Apart(shape[x], shape[store[up].children[d - 1]]);
  }

  lemma {:induction false} MergeOtherOk(store: Store, shape: Shape, root: PageId, up: PageId, d: nat, x: PageId)
    requires MergeSite(store, shape, root, up, d)
    requires x in shape && x != up && x != store[up].children[d - 1] && x != store[up].children[d]
    ensures var l, r := store[up].children[d - 1], store[up].children[d];
            NodeOk(MergeStore(store, up, d), MergeShape(shape, l, r), x)
  {
    var l, r := store[up].children[d - 1], store[up].children[d];
    var store', shape' := MergeStore(store, up, d), MergeShape(shape, l, r);
    assert NodeOk(store, shape, x);
    if store[x].Leaf? {
      OnlyLeftPrecedes(store, shape, root, up, d, x);
    } else {
      forall j | 0 <= j < |store[x].children|
        ensures ChildOk(x, store'[x], shape'[x], j, store', shape')
      {
        assert ChildOk(x, store[x], shape[x], j, store, shape);
      }
    }
  }

  lemma {:induction false} MergeLinks(store: Store, shape: Shape, root: PageId, up: PageId, d: nat)
    requires MergeSite(store, shape, root, up, d)
    ensures var l, r := store[up].children[d - 1], store[up].children[d];
            var store', shape' := MergeStore(store, up, d), MergeShape(shape, l, r);
            AllLinked(store', shape', root)
  {
    var l, r := store[up].children[d - 1], store[up].children[d];
    var store', shape' := MergeStore(store, up, d), MergeShape(shape, l, r);
    forall x | x in shape' && x != root
      ensures LinkedUp(store', shape', x)
    {
      assert LinkedUp(store, shape, x);
      if store[x].parent == up {
        var i :| 0 <= i < |store[up].children| && store[up].children[i] == x;
        assert store'[up].children[if i < d then i else i - 1] == x;
      }
    }
  }

  lemma {:induction false} MergeApart(store: Store, shape: Shape, root: PageId, up: PageId, d: nat)
    requires MergeSite(store, shape, root, up, d)
    ensures AllApart(MergeShape(shape, store[up].children[d - 1], store[up].children[d]))
  {
    var l, r := store[up].children[d - 1], store[up].children[d];
    var shape' := MergeShape(shape, l, r);
    forall x, y | x in shape' && y in shape' && x != y
      ensures Apart(shape'[x], shape'[y])
    {
      assert Apart(shape[x], shape[y]);
      assert NodeOk(store, shape, x) && NodeOk(store, shape, y);
      if x == l {
        assert Apart(shape[r], shape[y]);
      } else if y == l {
        assert Apart(shape[r], shape[x]);
      }
    }
  }

  lemma {:induction false} MergeHolds(store: Store, shape: Shape, root: PageId, up: PageId, d: nat, m: map<int, Ctid>)
    requires MergeSite(store, shape, root, up, d) && Holds(store, shape, m)
    ensures var l, r := store[up].children[d - 1], store[up].children[d];
            Holds(MergeStore(store, up, d), MergeShape(shape, l, r), m)
  {
    var l, r := store[up].children[d - 1], store[up].children[d];
    var store', shape' := MergeStore(store, up, d), MergeShape(shape, l, r);
    forall x | x in shape' && store'[x].Leaf?
      ensures LeafHolds(store'[x], shape'[x], m)
    {
      assert LeafHolds(store[x], shape[x], m);
      if x == l {
        assert LeafHolds(store[r], shape[r], m);
        JoinHolds(store[l], store[r], shape[l], shape[r], m);
      }
    }
  }

  lemma {:induction false} JoinHolds(l: Node, r: Node, f: Info, g: Info, m: map<int, Ctid>)
    requires l.Leaf? && r.Leaf? && f.hi == g.lo
    requires LeafHolds(l, f, m) && LeafHolds(r, g, m)
    ensures LeafHolds(JoinLeaves(l, r), Info(f.lo, g.hi, f.level), m)
  {
    var n := JoinLeaves(l, r);
    forall i | 0 <= i < |n.keys|
      ensures n.keys[i] in m && m[n.keys[i]] == n.vals[i]
    {
      if i >= |l.keys| {
        assert n.keys[i] == r.keys[i - |l.keys|] && n.vals[i] == r.vals[i - |l.keys|];
      }
    }
  }

  /** Merging two neighbouring leaves keeps the tree and its map. */
  lemma {:induction false} MergeKeepsInv(store: Store, shape: Shape, root: PageId, up: PageId, d: nat, m: map<int,
      Ctid>)
    requires Inv(store, shape, root) && Holds(store, shape, m)
    requires up in shape && store[up].Internal? && shape[up].level == 1
    requires 0 < d < |store[up].children|
    ensures MergeSite(store, shape, root, up, d)
    ensures var l, r := store[up].children[d - 1], store[up].children[d];
            && Inv(MergeStore(store, up, d), MergeShape(shape, l, r), root)
            && Holds(MergeStore(store, up, d), MergeShape(shape, l, r), m)
  {
    MakeMergeSite(store, shape, root, up, d);
    var l, r := store[up].children[d - 1], store[up].children[d];
    var store', shape' := MergeStore(store, up, d), MergeShape(shape, l, r);
    MergeLinks(store, shape, root, up, d);
    MergeApart(store, shape, root, up, d);
    MergeHolds(store, shape, root, up, d, m);
    assert AllNodesOk(store', shape') by {
      MergeParentOk(store, shape, root, up, d);
      forall x | x in shape' && x != l && x != up
        ensures NodeOk(store', shape', x)
      {
        MergeOtherOk(store, shape, root, up, d, x);
      }
    }
    assert AllLower(shape', root) by {
      forall x | x in shape' && x != root
        ensures Lower(shape'[x], shape'[root])
      {
        assert Lower(shape[x], shape[root]);
      }
    }
    assert root != r && root != l by {
      assert NodeOk(store, shape, up);
      assert store[r].parent == up && store[l].parent == up;
    }
  }
}
