/**
 Rebuilding a damaged index from the heap at startup: whatever the heap holds, the first live
 row of every readable key is indexed.
 */
module Rebuild {
  import opened Storage
  import opened Heap
  import opened Torn
  import opened BTree

  predicate Before(p: nat, s: nat, q: nat, u: nat) {
    p < q || (p == q && s < u)
  }

  /** The record at (p, s) is the first live row with key k, in page and slot order. */
  ghost predicate First(t: TableDef, pages: Pages, k: int, p: nat, s: nat) {
    && LiveKeyAt(t, pages, p, s, k)
    && forall q: nat, u: nat {:trigger LiveKeyAt(t, pages, q, u, k)} ::
         LiveKeyAt(t, pages, q, u, k) ==> !Before(q, u, p, s)
  }

  ghost predicate NamesFirst(t: TableDef, pages: Pages, contents: map<int, Ctid>, k: int)
    requires k in contents
  {
    var c := contents[k];
    c.page.fileId == t.fileId && First(t, pages, k, c.page.pageNum, c.slot)
  }

  /** The rows before (p, s) are indexed: an entry for every key among them, leading to its first row. */
  ghost predicate Built(t: TableDef, pages: Pages, contents: map<int, Ctid>, p: nat, s: nat) {
    && (forall k {:trigger contents[k]} :: k in contents ==>
          && NamesFirst(t, pages, contents, k) && Before(contents[k].page.pageNum, contents[k].slot, p, s))
    && (forall q: nat, u: nat, k {:trigger LiveKeyAt(t, pages, q, u, k)} ::
          LiveKeyAt(t, pages, q, u, k) && Before(q, u, p, s) ==> k in contents)
  }

  /** The index of a heap: exactly the keys of live rows, each leading to the first row with that key. */
  ghost predicate IndexOf(t: TableDef, pages: Pages, contents: map<int, Ctid>) {
    && (forall k {:trigger contents[k]} :: k in contents ==> NamesFirst(t, pages, contents, k))
    && (forall p: nat, s: nat, k {:trigger LiveKeyAt(t, pages, p, s, k)} ::
          LiveKeyAt(t, pages, p, s, k) ==> k in contents)
  }

  /** One slot more: a live row whose key is new is the first with that key. */
  lemma {:induction false} BuiltSlot(t: TableDef, pages: Pages, contents: map<int, Ctid>, p: nat, s: nat)
    requires Built(t, pages, contents, p, s) && p < |pages| && s < |pages[p]|
    ensures var k := KeyOf(t, pages[p][s].payload);
            if Live(pages[p][s]) && k.Some? && k.value !in contents
            then Built(t, pages, contents[k.value := CtidOf(t, p, s)], p, s + 1)
            else Built(t, pages, contents, p, s + 1)
  {
    hide KeyOf;
    var k := KeyOf(t, pages[p][s].payload);
    if Live(pages[p][s]) && k.Some? && k.value !in contents {
      assert LiveKeyAt(t, pages, p, s, k.value);
      assert First(t, pages, k.value, p, s);
      var contents' := contents[k.value := CtidOf(t, p, s)];
      forall j {:trigger contents'[j]} | j in contents'
        ensures NamesFirst(t, pages, contents', j) && Before(contents'[j].page.pageNum, contents'[j].slot, p, s + 1)
      {
        assert j != k.value ==> contents'[j] == contents[j];
      }
    }
  }

  lemma {:induction false} BuiltPage(t: TableDef, pages: Pages, contents: map<int, Ctid>, p: nat)
    requires Built(t, pages, contents, p, if p < |pages| then |pages[p]| else 0)
    ensures p < |pages| ==> Built(t, pages, contents, p + 1, 0)
    ensures p == |pages| ==> IndexOf(t, pages, contents)
  {
    hide KeyOf;
  }

  lemma {:induction false} IndexOfUnique(t: TableDef, pages: Pages, a: map<int, Ctid>, b: map<int, Ctid>)
    requires IndexOf(t, pages, a) && IndexOf(t, pages, b)
    ensures a == b
  {
    hide KeyOf;
    forall k | k in a ensures k in b && a[k] == b[k] {
      assert NamesFirst(t, pages, a, k);
      assert LiveKeyAt(t, pages, a[k].page.pageNum, a[k].slot, k);
      assert NamesFirst(t, pages, b, k);
    }
    forall k | k in b ensures k in a {
      assert NamesFirst(t, pages, b, k);
    }
  }

  /** An index that agreed with the heap is the one the heap rebuilds. */
  lemma {:induction false} AgreesIsIndexOf(t: TableDef, pages: Pages, contents: map<int, Ctid>)
    requires Agrees(t, pages, contents)
    ensures IndexOf(t, pages, contents)
  {
    hide KeyOf;
    AgreesIffKeys(t, pages, contents);
    forall k {:trigger contents[k]} | k in contents ensures NamesFirst(t, pages, contents, k) {
      assert KeyAgrees(t, pages, contents, k);
      LeadsIsLive(t, pages, contents, k);
    }
    forall p: nat, s: nat, k {:trigger LiveKeyAt(t, pages, p, s, k)} | LiveKeyAt(t, pages, p, s, k)
      ensures k in contents
    {
      assert KeyAgrees(t, pages, contents, k);
    }
  }

  /** No two live rows have key k. */
  ghost predicate Once(t: TableDef, pages: Pages, k: int) {
    forall p: nat, s: nat, q: nat, u: nat {:trigger LiveKeyAt(t, pages, p, s, k), LiveKeyAt(t, pages, q, u, k)} ::
      LiveKeyAt(t, pages, p, s, k) && LiveKeyAt(t, pages, q, u, k) ==> p == q && s == u
  }

  /** What the rebuilt index repairs: heap and index agree on a key exactly when no two live rows have it. */
  lemma {:induction false} RebuiltKeyIff(t: TableDef, pages: Pages, contents: map<int, Ctid>, k: int)
    requires IndexOf(t, pages, contents)
    ensures KeyAgrees(t, pages, contents, k) <==> Once(t, pages, k)
  {
    hide KeyOf;
    if k in contents {
      assert NamesFirst(t, pages, contents, k);
      LeadsIsLive(t, pages, contents, k);
    }
  }

  /** The rebuilt index agrees with the heap exactly when every live row has a key of its own. */
  lemma {:induction false} RebuiltAgreesIff(t: TableDef, pages: Pages, contents: map<int, Ctid>)
    requires IndexOf(t, pages, contents)
    ensures Agrees(t, pages, contents) <==>
              AllKeyed(t, pages) && forall k {:trigger Once(t, pages, k)} :: Once(t, pages, k)
  {
    hide Agrees, Once, KeyAgrees, AllKeyed, IndexOf;
    AgreesIffKeys(t, pages, contents);
    forall k ensures KeyAgrees(t, pages, contents, k) <==> Once(t, pages, k) {
      RebuiltKeyIff(t, pages, contents, k);
    }
  }

  /** The rebuild loop, over any heap. An index that agreed with the heap before comes out the same. */
  method RebuildIndex(t: TableDef, pages: Pages, index: BTreeIndex)
    requires index.Valid() && index.contents == map[]
    modifies index
    ensures index.Valid() && IndexOf(t, pages, index.contents)
    ensures forall contents {:trigger Agrees(t, pages, contents)} ::
              Agrees(t, pages, contents) ==> index.contents == contents
  {
    hide Agrees, BTreeIndex.Valid, Built, KeyOf, IndexOf;
    assert Built(t, pages, index.contents, 0, 0) by {
      NothingBuilt(t, pages);
    }
    for p := 0 to |pages|
      invariant index.Valid() && Built(t, pages, index.contents, p, 0)
    {
      var recs := pages[p];
      for s := 0 to |recs|
        invariant index.Valid() && Built(t, pages, index.contents, p, s)
      {
        BuiltSlot(t, pages, index.contents, p, s);
        if Live(recs[s]) {
          var pk := KeyOf(t, recs[s].payload);
          if pk.Some? {
            var inserted := index.Insert(pk.value, CtidOf(t, p, s));
          }
        }
      }
      BuiltPage(t, pages, index.contents, p);
    }
    BuiltPage(t, pages, index.contents, |pages|);
    forall contents {:trigger Agrees(t, pages, contents)} | Agrees(t, pages, contents)
      ensures index.contents == contents
    {
      AgreesIsIndexOf(t, pages, contents);
      IndexOfUnique(t, pages, index.contents, contents);
    }
  }

  lemma {:induction false} NothingBuilt(t: TableDef, pages: Pages)
    ensures Built(t, pages, map[], 0, 0)
  {
  }
}
