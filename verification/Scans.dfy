/**
 The two ways to read a table: page by page through the heap, or key by key through the index.
 Both emit the bytes of live tuples only, and over a table whose heap and index agree the index
 scan of a key range decodes to the rows that filtering the sequential scan by that range gives.

 The sequential scan keeps a page and a slot; `Returned` is what lies before them. The index scan
 keeps the identifiers still to come. Decoding is a step of its own, because the scans emit tuples
 whether they decode or not.
 */
module Scans {
  import opened Storage
  import opened Values
  import opened Predicate
  import opened Sequences
  import opened Bytes
  import opened Plan
  import opened SlottedPage
  import opened Heap

  datatype ScanError = CtidNotFound

  // ----- What the scans emit

  /** The tuples of the live records, as bytes. */
  function LiveData(recs: seq<Record>): seq<Buffer> {
    if recs == [] then []
    else
      var n := |recs| - 1;
      if Live(recs[n]) then LiveData(recs[..n]) + [recs[n].payload] else LiveData(recs[..n])
  }

  function ScanData(pages: Pages): seq<Buffer> {
    if pages == [] then [] else ScanData(pages[..|pages| - 1]) + LiveData(pages[|pages| - 1])
  }

  /** The rows of the tuples that decode. */
  function Decoded(t: TableDef, data: seq<Buffer>): seq<Row> {
    if data == [] then []
    else
      var n := |data| - 1;
      var row := RowOf(t, data[n]);
      if row.Some? then Decoded(t, data[..n]) + [row.value] else Decoded(t, data[..n])
  }

  lemma {:induction false} DecodedConcat(t: TableDef, a: seq<Buffer>, b: seq<Buffer>)
    ensures Decoded(t, a + b) == Decoded(t, a) + Decoded(t, b)
  {
    if b == [] {
      assert a + b == a;
    } else {
      var n := |b| - 1;
      assert (a + b)[..|a| + n] == a + b[..n];
      DecodedConcat(t, a, b[..n]);
    }
  }

  lemma {:induction false} LiveDecodes(t: TableDef, recs: seq<Record>)
    ensures Decoded(t, LiveData(recs)) == LiveRows(t, recs)
  {
    if recs != [] {
      var n := |recs| - 1;
      LiveDecodes(t, recs[..n]);
      if Live(recs[n]) {
        assert (LiveData(recs[..n]) + [recs[n].payload])[..|LiveData(recs[..n])|] == LiveData(recs[..n]);
      }
    }
  }

  /** The rows of a table are what its scan emits, decoded. */
  lemma {:induction false} ScanDecodes(t: TableDef, pages: Pages)
    ensures Decoded(t, ScanData(pages)) == ScanRows(t, pages)
  {
    if pages != [] {
      var n := |pages| - 1;
      ScanDecodes(t, pages[..n]);
      LiveDecodes(t, pages[n]);
      DecodedConcat(t, ScanData(pages[..n]), LiveData(pages[n]));
    }
  }

  /** Where every tuple decodes, rows and tuples correspond one to one. */
  lemma {:induction false} AllDecode(t: TableDef, data: seq<Buffer>)
    requires forall i :: 0 <= i < |data| ==> RowOf(t, data[i]).Some?
    ensures |Decoded(t, data)| == |data|
    ensures forall i :: 0 <= i < |data| ==> Decoded(t, data)[i] == RowOf(t, data[i]).value
  {
    hide RowOf;
    if data != [] {
      var n := |data| - 1;
      AllDecode(t, data[..n]);
      assert forall i :: 0 <= i < n ==> data[..n][i] == data[i];
    }
  }

  /** to_values on every tuple; one that does not decode counts as a row no filter accepts. */
  method DecodeRows(t: TableDef, data: seq<Buffer>) returns (rows: seq<Row>)
    ensures rows == Decoded(t, data)
  {
    hide RowOf;
    rows := [];
    for i := 0 to |data|
      invariant rows == Decoded(t, data[..i])
    {
      assert data[..i + 1][..i] == data[..i];
      var row := RowOf(t, data[i]);
      if row.Some? {
        rows := rows + [row.value];
      }
    }
    assert data[..|data|] == data;
  }

  // ----- Sequential scan

  class SeqScan {
    const pages: Pages
    const maxPages: nat
    var pageNum: nat
    var slot: nat

    /** The tuples returned so far. */
    ghost function Returned(): seq<Buffer>
      requires pageNum <= |pages| && (pageNum < |pages| ==> slot <= |pages[pageNum]|)
      reads this
    {
      ScanData(pages[..pageNum]) + (if pageNum < |pages| then LiveData(pages[pageNum][..slot]) else [])
    }

    ghost predicate Valid()
      reads this
    {
      && maxPages == (if |pages| > 0 then |pages| - 1 else 0)
      && pageNum <= maxPages + 1
      && (pageNum < |pages| ==> slot <= |pages[pageNum]|)
    }

    /** Nothing is left to return. */
    ghost predicate Exhausted()
      reads this
    {
      pageNum > maxPages
    }

    constructor (pages: Pages)
      ensures Valid() && this.pages == pages && pageNum == 0 && slot == 0
    {
      this.pages := pages;
      maxPages := if |pages| > 0 then |pages| - 1 else 0;
      pageNum, slot := 0, 0;
    }

    /** The next live record of the current page, if any. */
    method NextOnPage() returns (found: Option<Buffer>)
      requires Valid() && pageNum < |pages|
      modifies this`slot
      ensures Valid()
      ensures found.Some? ==> slot > old(slot) && Returned() == old(Returned()) + [found.value]
      ensures found.None? ==> slot == |pages[pageNum]| && Returned() == old(Returned())
    {
      hide ScanData;
      var recs := pages[pageNum];
      found := None;
      while slot < |recs| && found.None?
        invariant Valid() && slot >= old(slot)
        invariant found.None? ==> Returned() == old(Returned())
        invariant found.Some? ==> slot > old(slot) && Returned() == old(Returned()) + [found.value]
        decreases |recs| - slot
      {
        assert recs[..slot + 1][..slot] == recs[..slot] && recs[..slot + 1][slot] == recs[slot];
        if Live(recs[slot]) {
          found := Some(recs[slot].payload);
        }
        slot := slot + 1;
      }
    }

    /** Pages that do not exist are passed over. */
    method NextPage()
      requires Valid() && !Exhausted() && (pageNum < |pages| ==> slot == |pages[pageNum]|)
      modifies this`pageNum, this`slot
      ensures Valid() && pageNum == old(pageNum) + 1 && slot == 0
      ensures old(pageNum) < |pages| ==> pageNum <= |pages| && Returned() == old(Returned())
    {
      if pageNum < |pages| {
        assert pages[..pageNum + 1][..pageNum] == pages[..pageNum] && pages[..pageNum + 1][pageNum] == pages[pageNum];
        assert pages[pageNum][..slot] == pages[pageNum];
        assert pageNum + 1 < |pages| ==> pages[pageNum + 1][..0] == [];
      }
      pageNum, slot := pageNum + 1, 0;
    }

    method Next() returns (tuple: Option<Buffer>)
      requires Valid()
      modifies this`pageNum, this`slot
      ensures Valid()
      ensures |pages| == 0 ==> tuple.None?
      ensures |pages| > 0 && tuple.Some? ==> Returned() == old(Returned()) + [tuple.value]
      ensures |pages| > 0 && tuple.None? ==> Returned() == old(Returned())
      ensures tuple.None? ==> Exhausted()
      ensures tuple.Some? ==> pageNum > old(pageNum) || (pageNum == old(pageNum) && slot > old(slot))
      ensures tuple.Some? ==> pageNum < |pages|
    {
      hide ScanData, LiveData;
      while pageNum <= maxPages
        invariant Valid() && pageNum >= old(pageNum) && (pageNum == old(pageNum) ==> slot == old(slot))
        invariant |pages| > 0 ==> Returned() == old(Returned())
        decreases maxPages + 1 - pageNum
      {
        if pageNum < |pages| {
          tuple := NextOnPage();
          if tuple.Some? {
            return;
          }
        }
        NextPage();
      }
      tuple := None;
    }

    /** Pulling until the end returns every live tuple in heap order. */
    method Drain() returns (data: seq<Buffer>)
      requires Valid() && pageNum == 0 && slot == 0
      modifies this`pageNum, this`slot
      ensures data == ScanData(pages)
    {
      hide ScanData;
      data := [];
      StartsEmpty();
      var tuple := Next();
      while tuple.Some?
        invariant Valid()
        invariant |pages| == 0 ==> tuple.None? && data == []
        invariant tuple.None? ==> Exhausted()
        invariant tuple.Some? ==> pageNum < |pages|
        invariant |pages| > 0 ==> Returned() == data + (if tuple.Some? then [tuple.value] else [])
        decreases |pages| - pageNum, (if pageNum < |pages| then |pages[pageNum]| - slot else 0), tuple.Some?
      {
        data := data + [tuple.value];
        tuple := Next();
      }
      EndsFull();
    }

    lemma {:induction false} StartsEmpty()
      requires Valid() && pageNum == 0 && slot == 0
      ensures Returned() == []
    {
      assert pages[..0] == [];
      assert |pages| > 0 ==> pages[0][..0] == [];
    }

    lemma {:induction false} EndsFull()
      requires Valid() && Exhausted()
      ensures |pages| == 0 ==> ScanData(pages) == []
      ensures |pages| > 0 ==> Returned() == ScanData(pages)
    {
      assert pages[..|pages|] == pages;
    }
  }

  lemma {:induction false} SlotStep(t: TableDef, recs: seq<Record>, s: nat)
    requires s < |recs|
    ensures var row := RowOf(t, recs[s].payload);
            LiveRows(t, recs[..s + 1]) ==
              LiveRows(t, recs[..s]) + (if Live(recs[s]) && row.Some? then [row.value] else [])
  {
    assert recs[..s + 1][..s] == recs[..s] && recs[..s + 1][s] == recs[s];
  }

  // ----- Index scan

  /** The identifier names a live record of the heap. */
  ghost predicate NamesLive(t: TableDef, pages: Pages, c: Ctid) {
    c.page.fileId == t.fileId && LiveAt(pages, c.page.pageNum, c.slot)
  }

  ghost predicate DataAt(t: TableDef, pages: Pages, ctids: seq<Ctid>, data: seq<Buffer>) {
    && |data| == |ctids|
    && forall i {:trigger data[i]} :: 0 <= i < |data| ==>
         NamesLive(t, pages, ctids[i]) && data[i] == pages[ctids[i].page.pageNum][ctids[i].slot].payload
  }

  /** The identifier names a live record that decodes. */
  ghost predicate ResolvesAt(t: TableDef, pages: Pages, c: Ctid) {
    NamesLive(t, pages, c) && RowOf(t, pages[c.page.pageNum][c.slot].payload).Some?
  }

  ghost function RowAtCtid(t: TableDef, pages: Pages, c: Ctid): Row
    requires ResolvesAt(t, pages, c)
  {
    RowOf(t, pages[c.page.pageNum][c.slot].payload).value
  }

  ghost predicate RowsAt(t: TableDef, pages: Pages, ctids: seq<Ctid>, rows: seq<Row>) {
    && |rows| == |ctids|
    && forall i {:trigger rows[i]} :: 0 <= i < |rows| ==>
         ResolvesAt(t, pages, ctids[i]) && rows[i] == RowAtCtid(t, pages, ctids[i])
  }

  class IndexScan {
    const t: TableDef
    const pages: Pages
    var ctids: seq<Ctid>

    constructor (t: TableDef, pages: Pages, ctids: seq<Ctid>)
      ensures this.t == t && this.pages == pages && this.ctids == ctids
    {
      this.t, this.pages, this.ctids := t, pages, ctids;
    }

    /** The tuple of the next identifier; one that leads to no live record is an error. */
    method Next() returns (r: Result<Option<Buffer>, ScanError>)
      modifies this`ctids
      ensures old(ctids) == [] ==> r == Ok(None) && ctids == []
      ensures old(ctids) != [] ==> ctids == old(ctids)[1..]
      ensures old(ctids) != [] && NamesLive(t, pages, old(ctids)[0]) ==>
                r == Ok(Some(pages[old(ctids)[0].page.pageNum][old(ctids)[0].slot].payload))
      ensures old(ctids) != [] && !NamesLive(t, pages, old(ctids)[0]) ==> r == Err(CtidNotFound)
    {
      if ctids == [] {
        return Ok(None);
      }
      var c := ctids[0];
      ctids := ctids[1..];
      var p, s := c.page.pageNum, c.slot;
      if c.page.fileId != t.fileId || !LiveAt(pages, p, s) {
        return Err(CtidNotFound);
      }
      return Ok(Some(pages[p][s].payload));
    }

    /** Pulls to the end, or to the first identifier that leads nowhere. */
    method Drain() returns (r: Result<seq<Buffer>, ScanError>)
      modifies this`ctids
      ensures r.Ok? <==> forall i {:trigger old(ctids)[i]} :: 0 <= i < |old(ctids)| ==>
                           NamesLive(t, pages, old(ctids)[i])
      ensures r.Ok? ==> DataAt(t, pages, old(ctids), r.value)
    {
      hide NamesLive;
      var data := [];
      ghost var all := ctids;
      while ctids != []
        invariant |data| + |ctids| == |all| && ctids == all[|data|..]
        invariant DataAt(t, pages, all[..|data|], data)
        decreases |ctids|
      {
        ghost var n := |data|;
        assert ctids[0] == all[n];
        var next := Next();
        if next.Err? {
          assert !NamesLive(t, pages, all[n]);
          return Err(next.error);
        }
        OneMoreTuple(t, pages, all, data, n);
        data := data + [next.value.value];
      }
      assert all[..|all|] == all;
      forall i {:trigger all[i]} | 0 <= i < |all| ensures NamesLive(t, pages, all[i]) {
        assert data[i] == data[i];
      }
      return Ok(data);
    }
  }

  lemma {:induction false} OneMoreTuple(t: TableDef, pages: Pages, all: seq<Ctid>, data: seq<Buffer>, n: nat)
    requires n < |all| && DataAt(t, pages, all[..n], data) && NamesLive(t, pages, all[n])
    ensures DataAt(t, pages, all[..n + 1], data + [pages[all[n].page.pageNum][all[n].slot].payload])
  {
    forall i | 0 <= i < n
      ensures NamesLive(t, pages, all[i]) && data[i] == pages[all[i].page.pageNum][all[i].slot].payload
    {
      assert all[..n][i] == all[i] && data[i] == data[i];
    }
  }

  /** Over live records that decode, the decoded index scan lists the rows they hold. */
  lemma {:induction false} DataIsRows(t: TableDef, pages: Pages, ctids: seq<Ctid>, data: seq<Buffer>)
    requires DataAt(t, pages, ctids, data)
    requires forall i {:trigger ctids[i]} :: 0 <= i < |ctids| ==> ResolvesAt(t, pages, ctids[i])
    ensures RowsAt(t, pages, ctids, Decoded(t, data))
  {
    hide RowOf, Decoded;
    forall i | 0 <= i < |data| ensures RowOf(t, data[i]).Some? {
      assert ResolvesAt(t, pages, ctids[i]);
    }
    AllDecode(t, data);
  }

  // ----- The two scans return the same rows

  ghost predicate Distinct(rows: seq<Row>) {
    forall i, j :: 0 <= i < j < |rows| ==> rows[i] != rows[j]
  }

  lemma {:induction false} DistinctCount(rows: seq<Row>, row: Row)
    requires Distinct(rows)
    ensures multiset(rows)[row] == if row in rows then 1 else 0
  {
    if rows != [] {
      var tail := rows[1..];
      assert rows == [rows[0]] + tail;
      assert Distinct(tail) by {
        assert forall i :: 0 <= i < |tail| ==> tail[i] == rows[i + 1];
      }
      DistinctCount(tail, row);
    }
  }

  lemma {:induction false} DistinctSameRows(a: seq<Row>, b: seq<Row>)
    requires Distinct(a) && Distinct(b) && forall row :: row in a <==> row in b
    ensures multiset(a) == multiset(b)
  {
    forall row ensures multiset(a)[row] == multiset(b)[row] {
      DistinctCount(a, row);
      DistinctCount(b, row);
    }
  }

  /** Where the rows of one page come from. */
  lemma {:induction false} LiveRowsFrom(t: TableDef, recs: seq<Record>, row: Row)
    ensures row in LiveRows(t, recs) <==>
              exists s :: 0 <= s < |recs| && Live(recs[s]) && RowOf(t, recs[s].payload) == Some(row)
  {
    if recs != [] {
      var n := |recs| - 1;
      LiveRowsFrom(t, recs[..n], row);
      assert forall s :: 0 <= s < n ==> recs[..n][s] == recs[s];
    }
  }

  ghost predicate RowIsAt(t: TableDef, pages: Pages, p: nat, s: nat, row: Row) {
    LiveAt(pages, p, s) && RowOf(t, pages[p][s].payload) == Some(row)
  }

  /** Where the rows of a scan come from. */
  lemma {:induction false} ScanRowsFrom(t: TableDef, pages: Pages, row: Row)
    ensures row in ScanRows(t, pages) <==> exists p: nat, s: nat :: RowIsAt(t, pages, p, s, row)
  {
    hide RowOf, LiveRows;
    if pages != [] {
      var n := |pages| - 1;
      var init := pages[..n];
      ScanRowsFrom(t, init, row);
      LiveRowsFrom(t, pages[n], row);
      if row in ScanRows(t, init) {
        var p: nat, s: nat :| RowIsAt(t, init, p, s, row);
        assert RowIsAt(t, pages, p, s, row);
      } else if row in LiveRows(t, pages[n]) {
        var s: nat :| s < |pages[n]| && Live(pages[n][s]) && RowOf(t, pages[n][s].payload) == Some(row);
        assert RowIsAt(t, pages, n, s, row);
      }
      if p: nat, s: nat :| RowIsAt(t, pages, p, s, row) {
        assert p < n ==> RowIsAt(t, init, p, s, row);
      }
    }
  }

  lemma {:induction false} RowsDiffer(t: TableDef, pages: Pages, contents: map<int, Ctid>,
                                      p: nat, s: nat, q: nat, u: nat, row: Row)
    requires Agrees(t, pages, contents) && RowIsAt(t, pages, p, s, row) && RowIsAt(t, pages, q, u, row)
    ensures p == q && s == u
  {
    assert Indexed(t, pages, contents, p, s) && Indexed(t, pages, contents, q, u);
  }

  lemma {:induction false} PageDistinct(t: TableDef, pages: Pages, contents: map<int, Ctid>, p: nat, n: nat)
    requires Agrees(t, pages, contents) && p < |pages| && n <= |pages[p]|
    ensures Distinct(LiveRows(t, pages[p][..n]))
  {
    hide Agrees;
    if n > 0 {
      var recs := pages[p];
      PageDistinct(t, pages, contents, p, n - 1);
      SlotStep(t, recs, n - 1);
      if Live(recs[n - 1]) && RowOf(t, recs[n - 1].payload).Some? {
        var row := RowOf(t, recs[n - 1].payload).value;
        if row in LiveRows(t, recs[..n - 1]) {
          LiveRowsFrom(t, recs[..n - 1], row);
          var s: nat :| s < n - 1 && Live(recs[s]) && RowOf(t, recs[s].payload) == Some(row);
          assert RowIsAt(t, pages, p, s, row) && RowIsAt(t, pages, p, n - 1, row);
          RowsDiffer(t, pages, contents, p, s, p, n - 1, row);
          assert false;
        }
      }
    }
  }

  lemma {:induction false} ScanDistinct(t: TableDef, pages: Pages, contents: map<int, Ctid>, n: nat)
    requires Agrees(t, pages, contents) && n <= |pages|
    ensures Distinct(ScanRows(t, pages[..n]))
  {
    hide Agrees;
    if n > 0 {
      var init, last := pages[..n - 1], pages[n - 1];
      ScanDistinct(t, pages, contents, n - 1);
      assert pages[..n][..n - 1] == init && pages[..n][n - 1] == last && last[..|last|] == last;
      PageDistinct(t, pages, contents, n - 1, |last|);
      forall row | row in ScanRows(t, init) ensures row !in LiveRows(t, last) {
        ScanRowsFrom(t, init, row);
        var p: nat, s: nat :| RowIsAt(t, init, p, s, row);
        assert RowIsAt(t, pages, p, s, row);
        LiveRowsFrom(t, last, row);
        if u: nat :| u < |last| && Live(last[u]) && RowOf(t, last[u].payload) == Some(row) {
          assert RowIsAt(t, pages, n - 1, u, row);
          RowsDiffer(t, pages, contents, p, s, n - 1, u, row);
          assert false;
        }
      }
      ConcatDistinct(ScanRows(t, init), LiveRows(t, last));
    }
  }

  lemma {:induction false} ConcatDistinct(a: seq<Row>, b: seq<Row>)
    requires Distinct(a) && Distinct(b) && forall row :: row in a ==> row !in b
    ensures Distinct(a + b)
  {
    var c := a + b;
    forall i, j | 0 <= i < j < |c| ensures c[i] != c[j] {
      if i < |a| <= j {
        assert a[i] in a && b[j - |a|] in b;
      }
    }
  }

  lemma {:induction false} RestrictHolds(rows: seq<Row>, bounds: (Key, Key), row: Row)
    ensures row in Restrict(rows, bounds) <==> row in rows && InRange(row, bounds)
  {
    if rows != [] {
      assert rows == [rows[0]] + rows[1..];
      RestrictHolds(rows[1..], bounds, row);
    }
  }

  lemma {:induction false} RestrictDistinct(rows: seq<Row>, bounds: (Key, Key))
    requires Distinct(rows)
    ensures Distinct(Restrict(rows, bounds))
  {
    if rows != [] {
      var tail := rows[1..];
      assert Distinct(tail) by {
        assert forall i :: 0 <= i < |tail| ==> tail[i] == rows[i + 1];
      }
      RestrictDistinct(tail, bounds);
      if InRange(rows[0], bounds) {
        RestrictHolds(tail, bounds, rows[0]);
        assert rows[0] !in tail;
        ConcatDistinct([rows[0]], Restrict(tail, bounds));
      }
    }
  }

  /** The answers of an index range search over an agreeing table. */
  ghost predicate RangeAnswer(contents: map<int, Ctid>, bounds: (Key, Key), keys: seq<int>, ctids: seq<Ctid>) {
    && StrictlySorted(keys) && |keys| == |ctids|
    && (forall k :: k in keys <==> k in contents && bounds.0 <= k <= bounds.1)
    && (forall i {:trigger keys[i]} :: 0 <= i < |keys| ==> keys[i] in contents && ctids[i] == contents[keys[i]])
  }

  lemma {:induction false} RangeResolves(t: TableDef, pages: Pages, contents: map<int, Ctid>, bounds: (Key, Key),
                                         keys: seq<int>, ctids: seq<Ctid>, i: nat)
    requires Agrees(t, pages, contents) && RangeAnswer(contents, bounds, keys, ctids) && i < |ctids|
    ensures ResolvesAt(t, pages, ctids[i])
    ensures var row := RowAtCtid(t, pages, ctids[i]);
            row != [] && row[0] == Integer(keys[i]) && InRange(row, bounds)
    ensures RowIsAt(t, pages, ctids[i].page.pageNum, ctids[i].slot, RowAtCtid(t, pages, ctids[i]))
  {
    assert keys[i] in keys;
    assert Leads(t, pages, contents, keys[i]);
  }

  /** The index scan of a key range returns, in key order, the rows a filtered sequential scan returns. */
  lemma {:induction false} IndexScanIsRestrict(t: TableDef, pages: Pages, contents: map<int, Ctid>, bounds: (Key, Key),
                                               keys: seq<int>, ctids: seq<Ctid>, rows: seq<Row>)
    requires Agrees(t, pages, contents) && RangeAnswer(contents, bounds, keys, ctids) && RowsAt(t, pages, ctids, rows)
    ensures multiset(rows) == multiset(Restrict(ScanRows(t, pages), bounds))
    ensures forall i, j :: 0 <= i < j < |rows| ==>
              && rows[i] != [] && rows[j] != []
              && rows[i][0].Integer? && rows[j][0].Integer? && rows[i][0].i < rows[j][0].i
  {
    hide Agrees, RowOf, Restrict, ScanRows, InRange, RowIsAt, ResolvesAt, RowAtCtid, Distinct;
    RowsDistinct(t, pages, contents, bounds, keys, ctids, rows);
    forall i | 0 <= i < |rows| ensures rows[i] != [] && rows[i][0] == Integer(keys[i]) {
      RangeResolves(t, pages, contents, bounds, keys, ctids, i);
    }
    ScanDistinct(t, pages, contents, |pages|);
    assert pages[..|pages|] == pages;
    RestrictDistinct(ScanRows(t, pages), bounds);
    forall row ensures row in rows <==> row in Restrict(ScanRows(t, pages), bounds) {
      RestrictHolds(ScanRows(t, pages), bounds, row);
      ScanRowsFrom(t, pages, row);
      if row in rows {
        var i :| 0 <= i < |rows| && rows[i] == row;
        RangeResolves(t, pages, contents, bounds, keys, ctids, i);
      }
      if row in ScanRows(t, pages) && InRange(row, bounds) {
        var p: nat, s: nat :| RowIsAt(t, pages, p, s, row);
        FoundByKey(t, pages, contents, bounds, keys, ctids, rows, p, s, row);
      }
    }
    DistinctSameRows(rows, Restrict(ScanRows(t, pages), bounds));
  }

  lemma {:induction false} RowsDistinct(t: TableDef, pages: Pages, contents: map<int, Ctid>, bounds: (Key, Key),
                                        keys: seq<int>, ctids: seq<Ctid>, rows: seq<Row>)
    requires Agrees(t, pages, contents) && RangeAnswer(contents, bounds, keys, ctids) && RowsAt(t, pages, ctids, rows)
    ensures Distinct(rows)
  {
    hide Agrees, RowOf, InRange, RowIsAt, ResolvesAt, RowAtCtid;
    forall i | 0 <= i < |rows| ensures rows[i] != [] && rows[i][0] == Integer(keys[i]) {
      RangeResolves(t, pages, contents, bounds, keys, ctids, i);
    }
  }

  lemma {:induction false} FoundByKey(t: TableDef, pages: Pages, contents: map<int, Ctid>, bounds: (Key, Key),
                                      keys: seq<int>, ctids: seq<Ctid>, rows: seq<Row>, p: nat, s: nat, row: Row)
    requires Agrees(t, pages, contents) && RangeAnswer(contents, bounds, keys, ctids) && RowsAt(t, pages, ctids, rows)
    requires RowIsAt(t, pages, p, s, row) && InRange(row, bounds)
    ensures row in rows
  {
    assert Indexed(t, pages, contents, p, s);
    var k := KeyOf(t, pages[p][s].payload).value;
    assert k in keys;
    var i :| 0 <= i < |keys| && keys[i] == k;
    assert rows[i] == row;
  }
}
