/**
 Heap files as lists of records per page, and their agreement with the primary-key index:
 live rows and index entries are in bijection by key, and each entry leads to its row.
 */
module Heap {
  import opened Storage
  import opened Values
  import opened Predicate
  import opened Bytes
  import opened Joins
  import opened Pipeline
  import opened Plan
  import opened SlottedPage
  import TupleCodec

  type Pages = seq<seq<Record>>

  /** A table: how its tuples are read, where its heap lives, and the bytes of its name in log records. */
  datatype TableDef = TableDef(utf8: TupleCodec.Utf8, schema: Schema, pageSize: nat, fileId: nat, name: Buffer)

  const DELETED: nat := 999

  // ----- Rows

  function RowOf(t: TableDef, data: Buffer): Option<Row> {
    match TupleCodec.Decode(t.utf8, data, t.schema)
    case Ok(row) => Some(row)
    case Err(_) => None
  }

  /** The primary key: the integer in the first column. */
  function KeyOf(t: TableDef, data: Buffer): (k: Option<Key>)
    ensures k.Some? ==>
              RowOf(t, data).Some? && RowOf(t, data).value != [] && RowOf(t, data).value[0] == Integer(k.value)
  {
    match RowOf(t, data)
    case None => None
    case Some(row) => if Keyed(row) then Some(row[0].i) else None
  }

  lemma {:induction false} KeyOfIsFirst(t: TableDef, data: Buffer)
    ensures RowOf(t, data).Some? ==> |RowOf(t, data).value| == |t.schema|
    ensures KeyOf(t, data).Some? <==>
              RowOf(t, data).Some? && RowOf(t, data).value != [] && RowOf(t, data).value[0].Integer?
  {
    TupleCodec.DecodeIsTyped(t.utf8, data, t.schema);
    var row := RowOf(t, data);
    if row.Some? && row.value != [] {
      assert TupleCodec.TypeMatches(t.schema[0], row.value[0]);
    }
  }

  predicate Live(r: Record) {
    r.xmax == 0
  }

  predicate LiveAt(pages: Pages, p: nat, s: nat) {
    p < |pages| && s < |pages[p]| && Live(pages[p][s])
  }

  // ----- Scans

  function LiveRows(t: TableDef, recs: seq<Record>): seq<Row> {
    if recs == [] then []
    else
      var n := |recs| - 1;
      var row := RowOf(t, recs[n].payload);
      LiveRows(t, recs[..n]) + (if Live(recs[n]) && row.Some? then [row.value] else [])
  }

  /** What a sequential scan returns: the live rows, page by page, slot by slot. */
  function ScanRows(t: TableDef, pages: Pages): seq<Row> {
    if pages == [] then []
    else ScanRows(t, pages[..|pages| - 1]) + LiveRows(t, pages[|pages| - 1])
  }

  /** A live record that decodes. */
  ghost predicate ReadableAt(t: TableDef, pages: Pages, p: nat, s: nat) {
    LiveAt(pages, p, s) && RowOf(t, pages[p][s].payload).Some?
  }

  /** The positions of the readable records before (n, k): each once, page by page, slot by slot. */
  ghost predicate ReadableBefore(places: seq<(nat, nat)>, t: TableDef, pages: Pages, n: nat, k: nat) {
    && (forall m {:trigger places[m]} :: 0 <= m < |places| ==>
          Before(places[m], (n, k)) && ReadableAt(t, pages, places[m].0, places[m].1))
    && (forall m, m' :: 0 <= m < m' < |places| ==> Before(places[m], places[m']))
    && (forall p: nat, s: nat {:trigger ReadableAt(t, pages, p, s)} ::
          Before((p, s), (n, k)) && ReadableAt(t, pages, p, s) ==> (p, s) in places)
  }

  ghost predicate PlacesHold(places: seq<(nat, nat)>, t: TableDef, pages: Pages, out: seq<Row>) {
    |out| == |places| && forall m {:trigger places[m]} :: 0 <= m < |places| ==>
      ReadableAt(t, pages, places[m].0, places[m].1) &&
      RowOf(t, pages[places[m].0][places[m].1].payload) == Some(out[m])
  }

  /** out holds the row of every readable record, in heap order. */
  ghost predicate IsScan(t: TableDef, pages: Pages, out: seq<Row>) {
    exists places :: ReadableBefore(places, t, pages, |pages|, 0) && PlacesHold(places, t, pages, out)
  }

  lemma {:induction false} NextSlot(places: seq<(nat, nat)>, t: TableDef, pages: Pages, p: nat, s: nat, out: seq<Row>)
    requires ReadableBefore(places, t, pages, p, s) && PlacesHold(places, t, pages, out) && ReadableAt(t, pages, p, s)
    ensures ReadableBefore(places + [(p, s)], t, pages, p, s + 1)
    ensures PlacesHold(places + [(p, s)], t, pages, out + [RowOf(t, pages[p][s].payload).value])
  {
    hide RowOf;
    var all, rows := places + [(p, s)], out + [RowOf(t, pages[p][s].payload).value];
    forall m {:trigger all[m]} | 0 <= m < |all|
      ensures ReadableAt(t, pages, all[m].0, all[m].1)
      ensures RowOf(t, pages[all[m].0][all[m].1].payload) == Some(rows[m])
    {
      assert m < |places| ==> all[m] == places[m] && rows[m] == out[m];
    }
  }

  lemma {:induction false} SkipSlot(places: seq<(nat, nat)>, t: TableDef, pages: Pages, p: nat, s: nat)
    requires ReadableBefore(places, t, pages, p, s) && !ReadableAt(t, pages, p, s)
    ensures ReadableBefore(places, t, pages, p, s + 1)
  {
    hide ReadableAt;
  }

  /** Past the last slot of a page the next page begins. */
  lemma {:induction false} NextPage(places: seq<(nat, nat)>, t: TableDef, pages: Pages, p: nat)
    requires p < |pages| && ReadableBefore(places, t, pages, p, |pages[p]|)
    ensures ReadableBefore(places, t, pages, p + 1, 0)
  {
    hide RowOf;
  }

  lemma {:induction false} ScanPlaces(t: TableDef, pages: Pages, p: nat, s: nat) returns (places: seq<(nat, nat)>)
    requires p < |pages| && s <= |pages[p]|
    ensures ReadableBefore(places, t, pages, p, s)
    ensures PlacesHold(places, t, pages, ScanRows(t, pages[..p]) + LiveRows(t, pages[p][..s]))
    decreases p, s + 1
  {
    hide ReadableBefore, PlacesHold, RowOf, ScanRows, LiveRows;
    if s > 0 {
      places := ScanPlaces(t, pages, p, s - 1);
      LiveRowsStep(t, pages[p], s - 1);
      var before, rows := ScanRows(t, pages[..p]), LiveRows(t, pages[p][..s - 1]);
      if ReadableAt(t, pages, p, s - 1) {
        var row := RowOf(t, pages[p][s - 1].payload).value;
        NextSlot(places, t, pages, p, s - 1, before + rows);
        assert before + (rows + [row]) == before + rows + [row];
        places := places + [(p, s - 1)];
      } else {
        SkipSlot(places, t, pages, p, s - 1);
        assert rows + [] == rows;
      }
    } else {
      places := PagePlaces(t, pages, p);
      LiveRowsNone(t, pages[p]);
      assert ScanRows(t, pages[..p]) + [] == ScanRows(t, pages[..p]);
    }
  }

  lemma {:induction false} PagePlaces(t: TableDef, pages: Pages, p: nat) returns (places: seq<(nat, nat)>)
    requires p <= |pages|
    ensures ReadableBefore(places, t, pages, p, 0) && PlacesHold(places, t, pages, ScanRows(t, pages[..p]))
    decreases p, 0
  {
    places := [];
    if p > 0 {
      hide ReadableBefore, PlacesHold, LiveRows;
      var last := pages[p - 1];
      places := ScanPlaces(t, pages, p - 1, |last|);
      NextPage(places, t, pages, p - 1);
      assert last[..|last|] == last && pages[..p][..p - 1] == pages[..p - 1];
    }
  }

  lemma {:induction false} LiveRowsStep(t: TableDef, recs: seq<Record>, s: nat)
    requires s < |recs|
    ensures LiveRows(t, recs[..s + 1]) ==
              LiveRows(t, recs[..s]) +
              (if Live(recs[s]) && RowOf(t, recs[s].payload).Some? then [RowOf(t, recs[s].payload).value] else [])
  {
    assert recs[..s + 1][..s] == recs[..s];
  }

  lemma {:induction false} LiveRowsNone(t: TableDef, recs: seq<Record>)
    ensures LiveRows(t, recs[..0]) == []
  {
  }

  lemma {:induction false} SamePlaces(a: seq<(nat, nat)>, b: seq<(nat, nat)>, t: TableDef, pages: Pages, n: nat, k: nat)
    requires ReadableBefore(a, t, pages, n, k) && ReadableBefore(b, t, pages, n, k)
    ensures a == b
  {
    hide ReadableAt;
    forall x | x in a ensures x in b {
      var m :| 0 <= m < |a| && a[m] == x;
    }
    forall x | x in b ensures x in a {
      var m :| 0 <= m < |b| && b[m] == x;
    }
    PairsUnique(a, b);
  }

  lemma {:induction false} SameScan(places: seq<(nat, nat)>, t: TableDef, pages: Pages, x: seq<Row>, y: seq<Row>)
    requires PlacesHold(places, t, pages, x) && PlacesHold(places, t, pages, y)
    ensures x == y
  {
    hide RowOf;
    forall m | 0 <= m < |places| ensures x[m] == y[m] {
      assert places[m] == places[m];
    }
  }

  /** A sequential scan returns exactly those rows in that order. */
  lemma {:induction false} ScanIff(t: TableDef, pages: Pages, out: seq<Row>)
    ensures IsScan(t, pages, out) <==> out == ScanRows(t, pages)
  {
    hide ReadableBefore, PlacesHold, ScanRows;
    var places := PagePlaces(t, pages, |pages|);
    assert pages[..|pages|] == pages;
    if other :| ReadableBefore(other, t, pages, |pages|, 0) && PlacesHold(other, t, pages, out) {
      SamePlaces(places, other, t, pages, |pages|, 0);
      SameScan(places, t, pages, out, ScanRows(t, pages));
    }
  }

  // ----- Agreement with the index

  function CtidOf(t: TableDef, p: nat, s: nat): Ctid {
    Ctid(PageId(t.fileId, p), s)
  }

  /** The record at (p, s) is found through the index. */
  ghost predicate Indexed(t: TableDef, pages: Pages, contents: map<int, Ctid>, p: nat, s: nat)
    requires LiveAt(pages, p, s)
  {
    var k := KeyOf(t, pages[p][s].payload);
    k.Some? && k.value in contents && contents[k.value] == CtidOf(t, p, s)
  }

  /** The entry of key k leads to a live record with that key. */
  ghost predicate Leads(t: TableDef, pages: Pages, contents: map<int, Ctid>, k: int)
    requires k in contents
  {
    var c := contents[k];
    && c.page.fileId == t.fileId
    && LiveAt(pages, c.page.pageNum, c.slot)
    && KeyOf(t, pages[c.page.pageNum][c.slot].payload) == Some(k)
  }

  ghost predicate Agrees(t: TableDef, pages: Pages, contents: map<int, Ctid>) {
    && (forall p, s {:trigger LiveAt(pages, p, s)} :: LiveAt(pages, p, s) ==> Indexed(t, pages, contents, p, s))
    && (forall k {:trigger contents[k]} :: k in contents ==> Leads(t, pages, contents, k))
  }

  /** The heap determines the index. */
  lemma {:induction false} AgreesUnique(t: TableDef, pages: Pages, a: map<int, Ctid>, b: map<int, Ctid>)
    requires Agrees(t, pages, a) && Agrees(t, pages, b)
    ensures a == b
  {
    forall k | k in a ensures k in b && a[k] == b[k] {
      assert Leads(t, pages, a, k);
      assert Indexed(t, pages, b, a[k].page.pageNum, a[k].slot);
    }
    forall k | k in b ensures k in a {
      assert Leads(t, pages, b, k);
      assert Indexed(t, pages, a, b[k].page.pageNum, b[k].slot);
    }
  }

  /** The table as a map from keys to tuples. */
  ghost function TableMap(t: TableDef, pages: Pages, contents: map<int, Ctid>): map<int, Buffer>
    requires Agrees(t, pages, contents)
  {
    map k | k in contents :: PayloadAt(t, pages, contents, k)
  }

  ghost function PayloadAt(t: TableDef, pages: Pages, contents: map<int, Ctid>, k: int): Buffer
    requires Agrees(t, pages, contents) && k in contents
  {
    assert Leads(t, pages, contents, k);
    pages[contents[k].page.pageNum][contents[k].slot].payload
  }

  // ----- Insert

  /** Record, tuple header and slot: insert_record's test on a page of this table. */
  predicate HasRoom(t: TableDef, recs: seq<Record>, data: Buffer) {
    FreeSpace(t.pageSize, recs) >= TUPLE_HEADER_SIZE + |data| + SLOT_SIZE
  }

  /** A tuple fits on an empty page. */
  predicate Fits(t: TableDef, data: Buffer) {
    |data| + PAGE_HEADER_SIZE + TUPLE_HEADER_SIZE + SLOT_SIZE <= t.pageSize
  }

  /** write_tuple_to_heap: the last page, or a new one. A tuple that does not fit there leaves it empty. */
  function Appended(t: TableDef, pages: Pages, data: Buffer): Pages {
    if pages != [] && HasRoom(t, pages[|pages| - 1], data) then
      pages[|pages| - 1 := pages[|pages| - 1] + [Record(1, 0, data)]]
    else
      pages + [if Fits(t, data) then [Record(1, 0, data)] else []]
  }

  function AppendedAt(t: TableDef, pages: Pages, data: Buffer): Ctid {
    if pages != [] && HasRoom(t, pages[|pages| - 1], data) then CtidOf(t, |pages| - 1, |pages[|pages| - 1]|)
    else CtidOf(t, |pages|, 0)
  }

  lemma {:induction false} RoomMeansFits(t: TableDef, recs: seq<Record>, data: Buffer)
    ensures HasRoom(t, recs, data) ==> Fits(t, data)
  {
  }

  /** Appending keeps every other record, and adds a live one exactly when the tuple fits. */
  lemma {:induction false} AppendedLive(t: TableDef, pages: Pages, data: Buffer, p: nat, s: nat)
    ensures var after, c := Appended(t, pages, data), AppendedAt(t, pages, data);
            && (LiveAt(after, p, s) <==>
                  LiveAt(pages, p, s) || (Fits(t, data) && c == CtidOf(t, p, s)))
            && (LiveAt(pages, p, s) ==> LiveAt(after, p, s) && after[p][s] == pages[p][s] && c != CtidOf(t, p, s))
            && (Fits(t, data) && c == CtidOf(t, p, s) ==> LiveAt(after, p, s) && after[p][s] == Record(1, 0, data))
  {
    if pages != [] {
      RoomMeansFits(t, pages[|pages| - 1], data);
    }
  }

  /** INSERT of a fresh key keeps heap and index in bijection exactly when the tuple fits on a page. */
  lemma {:induction false} InsertAgrees(t: TableDef, pages: Pages, contents: map<int, Ctid>, data: Buffer, k: Key)
    requires Agrees(t, pages, contents) && k !in contents && KeyOf(t, data) == Some(k)
    ensures Agrees(t, Appended(t, pages, data), contents[k := AppendedAt(t, pages, data)]) <==> Fits(t, data)
  {
    var after, c := Appended(t, pages, data), AppendedAt(t, pages, data);
    var contents' := contents[k := c];
    AppendedLive(t, pages, data, c.page.pageNum, c.slot);
    if Fits(t, data) {
      forall p, s {:trigger LiveAt(after, p, s)} | LiveAt(after, p, s) ensures Indexed(t, after, contents', p, s) {
        AppendedLive(t, pages, data, p, s);
        if LiveAt(pages, p, s) {
          assert Indexed(t, pages, contents, p, s);
        }
      }
      forall j {:trigger contents'[j]} | j in contents' ensures Leads(t, after, contents', j) {
        if j != k {
          assert Leads(t, pages, contents, j);
          AppendedLive(t, pages, data, contents[j].page.pageNum, contents[j].slot);
        }
      }
    } else {
      Dangling(t, pages, contents, data, k);
    }
  }

  lemma {:induction false} Dangling(t: TableDef, pages: Pages, contents: map<int, Ctid>, data: Buffer, k: Key)
    requires !Fits(t, data)
    ensures !Leads(t, Appended(t, pages, data), contents[k := AppendedAt(t, pages, data)], k)
  {
    var c := AppendedAt(t, pages, data);
    AppendedLive(t, pages, data, c.page.pageNum, c.slot);
    if pages != [] {
      RoomMeansFits(t, pages[|pages| - 1], data);
    }
  }

  /** A row that fits is appended to the scan. */
  lemma {:induction false} InsertScan(t: TableDef, pages: Pages, data: Buffer)
    requires RowOf(t, data).Some?
    ensures ScanRows(t, Appended(t, pages, data)) ==
              ScanRows(t, pages) + (if Fits(t, data) then [RowOf(t, data).value] else [])
  {
    var after := Appended(t, pages, data);
    var n := |after| - 1;
    if pages != [] && HasRoom(t, pages[|pages| - 1], data) {
      RoomMeansFits(t, pages[n], data);
      assert after[..n] == pages[..n];
      assert after[n][..|pages[n]|] == pages[n];
    } else {
      assert after[..n] == pages;
      var added: seq<Record> := if Fits(t, data) then [Record(1, 0, data)] else [];
      assert after[n] == added;
      if Fits(t, data) {
        assert added[..0] == [] && LiveRows(t, []) == [];
        assert LiveRows(t, added) == [RowOf(t, data).value];
      }
    }
  }

  /** The map gains exactly the new pair. */
  lemma {:induction false} InsertMap(t: TableDef, pages: Pages, contents: map<int, Ctid>, data: Buffer, k: Key)
    requires Agrees(t, pages, contents) && k !in contents && KeyOf(t, data) == Some(k) && Fits(t, data)
    ensures var after, contents' := Appended(t, pages, data), contents[k := AppendedAt(t, pages, data)];
            Agrees(t, after, contents') && TableMap(t, after, contents') == TableMap(t, pages, contents)[k := data]
  {
    var after, c := Appended(t, pages, data), AppendedAt(t, pages, data);
    var contents' := contents[k := c];
    InsertAgrees(t, pages, contents, data, k);
    AppendedLive(t, pages, data, c.page.pageNum, c.slot);
    assert Leads(t, after, contents', k);
    forall j | j in contents ensures PayloadAt(t, after, contents', j) == PayloadAt(t, pages, contents, j) {
      assert Leads(t, pages, contents, j);
      AppendedLive(t, pages, data, contents[j].page.pageNum, contents[j].slot);
      assert j != k;
    }
  }

  // ----- Marking one record

  function MarkAt(pages: Pages, p: nat, s: nat): Pages
    requires p < |pages| && s < |pages[p]|
  {
    pages[p := pages[p][s := pages[p][s].(xmax := DELETED)]]
  }

  /** Deleting one live row from heap and index keeps the bijection and removes exactly its key. */
  lemma {:induction false} MarkAgrees(t: TableDef, pages: Pages, contents: map<int, Ctid>, p: nat, s: nat)
    requires Agrees(t, pages, contents) && LiveAt(pages, p, s)
    ensures KeyOf(t, pages[p][s].payload).Some?
    ensures var k, after := KeyOf(t, pages[p][s].payload).value, MarkAt(pages, p, s);
            && k in contents && k in TableMap(t, pages, contents)
            && Agrees(t, after, contents - {k})
            && TableMap(t, after, contents - {k}) == TableMap(t, pages, contents) - {k}
  {
    assert Indexed(t, pages, contents, p, s);
    var k, after := KeyOf(t, pages[p][s].payload).value, MarkAt(pages, p, s);
    var contents' := contents - {k};
    forall q, u {:trigger LiveAt(after, q, u)} | LiveAt(after, q, u) ensures Indexed(t, after, contents', q, u) {
      assert LiveAt(pages, q, u);
      assert Indexed(t, pages, contents, q, u);
    }
    forall j {:trigger contents'[j]} | j in contents' ensures Leads(t, after, contents', j) {
      assert Leads(t, pages, contents, j);
    }
    forall j | j in contents' ensures PayloadAt(t, after, contents', j) == PayloadAt(t, pages, contents, j) {
      assert Leads(t, pages, contents, j);
    }
  }

  // ----- DELETE WHERE

  predicate Doomed(t: TableDef, conds: seq<Condition>, r: Record) {
    Live(r) && RowOf(t, r.payload).Some? && Accepts(conds, t.schema, RowOf(t, r.payload).value)
  }

  /** The slots find_slots_to_delete collects among the first n. */
  function DoomedSlots(t: TableDef, conds: seq<Condition>, recs: seq<Record>, n: nat): (slots: seq<nat>)
    requires n <= |recs|
    ensures forall i :: 0 <= i < |slots| ==> slots[i] < n && Doomed(t, conds, recs[slots[i]])
    ensures forall i, j :: 0 <= i < j < |slots| ==> slots[i] < slots[j]
  {
    if n == 0 then []
    else DoomedSlots(t, conds, recs, n - 1) + (if Doomed(t, conds, recs[n - 1]) then [n - 1] else [])
  }

  function MarkSlots(recs: seq<Record>, slots: seq<nat>): (r: seq<Record>)
    requires forall i :: 0 <= i < |slots| ==> slots[i] < |recs|
    ensures |r| == |recs|
    ensures forall s :: 0 <= s < |recs| && s !in slots ==> r[s] == recs[s]
  {
    if slots == [] then recs
    else
      var last := slots[|slots| - 1];
      var prev := MarkSlots(recs, slots[..|slots| - 1]);
      prev[last := prev[last].(xmax := DELETED)]
  }

  /** A page after DELETE: exactly the doomed records are marked. */
  function Swept(t: TableDef, conds: seq<Condition>, recs: seq<Record>): (r: seq<Record>)
    ensures |r| == |recs|
    ensures forall s :: 0 <= s < |recs| ==>
              r[s] == if Doomed(t, conds, recs[s]) then recs[s].(xmax := DELETED) else recs[s]
  {
    seq(|recs|, s requires 0 <= s < |recs| =>
      if Doomed(t, conds, recs[s]) then recs[s].(xmax := DELETED) else recs[s])
  }

  function SweptPages(t: TableDef, conds: seq<Condition>, pages: Pages, n: nat): (r: Pages)
    requires n <= |pages|
    ensures |r| == |pages|
    ensures forall p :: 0 <= p < n ==> r[p] == Swept(t, conds, pages[p])
    ensures forall p :: n <= p < |pages| ==> r[p] == pages[p]
  {
    seq(|pages|, p requires 0 <= p < |pages| => if p < n then Swept(t, conds, pages[p]) else pages[p])
  }

  lemma {:induction false} MarkSlotsAt(recs: seq<Record>, slots: seq<nat>, s: nat)
    requires forall i :: 0 <= i < |slots| ==> slots[i] < |recs|
    requires s < |recs|
    ensures MarkSlots(recs, slots)[s] == if s in slots then recs[s].(xmax := DELETED) else recs[s]
  {
    if slots != [] {
      var init := slots[..|slots| - 1];
      MarkSlotsAt(recs, init, s);
      assert slots == init + [slots[|slots| - 1]];
    }
  }

  lemma {:induction false} DoomedListed(t: TableDef, conds: seq<Condition>, recs: seq<Record>, n: nat, s: nat)
    requires s < n <= |recs| && Doomed(t, conds, recs[s])
    ensures s in DoomedSlots(t, conds, recs, n)
  {
    if s < n - 1 {
      DoomedListed(t, conds, recs, n - 1, s);
    }
  }

  /** Collecting the slots first and marking them afterwards marks exactly the doomed records. */
  lemma {:induction false} MarkingSweeps(t: TableDef, conds: seq<Condition>, recs: seq<Record>)
    ensures MarkSlots(recs, DoomedSlots(t, conds, recs, |recs|)) == Swept(t, conds, recs)
  {
    var slots := DoomedSlots(t, conds, recs, |recs|);
    forall s | 0 <= s < |recs| ensures MarkSlots(recs, slots)[s] == Swept(t, conds, recs)[s] {
      MarkSlotsAt(recs, slots, s);
      if Doomed(t, conds, recs[s]) {
        DoomedListed(t, conds, recs, |recs|, s);
      }
    }
  }

  /** The rows that fail the clause, in order. */
  function Survivors(t: TableDef, conds: seq<Condition>, rows: seq<Row>): seq<Row> {
    if rows == [] then []
    else if Accepts(conds, t.schema, rows[0]) then Survivors(t, conds, rows[1..])
    else [rows[0]] + Survivors(t, conds, rows[1..])
  }

  lemma {:induction false} SurvivorsAppend(t: TableDef, conds: seq<Condition>, a: seq<Row>, b: seq<Row>)
    ensures Survivors(t, conds, a + b) == Survivors(t, conds, a) + Survivors(t, conds, b)
  {
    if a == [] {
      assert a + b == b;
    } else {
      assert (a + b)[1..] == a[1..] + b;
      SurvivorsAppend(t, conds, a[1..], b);
    }
  }

  lemma {:induction false} SweptRows(t: TableDef, conds: seq<Condition>, recs: seq<Record>)
    ensures LiveRows(t, Swept(t, conds, recs)) == Survivors(t, conds, LiveRows(t, recs))
  {
    if recs != [] {
      var n := |recs| - 1;
      var after := Swept(t, conds, recs);
      SweptRows(t, conds, recs[..n]);
      assert after[..n] == Swept(t, conds, recs[..n]);
      var row := RowOf(t, recs[n].payload);
      var last: seq<Row> := if Live(recs[n]) && row.Some? then [row.value] else [];
      SurvivorsAppend(t, conds, LiveRows(t, recs[..n]), last);
      if last != [] {
        assert last[1..] == [];
      }
    }
  }

  /** DELETE WHERE leaves exactly the rows that fail the clause, in their old scan order. */
  lemma {:induction false} SweptScan(t: TableDef, conds: seq<Condition>, pages: Pages)
    ensures ScanRows(t, SweptPages(t, conds, pages, |pages|)) == Survivors(t, conds, ScanRows(t, pages))
  {
    if pages != [] {
      var n := |pages| - 1;
      var after := SweptPages(t, conds, pages, |pages|);
      SweptScan(t, conds, pages[..n]);
      assert after[..n] == SweptPages(t, conds, pages[..n], n);
      SweptRows(t, conds, pages[n]);
      SurvivorsAppend(t, conds, ScanRows(t, pages[..n]), LiveRows(t, pages[n]));
    }
  }

  lemma {:induction false} SurvivorPicks(t: TableDef, conds: seq<Condition>, rows: seq<Row>, n: nat)
      returns (picks: seq<nat>)
    requires n <= |rows|
    ensures PicksOf(picks, conds, t.schema, rows, n, false) && Takes(picks, rows, Survivors(t, conds, rows[..n]))
  {
    hide Accepts, Accepted, PicksOf, Takes, Survivors;
    picks := [];
    NothingPicked(conds, t.schema, rows, false);
    NoSurvivors(t, conds);
    if n > 0 {
      picks := SurvivorPicks(t, conds, rows, n - 1);
      var kept, last := Survivors(t, conds, rows[..n - 1]), rows[n - 1];
      assert rows[..n] == rows[..n - 1] + [last];
      SurvivorsAppend(t, conds, rows[..n - 1], [last]);
      SurvivorOne(t, conds, last);
      AcceptsIff(conds, t.schema, last);
      if Accepted(conds, t.schema, last) {
        SkipNext(picks, conds, t.schema, rows, n - 1, false);
        assert kept + [] == kept;
      } else {
        PickNext(picks, conds, t.schema, rows, n - 1, false, kept);
        picks := picks + [n - 1];
      }
    }
  }

  lemma {:induction false} NoSurvivors(t: TableDef, conds: seq<Condition>)
    ensures Survivors(t, conds, []) == []
  {
  }

  lemma {:induction false} SurvivorOne(t: TableDef, conds: seq<Condition>, row: Row)
    ensures Survivors(t, conds, [row]) == if Accepts(conds, t.schema, row) then [] else [row]
  {
    assert [row][1..] == [];
  }

  /** The survivors are the rows that the clause does not accept, in their order. */
  lemma {:induction false} SurvivorsIff(t: TableDef, conds: seq<Condition>, rows: seq<Row>, out: seq<Row>)
    ensures IsFiltered(conds, t.schema, rows, false, out) <==> out == Survivors(t, conds, rows)
  {
    hide Survivors, Accepted, PicksOf, Takes;
    var picks := SurvivorPicks(t, conds, rows, |rows|);
    assert rows[..|rows|] == rows;
    assert IsFiltered(conds, t.schema, rows, false, Survivors(t, conds, rows));
    if IsFiltered(conds, t.schema, rows, false, out) {
      FilteredUnique(conds, t.schema, rows, false, out, Survivors(t, conds, rows));
    }
  }

  /** Every row is either selected by a clause or survives a DELETE with it. */
  lemma {:induction false} SelectedOrSurvives(t: TableDef, conds: seq<Condition>, rows: seq<Row>)
    ensures multiset(rows) == multiset(Select(conds, t.schema, rows)) + multiset(Survivors(t, conds, rows))
  {
    if rows != [] {
      SelectedOrSurvives(t, conds, rows[1..]);
      assert rows == [rows[0]] + rows[1..];
    }
  }

  // ----- Page capacity

  /** Every page has the room its records take. */
  ghost predicate PagesFit(t: TableDef, pages: Pages) {
    forall p {:trigger pages[p]} :: 0 <= p < |pages| ==> FreeSpace(t.pageSize, pages[p]) >= 0
  }

  lemma {:induction false} AppendedFits(t: TableDef, pages: Pages, data: Buffer)
    requires PagesFit(t, pages) && PAGE_HEADER_SIZE <= t.pageSize
    ensures PagesFit(t, Appended(t, pages, data))
  {
    var after := Appended(t, pages, data);
    forall p {:trigger after[p]} | 0 <= p < |after| ensures FreeSpace(t.pageSize, after[p]) >= 0 {
      if p < |pages| {
        assert FreeSpace(t.pageSize, pages[p]) >= 0;
        UsedAppend(pages[p], Record(1, 0, data));
      } else {
        UsedAppend([], Record(1, 0, data));
        assert [] + [Record(1, 0, data)] == [Record(1, 0, data)];
      }
    }
  }

  lemma {:induction false} MarkFits(t: TableDef, pages: Pages, p: nat, s: nat)
    requires PagesFit(t, pages) && p < |pages| && s < |pages[p]|
    ensures PagesFit(t, MarkAt(pages, p, s))
  {
    var after := MarkAt(pages, p, s);
    UsedSameLengths(pages[p], after[p]);
  }

  lemma {:induction false} PayloadFits(t: TableDef, pages: Pages, p: nat, s: nat)
    requires PagesFit(t, pages) && p < |pages| && s < |pages[p]|
    ensures |pages[p][s].payload| <= t.pageSize
  {
    assert FreeSpace(t.pageSize, pages[p]) >= 0;
    UsedMonotone(pages[p], s, s + 1);
    UsedMonotone(pages[p], s + 1, |pages[p]|);
    assert pages[p][..|pages[p]|] == pages[p];
  }
}
