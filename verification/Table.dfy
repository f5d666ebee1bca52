/**
 Row commands on one table: INSERT and DELETE keep the heap's live rows and the index in
 bijection, log every change, and keep the log able to rebuild the table.

 `Stored` is the state on pages: heap and index agree on the map `rows` from keys to tuples.
 `Logged` is the state of the log: read back, it leads from the rows of the last checkpoint to
 the current ones. A command keeps both; recovery starts from `Stored` and a log file, and
 brings `Logged` back.
 */
module Table {
  import opened Storage
  import opened Values
  import opened Predicate
  import opened Bytes
  import opened Pipeline
  import opened Plan
  import opened SlottedPage
  import opened Heap
  import opened Replay
  import opened Torn
  import opened BTree
  import BTreeState
  import opened Wal
  import TupleCodec

  /** The payloads in the log: those the file held when it was opened, and those appended since. */
  function LogPayloads(base: Buffer, history: seq<LogRecord>): seq<Buffer> {
    ParseLog(base) + Payloads(history)
  }

  lemma {:induction false} LogPayloadsAppend(base: Buffer, history: seq<LogRecord>, r: LogRecord)
    ensures LogPayloads(base, history + [r]) == LogPayloads(base, history) + [r.payload]
  {
  }

  lemma {:induction false} PrefixFits(t: TableDef, history: seq<LogRecord>, n: nat)
    requires n <= |history| && forall rec :: rec in Payloads(history) ==> InsertFits(t, rec)
    ensures forall rec :: rec in Payloads(history[..n]) ==> InsertFits(t, rec)
  {
    hide InsertFits;
    assert forall i :: 0 <= i < n ==> Payloads(history[..n])[i] == Payloads(history)[i];
  }

  lemma {:induction false} NoLogPayloads(base: Buffer)
    ensures LogPayloads(base, []) == ParseLog(base) && ParseLog([]) == [] && Unread([]) == []
  {
  }

  /** A record the table wrote itself reads back as its operation. */
  lemma {:induction false} OwnRecord(t: TableDef, op: Byte, data: Buffer)
    requires 0 < |t.name| < 0x1_0000 && KeyOf(t, data).Some?
    ensures var k := KeyOf(t, data).value;
            && (op == OP_INSERT ==> OpOf(t, Payload(op, t.name, data)) == Some(Op.Insert(k, data)))
            && (op == OP_DELETE ==> OpOf(t, Payload(op, t.name, data)) == Some(Op.Remove(k)))
  {
    ParseRoundTrip(op, t.name, data);
  }

  /** The records a DELETE logs for one page, in slot order. */
  function SlotLog(t: TableDef, recs: seq<Record>, slots: seq<nat>): seq<Buffer>
    requires forall i :: 0 <= i < |slots| ==> slots[i] < |recs|
  {
    if slots == [] then []
    else
      var n := |slots| - 1;
      SlotLog(t, recs, slots[..n]) + [Payload(OP_DELETE, t.name, recs[slots[n]].payload)]
  }

  /** The records a DELETE logs for the first n pages. */
  function SweepLog(t: TableDef, conds: seq<Condition>, pages: Pages, n: nat): seq<Buffer>
    requires n <= |pages|
  {
    if n == 0 then []
    else
      var recs := pages[n - 1];
      SweepLog(t, conds, pages, n - 1) + SlotLog(t, recs, DoomedSlots(t, conds, recs, |recs|))
  }

  lemma {:induction false} SlotLogStep(t: TableDef, recs: seq<Record>, slots: seq<nat>, j: nat)
    requires j < |slots| && forall i :: 0 <= i < |slots| ==> slots[i] < |recs|
    ensures SlotLog(t, recs, slots[..j + 1]) ==
              SlotLog(t, recs, slots[..j]) + [Payload(OP_DELETE, t.name, recs[slots[j]].payload)]
    ensures MarkSlots(recs, slots[..j + 1]) ==
              var prev := MarkSlots(recs, slots[..j]); prev[slots[j] := prev[slots[j]].(xmax := DELETED)]
  {
    assert slots[..j + 1][..j] == slots[..j] && slots[..j + 1][j] == slots[j];
  }

  lemma {:induction false} NothingMarked(t: TableDef, recs: seq<Record>, slots: seq<nat>)
    requires forall i :: 0 <= i < |slots| ==> slots[i] < |recs|
    ensures MarkSlots(recs, slots[..0]) == recs && SlotLog(t, recs, slots[..0]) == []
  {
  }

  lemma {:induction false} LiveSlot(t: TableDef, conds: seq<Condition>, recs: seq<Record>, j: nat)
    requires j < |DoomedSlots(t, conds, recs, |recs|)|
    ensures var s := DoomedSlots(t, conds, recs, |recs|)[j];
            s < |recs| && Live(recs[s])
  {
    assert Doomed(t, conds, recs[DoomedSlots(t, conds, recs, |recs|)[j]]);
  }

  /** Marking earlier slots leaves the next one live. */
  lemma {:induction false} StillLive(t: TableDef, conds: seq<Condition>, pages: Pages, p: nat, j: nat)
    requires p < |pages| && j < |DoomedSlots(t, conds, pages[p], |pages[p]|)|
    ensures var slots := DoomedSlots(t, conds, pages[p], |pages[p]|);
            var now := pages[p := MarkSlots(pages[p], slots[..j])];
            && LiveAt(now, p, slots[j]) && now[p][slots[j]] == pages[p][slots[j]]
            && MarkAt(now, p, slots[j]) == pages[p := MarkSlots(pages[p], slots[..j + 1])]
  {
    hide Doomed, Swept, MarkSlots, SlotLog, DoomedSlots;
    var slots := DoomedSlots(t, conds, pages[p], |pages[p]|);
    assert slots[j] !in slots[..j];
    LiveSlot(t, conds, pages[p], j);
    SlotLogStep(t, pages[p], slots, j);
  }

  lemma {:induction false} NothingSwept(t: TableDef, conds: seq<Condition>, pages: Pages)
    ensures SweptPages(t, conds, pages, 0) == pages && SweepLog(t, conds, pages, 0) == []
  {
  }

  lemma {:induction false} SweepStep(t: TableDef, conds: seq<Condition>, pages: Pages, p: nat)
    requires p < |pages|
    ensures var now, recs := SweptPages(t, conds, pages, p), pages[p];
            && now[p] == recs
            && SweptPages(t, conds, pages, p + 1) == now[p := Swept(t, conds, recs)]
            && SweepLog(t, conds, pages, p + 1) ==
                 SweepLog(t, conds, pages, p) + SlotLog(t, recs, DoomedSlots(t, conds, recs, |recs|))
  {
  }

  lemma {:induction false} EmptyLog(t: TableDef, rows: Rows)
    ensures SuccessfulLog(t, [], rows) && ReplayAll(t, [], rows) == rows
  {
  }

  lemma {:induction false} EmptyTable(t: TableDef)
    ensures PagesFit(t, []) && Agrees(t, [], map[]) && TableMap(t, [], map[]) == map[] && ScanRows(t, []) == []
  {
  }

  lemma {:induction false} NothingReplayed(t: TableDef, records: seq<Buffer>, pages: Pages,
                                           contents: map<int, Ctid>, rows: Rows)
    ensures ReplayAll(t, records[..0], rows) == rows
    ensures StoredAll(t, records[..0], pages, contents) == (pages, contents)
  {
  }

  /** The tuple of a row that fits on a page reads back as that row. */
  lemma {:induction false} TupleReadsBack(t: TableDef, values: seq<Value>)
    requires TupleCodec.Lossless(t.utf8) && TupleCodec.Typed(t.schema, values) && t.pageSize < U16_END
    requires values != [] && values[0].Integer?
    ensures var data := TupleCodec.Encode(t.utf8, t.schema, values);
            Fits(t, data) ==> RowOf(t, data) == Some(values) && KeyOf(t, data) == Some(values[0].i)
  {
    var data := TupleCodec.Encode(t.utf8, t.schema, values);
    if Fits(t, data) {
      TupleCodec.SmallTuplesRoundTrip(t.utf8, t.schema, values);
      assert TupleCodec.TypeMatches(t.schema[0], values[0]);
    }
  }

  class Table {
    const t: TableDef
    var pages: Pages
    const index: BTreeIndex
    const log: DiskLogManager
    /** The record count of the catalog. */
    var numRecords: int

    /** The tuples by key, the payloads logged since the last checkpoint, and the tuples at that checkpoint. */
    ghost var rows: Rows
    ghost var logged: seq<Buffer>
    ghost var start: Rows

    /** Heap and index are well formed and in bijection. */
    ghost predicate Stored()
      reads this`pages, this`rows, index
    {
      && index.Valid()
      && 0 < |t.name| < U16_END && PAGE_HEADER_SIZE <= t.pageSize < U16_END && TupleCodec.Lossless(t.utf8)
      && PagesFit(t, pages)
      && Agrees(t, pages, index.contents) && rows == TableMap(t, pages, index.contents)
    }

    /**
     The log was opened on a file with nothing left unread, and lists successful changes that lead
     from the last checkpoint to the current rows.
     */
    ghost predicate Logged()
      reads this`rows, this`logged, this`start, log
    {
      && log.Valid() && Unread(log.base) == []
      && logged == LogPayloads(log.base, log.History())
      && SuccessfulLog(t, logged, start) && ReplayAll(t, logged, start) == rows
    }

    ghost predicate Valid()
      reads this`pages, this`rows, this`logged, this`start, index, log
    {
      Stored() && Logged()
    }

    /** What a sequential scan returns. */
    ghost function Scan(): seq<Row>
      reads this`pages
    {
      ScanRows(t, pages)
    }

    constructor (t: TableDef, config: BTreeState.Config)
      requires BTreeState.ConfigOk(config)
      requires 0 < |t.name| < U16_END && PAGE_HEADER_SIZE <= t.pageSize < U16_END && TupleCodec.Lossless(t.utf8)
      ensures Valid() && fresh(index) && fresh(log) && this.t == t
      ensures rows == map[] && logged == [] && Scan() == [] && numRecords == 0
    {
      hide PagesFit, Agrees, TableMap, SuccessfulLog, ReplayAll, ScanRows, BTreeIndex.Valid, DiskLogManager.Valid;
      EmptyLog(t, map[]);
      EmptyTable(t);
      NoLogPayloads([]);
      this.t, pages, numRecords, rows, logged, start := t, [], 0, map[], [], map[];
      index := new BTreeIndex(config, map[], 0, None, map[], map[]);
      log := new DiskLogManager([]);
    }

    // ----- INSERT

    /** write_tuple_to_heap. */
    method WriteTuple(data: Buffer) returns (ctid: Ctid)
      modifies this`pages
      ensures pages == Appended(t, old(pages), data) && ctid == AppendedAt(t, old(pages), data)
    {
      var total := |pages|;
      if total > 0 {
        var last := pages[total - 1];
        if HasRoom(t, last, data) {
          pages := pages[total - 1 := last + [Record(1, 0, data)]];
          return CtidOf(t, total - 1, |last|);
        }
      }
      var page: seq<Record> := [];
      if HasRoom(t, page, data) {
        page := [Record(1, 0, data)];
      }
      assert page == if Fits(t, data) then [Record(1, 0, data)] else [];
      pages := pages + [page];
      return CtidOf(t, total, 0);
    }

    /** A new row in heap, log and index, in the order of execute_insert. */
    method AddRow(pk: Key, data: Buffer)
      requires Valid() && pk !in rows && log.nextLsn <= U64_MAX && |t.name| + |data| + 3 <= U32_MAX
      requires Fits(t, data) ==> KeyOf(t, data) == Some(pk)
      modifies this`pages, this`rows, this`logged, index, log
      ensures pages == Appended(t, old(pages), data)
      ensures logged == old(logged) + [Payload(OP_INSERT, t.name, data)]
      ensures logged == LogPayloads(log.base, log.History())
      ensures rows == old(rows)[pk := data]
      ensures Valid() <==> Fits(t, data)
    {
      hide PagesFit, Agrees, SuccessfulLog, ReplayAll, Appended, AppendedAt, Payloads, Payload, KeyOf, TableMap,
           BTreeIndex.Valid, DiskLogManager.Valid;
      InsertionExplained(pk, data);
      var ctid := WriteTuple(data);
      var lsn := log.Append(Payload(OP_INSERT, t.name, data));
      var inserted := index.Insert(pk, ctid);
      logged := logged + [Payload(OP_INSERT, t.name, data)];
      rows := rows[pk := data];
    }

    /** Everything an insertion needs to keep the table valid, and what breaks when the tuple does not fit. */
    lemma {:induction false} InsertionExplained(pk: Key, data: Buffer)
      requires Valid() && pk !in rows && (Fits(t, data) ==> KeyOf(t, data) == Some(pk))
      ensures var after, contents := Appended(t, pages, data), index.contents[pk := AppendedAt(t, pages, data)];
              && pk !in index.contents
              && PagesFit(t, after)
              && (Agrees(t, after, contents) <==> Fits(t, data))
              && (Fits(t, data) ==> TableMap(t, after, contents) == rows[pk := data])
      ensures var rec := Payload(OP_INSERT, t.name, data);
              && LogPayloads(log.base, log.History() + [LogRecord(log.nextLsn, rec)]) == logged + [rec]
              && (Fits(t, data) ==>
                    SuccessfulLog(t, logged + [rec], start) && ReplayAll(t, logged + [rec], start) == rows[pk := data])
    {
      hide PagesFit, Agrees, SuccessfulLog, ReplayAll, Appended, AppendedAt, Payloads, Payload, KeyOf;
      AppendedFits(t, pages, data);
      LogPayloadsAppend(log.base, log.History(), LogRecord(log.nextLsn, Payload(OP_INSERT, t.name, data)));
      LogStep(t, logged, Payload(OP_INSERT, t.name, data), start);
      if Fits(t, data) {
        InsertMap(t, pages, index.contents, data, pk);
        OwnRecord(t, OP_INSERT, data);
      } else {
        BreaksAgreement(pages, index.contents, data, pk);
      }
    }

    lemma {:induction false} BreaksAgreement(before: Pages, contents: map<int, Ctid>, data: Buffer, pk: Key)
      requires !Fits(t, data)
      ensures !Agrees(t, Appended(t, before, data), contents[pk := AppendedAt(t, before, data)])
    {
      var contents' := contents[pk := AppendedAt(t, before, data)];
      Dangling(t, before, contents, data, pk);
      assert contents'[pk] == AppendedAt(t, before, data);
    }

    /** What an INSERT of these values would add: nothing when it is rejected or the key is taken. */
    ghost predicate AddsRow(values: seq<Value>)
      reads this`rows
    {
      && |values| == |t.schema| && TupleCodec.NullsAllowed(t.schema, values, |values|)
      && Keyed(values) && values[0].i !in rows
    }

    method Insert(values: seq<Value>) returns (r: Result<(), TupleCodec.TupleError>)
      requires Valid() && log.nextLsn <= U64_MAX
      requires |values| == |t.schema| ==>
                 && TupleCodec.Typed(t.schema, values)
                 && |t.name| + |TupleCodec.Encode(t.utf8, t.schema, values)| + 3 <= U32_MAX
      modifies this`pages, this`numRecords, this`rows, this`logged, index, log
      ensures r.Ok? <==> |values| == |t.schema| && TupleCodec.NullsAllowed(t.schema, values, |values|)
      ensures !old(AddsRow(values)) ==>
                && Valid() && pages == old(pages) && rows == old(rows) && logged == old(logged)
                && numRecords == old(numRecords)
      ensures old(AddsRow(values)) ==>
                var data := TupleCodec.Encode(t.utf8, t.schema, values);
                && rows == old(rows)[values[0].i := data] && numRecords == old(numRecords) + 1
                && logged == old(logged) + [Payload(OP_INSERT, t.name, data)]
                && (Valid() <==> Fits(t, data))
                && (Fits(t, data) ==> Scan() == old(Scan()) + [values])
    {
      hide Valid, TupleCodec.Encode, ScanRows, KeyOf, Payload, RowOf;
      if |values| == |t.schema| {
        TupleCodec.TypedIsRanged(t.schema, values);
      }
      var encoded := TupleCodec.FromValues(t.utf8, t.schema, values);
      if encoded.Err? {
        return Err(encoded.error);
      }
      if values == [] || !values[0].Integer? {
        return Ok(());
      }
      var pk, data := values[0].i, encoded.value;
      assert TupleCodec.TypeMatches(t.schema[0], values[0]);
      var taken := HasKey(pk);
      if taken {
        return Ok(());
      }
      ReadsBack(values);
      ghost var before := pages;
      AddRow(pk, data);
      numRecords := numRecords + 1;
      if Fits(t, data) {
        InsertScan(t, before, data);
      }
      return Ok(());
    }

    lemma {:induction false} ReadsBack(values: seq<Value>)
      requires Valid() && TupleCodec.Typed(t.schema, values) && values != [] && values[0].Integer?
      ensures var data := TupleCodec.Encode(t.utf8, t.schema, values);
              Fits(t, data) ==> RowOf(t, data) == Some(values) && KeyOf(t, data) == Some(values[0].i)
    {
      TupleReadsBack(t, values);
    }

    /** The uniqueness check of INSERT. */
    method HasKey(pk: Key) returns (found: bool)
      requires Valid()
      modifies index
      ensures Valid() && found == (pk in rows)
    {
      hide PagesFit, Agrees, SuccessfulLog, ReplayAll, Payloads;
      var r := index.Search(pk);
      found := r.Ok?;
    }

    // ----- DELETE

    /** One row: marked in the heap, removed from the index, and logged. */
    method DeleteSlot(p: nat, s: nat)
      requires Valid() && LiveAt(pages, p, s) && log.nextLsn <= U64_MAX && |t.name| + t.pageSize + 3 <= U32_MAX
      modifies this`pages, this`rows, this`logged, index, log
      ensures Valid() && pages == MarkAt(old(pages), p, s)
      ensures |rows| == |old(rows)| - 1 && log.nextLsn == old(log.nextLsn) + 1
      ensures logged == old(logged) + [Payload(OP_DELETE, t.name, old(pages)[p][s].payload)]
      ensures index.root == old(index.root)
    {
      hide PagesFit, Agrees, SuccessfulLog, ReplayAll, Payloads, RowOf, KeyOf, Payload, TableMap, MarkAt, LiveAt,
           BTreeIndex.Valid, DiskLogManager.Valid;
      var data := SlotData(p, s);
      DeletionExplained(p, s);
      pages := MarkAt(pages, p, s);
      var pk := KeyOf(t, data);
      var removed := index.Delete(pk.value);
      var lsn := log.Append(Payload(OP_DELETE, t.name, data));
      rows := rows - {pk.value};
      logged := logged + [Payload(OP_DELETE, t.name, data)];
    }

    /** extract_tuple_for_slot. */
    method SlotData(p: nat, s: nat) returns (data: Buffer)
      requires LiveAt(pages, p, s)
      ensures p < |pages| && s < |pages[p]| && data == pages[p][s].payload
    {
      data := pages[p][s].payload;
    }

    /** Everything a deletion needs to keep the table valid. */
    lemma {:induction false} DeletionExplained(p: nat, s: nat)
      requires Valid() && LiveAt(pages, p, s)
      ensures KeyOf(t, pages[p][s].payload).Some? && |pages[p][s].payload| <= t.pageSize
      ensures var k, after := KeyOf(t, pages[p][s].payload).value, MarkAt(pages, p, s);
              && k in rows && |rows - {k}| == |rows| - 1
              && PagesFit(t, after)
              && Agrees(t, after, index.contents - {k})
              && TableMap(t, after, index.contents - {k}) == rows - {k}
      ensures var rec := Payload(OP_DELETE, t.name, pages[p][s].payload);
              && SuccessfulLog(t, logged + [rec], start)
              && ReplayAll(t, logged + [rec], start) == rows - {KeyOf(t, pages[p][s].payload).value}
              && LogPayloads(log.base, log.History() + [LogRecord(log.nextLsn, rec)]) == logged + [rec]
    {
      hide PagesFit, Agrees, SuccessfulLog, ReplayAll, Payloads, RowOf, KeyOf, Payload, TableMap;
      var data := pages[p][s].payload;
      MarkAgrees(t, pages, index.contents, p, s);
      MarkFits(t, pages, p, s);
      PayloadFits(t, pages, p, s);
      OwnRecord(t, OP_DELETE, data);
      LogPayloadsAppend(log.base, log.History(), LogRecord(log.nextLsn, Payload(OP_DELETE, t.name, data)));
      LogStep(t, logged, Payload(OP_DELETE, t.name, data), start);
    }

    /** find_slots_to_delete. */
    method FindSlots(p: nat, conds: seq<Condition>) returns (slots: seq<nat>)
      requires p < |pages|
      ensures slots == DoomedSlots(t, conds, pages[p], |pages[p]|)
    {
      var recs := pages[p];
      slots := [];
      for s := 0 to |recs|
        invariant slots == DoomedSlots(t, conds, recs, s)
      {
        if Live(recs[s]) {
          var row := RowOf(t, recs[s].payload);
          if row.Some? {
            KeyOfIsFirst(t, recs[s].payload);
            var accepted := EvaluateWhereClause(conds, t.schema, row.value);
            if accepted {
              slots := slots + [s];
            }
          }
        }
      }
    }

    /** process_page_for_delete: collects the slots of one page, then deletes them. */
    method DeletePage(p: nat, conds: seq<Condition>) returns (deleted: nat)
      requires Valid() && p < |pages| && log.nextLsn + |rows| <= U64_MAX + 1 && |t.name| + t.pageSize + 3 <= U32_MAX
      modifies this`pages, this`rows, this`logged, index, log
      ensures Valid() && pages == old(pages)[p := Swept(t, conds, old(pages)[p])]
      ensures |rows| + deleted == |old(rows)| && log.nextLsn == old(log.nextLsn) + deleted
      ensures index.root == old(index.root)
      ensures var recs := old(pages)[p];
              logged == old(logged) + SlotLog(t, recs, DoomedSlots(t, conds, recs, |recs|))
    {
      hide *;
      ghost var recs, before := pages[p], pages;
      var slots := FindSlots(p, conds);
      deleted := 0;
      NothingMarked(t, recs, slots);
      for j := 0 to |slots|
        invariant Valid() && deleted == j
        invariant pages == before[p := MarkSlots(recs, slots[..j])]
        invariant |rows| + j == |old(rows)| && log.nextLsn == old(log.nextLsn) + j
        invariant index.root == old(index.root)
        invariant logged == old(logged) + SlotLog(t, recs, slots[..j])
      {
        StillLive(t, conds, before, p, j);
        SlotLogStep(t, recs, slots, j);
        LiveIsCounted(p, slots[j]);
        DeleteSlot(p, slots[j]);
        deleted := deleted + 1;
      }
      assert slots[..|slots|] == slots;
      MarkingSweeps(t, conds, recs);
    }

    lemma {:induction false} LiveIsCounted(p: nat, s: nat)
      requires Valid() && LiveAt(pages, p, s)
      ensures |rows| > 0
    {
      assert Indexed(t, pages, index.contents, p, s);
      assert KeyOf(t, pages[p][s].payload).value in rows;
    }

    method Delete(conds: seq<Condition>) returns (deleted: nat)
      requires Valid() && log.nextLsn + |rows| <= U64_MAX + 1 && |t.name| + t.pageSize + 3 <= U32_MAX
      modifies this`pages, this`numRecords, this`rows, this`logged, index, log
      ensures Valid() && pages == SweptPages(t, conds, old(pages), |old(pages)|)
      ensures Scan() == Survivors(t, conds, old(Scan()))
      ensures IsFiltered(conds, t.schema, old(Scan()), false, Scan())
      ensures |rows| + deleted == |old(rows)| && numRecords == old(numRecords) - deleted
      ensures logged == old(logged) + SweepLog(t, conds, old(pages), |old(pages)|)
      ensures index.root == old(index.root)
    {
      hide *;
      ghost var before := pages;
      var total := |pages|;
      deleted := 0;
      NothingSwept(t, conds, before);
      ScanIs();
      for p := 0 to total
        invariant Valid() && pages == SweptPages(t, conds, before, p) && numRecords == old(numRecords)
        invariant |rows| + deleted == |old(rows)| && log.nextLsn == old(log.nextLsn) + deleted
        invariant index.root == old(index.root)
        invariant logged == old(logged) + SweepLog(t, conds, before, p)
      {
        SweepStep(t, conds, before, p);
        var n := DeletePage(p, conds);
        deleted := deleted + n;
      }
      SweptScan(t, conds, before);
      ScanIs();
      SurvivorsIff(t, conds, old(Scan()), Scan());
      if deleted > 0 {
        numRecords := numRecords - deleted;
      }
    }

    lemma {:induction false} ScanIs()
      ensures Scan() == ScanRows(t, pages)
    {
    }

    // ----- Durability

    /** execute_dml flushes the log before it reports success: the file then lists every change. */
    method Acknowledge()
      requires Valid()
      modifies log
      ensures Valid() && log.logBuffer == [] && ParseLog(log.file) == logged
    {
      hide SuccessfulLog, ReplayAll, Stored, ParseLog, EncodeLog, Unread;
      log.FlushUpTo(U64_MAX);
      log.NothingBuffered();
      assert log.History() == log.written;
      log.WholeFileReads();
    }

    /** The checkpoint: once all pages are on disk the log starts over from the current rows. */
    method Checkpoint()
      requires Valid()
      modifies this`logged, this`start, log
      ensures Valid() && log.file == [] && logged == [] && start == rows
      ensures log.logBuffer == [] && log.nextLsn == old(log.nextLsn)
    {
      hide Stored, DiskLogManager.Valid, SuccessfulLog, ReplayAll, ParseLog, Unread;
      log.FlushUpTo(U64_MAX);
      log.NothingBuffered();
      log.Checkpoint();
      EmptyLog(t, rows);
      NoLogPayloads([]);
      logged, start := [], rows;
    }

    // ----- Recovery

    ghost function StandNow(): Stand
      reads this`pages, this`rows, index`contents
    {
      Stand(pages, index.contents, rows)
    }

    /**
     One iteration of the replay loop. What it does to heap and index holds in every stored state;
     over a heap and an index that agree it does to the rows what the record asks.
     */
    method ReplayRecord(rec: Buffer) returns (applied: bool)
      requires index.Valid()
      modifies this`pages, this`rows, index
      ensures index.Valid()
      ensures (pages, index.contents) == StoredStep(t, rec, old(pages), old(index.contents))
      ensures applied <==> Applies(t, rec, old(index.contents))
      ensures old(Stored()) && InsertFits(t, rec) ==> Stored()
      ensures rows == Step(t, rec, old(rows))
      ensures ReplaysBytes(t, rec, old(StandNow()), StandNow(), applied)
      ensures forall op, other, data {:trigger Payload(op, other, data)} ::
                0 < |other| < U16_END && rec == Payload(op, other, data) ==>
                  (other != t.name || op > 1 || KeyOf(t, data).None? ==>
                     pages == old(pages) && index.contents == old(index.contents) && rows == old(rows) && !applied)
    {
      hide PagesFit, Agrees, TableMap, KeyOf, Parse, Payload, ReplaysBytes, NamesTable, BTreeIndex.Valid, Appended,
           AppendedAt, Erased;
      ghost var before, contents := pages, index.contents;
      StepReplaysBytes(t, rec, StandNow());
      OthersChangeNothing(t, rec, StandNow(), StandAfter(t, rec, StandNow()), Applies(t, rec, contents));
      if Stored() && InsertFits(t, rec) {
        StepKeepsAgreement(t, rec, pages, contents);
      }
      rows := Step(t, rec, rows);
      var entry := Parse(rec);
      if entry.None? || entry.value.name != t.name {
        return false;
      }
      var pk := KeyOf(t, entry.value.data);
      if pk.None? {
        return false;
      }
      var found := index.Search(pk.value);
      if entry.value.op == OP_INSERT {
        if found.Ok? {
          return false;
        }
        if |pages| == 0 {
          pages := [[]];
        }
        var ctid := WriteTuple(entry.value.data);
        var inserted := index.Insert(pk.value, ctid);
        return true;
      }
      if entry.value.op == OP_DELETE && found.Ok? {
        var removed := index.Delete(pk.value);
        MarkCtid(found.value);
        return true;
      }
      return false;
    }

    /** mark_deleted through an identifier: nothing happens when it names no slot of this heap. */
    method MarkCtid(c: Ctid)
      modifies this`pages
      ensures pages == Erased(t, old(pages), c)
    {
      var p, s := c.page.pageNum, c.slot;
      if c.page.fileId == t.fileId && p < |pages| && s < |pages[p]| {
        pages := MarkAt(pages, p, s);
      }
    }

    method ReplayLog(records: seq<Buffer>) returns (replayed: nat)
      requires index.Valid()
      modifies this`pages, this`rows, index
      ensures index.Valid()
      ensures (pages, index.contents) == StoredAll(t, records, old(pages), old(index.contents))
      ensures old(Stored()) && (forall rec :: rec in records ==> InsertFits(t, rec)) ==> Stored()
      ensures rows == ReplayAll(t, records, old(rows))
      ensures 0 < |t.name| < U16_END ==>
                var own := RecordsOf(t.name, records);
                && (pages, index.contents) == StoredAll(t, own, old(pages), old(index.contents))
                && rows == ReplayAll(t, own, old(rows))
    {
      hide *;
      replayed := 0;
      ghost var fits := forall rec :: rec in records ==> InsertFits(t, rec);
      NothingReplayed(t, records, pages, index.contents, rows);
      for i := 0 to |records|
        invariant index.Valid() && (old(Stored()) && fits ==> Stored())
        invariant (pages, index.contents) == StoredAll(t, records[..i], old(pages), old(index.contents))
        invariant rows == ReplayAll(t, records[..i], old(rows))
      {
        assert records[..i + 1] == records[..i] + [records[i]];
        LogStep(t, records[..i], records[i], old(rows));
        StoredAllStep(t, records, i, old(pages), old(index.contents));
        assert records[i] in records;
        var applied := ReplayRecord(records[i]);
        if applied {
          replayed := replayed + 1;
        }
      }
      assert records[..|records|] == records;
      if 0 < |t.name| < U16_END {
        OwnRecordsStored(t, records, old(pages), old(index.contents));
        OwnRecordsDecide(t, records, old(rows));
      }
    }

    lemma {:induction false} NameFits()
      requires Stored()
      ensures 0 < |t.name| < U16_END
    {
    }

    lemma {:induction false} StoredIndex()
      requires Stored()
      ensures index.Valid()
    {
    }

    /**
     Recovery from a log file that may end in a torn record: if every key's stored row is one
     it passed through in the readable part of the history, the table ends in the state after
     that part. It is valid, and can go on, exactly when the file has nothing left unread.
     */
    method Recover(cut: nat, ghost history: seq<LogRecord>, ghost before: Rows) returns (replayed: nat)
      requires Stored() && log.Valid() && log.History() == []
      requires Writable(history) && cut <= |EncodeLog(history)| && log.base == log.file == EncodeLog(history)[..cut]
      requires forall rec :: rec in Payloads(history) ==> InsertFits(t, rec)
      requires var readable := Payloads(history[..Fitting(history, cut)]);
               SuccessfulLog(t, readable, before) && Mixture(t, readable, before, rows)
      modifies this`pages, this`rows, this`logged, this`start, index
      ensures Stored() && rows == ReplayAll(t, Payloads(history[..Fitting(history, cut)]), before)
      ensures var own := RecordsOf(t.name, Payloads(history[..Fitting(history, cut)]));
              && rows == ReplayAll(t, own, before)
              && (pages, index.contents) == StoredAll(t, own, old(pages), old(index.contents))
      ensures Valid() <==> Unread(log.base) == []
      ensures cut == |EncodeLog(history)| ==> Valid() && rows == ReplayAll(t, Payloads(history), before)
    {
      hide Stored, EncodeLog, ParseLog, SuccessfulLog, ReplayAll, StoredAll, RecordsOf, Mixture, InsertFits, Writable,
           Unread, Payloads, DiskLogManager.Valid;
      StoredIndex();
      var records := log.ReadAllLogs();
      ReadTornFile(history, cut);
      ghost var n := Fitting(history, cut);
      PrefixFits(t, history, n);
      ReplayConverges(t, records, before, rows);
      NameFits();
      OwnRecordsDecide(t, records, before);
      replayed := ReplayLog(records);
      NoLogPayloads(log.base);
      logged, start := records, before;
      if cut == |EncodeLog(history)| {
        assert history[..n] == history && EncodeLog(history)[..cut] == EncodeLog(history);
        WholeLogLeavesNothing(history);
      }
    }
  }
}
