/**
 SELECT over a stored table, end to end: split the clause, choose the scan, filter, join,
 filter again. The rows are those of joining everything and filtering last.

 `ScanTable` builds the base of the pipeline over the heap or the index, `RunPipeline` runs the
 operators above it, and `ExecuteQuery` puts both together. That the result is right is
 `PlanEquivalence`; here it is applied to what the table really stores: rows with one value per
 column, of its type, and an integer key in front.
 */
module Query {
  import opened Storage
  import opened Sequences
  import opened Predicate
  import opened Joins
  import opened Pipeline
  import opened Plan
  import opened Heap
  import opened Scans
  import opened BTree
  import opened Table
  import TupleCodec

  lemma {:induction false} SelectEverything(schema: Schema, rows: seq<Row>)
    requires RowsOf(rows, schema)
    ensures Select([], schema, rows) == rows
  {
    if rows != [] {
      assert rows[0] in rows && forall r :: r in rows[1..] ==> r in rows;
      SelectEverything(schema, rows[1..]);
      assert rows == [rows[0]] + rows[1..];
    }
  }

  lemma {:induction false} SelectKeepsRows(conds: seq<Condition>, schema: Schema, rows: seq<Row>)
    requires RowsOf(rows, schema)
    ensures RowsOf(Select(conds, schema, rows), schema)
  {
    if rows != [] {
      assert rows[0] in rows && forall r :: r in rows[1..] ==> r in rows;
      SelectKeepsRows(conds, schema, rows[1..]);
    }
  }

  lemma {:induction false} JoinAllTyped(rows: seq<Row>, schema: Schema, joins: seq<JoinClause>)
    requires RowsOf(rows, schema) && JoinsTyped(joins)
    ensures var out := JoinAll(rows, schema, joins);
            out.Ok? ==> RowsOf(out.value, FullSchema(schema, joins))
    decreases |joins|
  {
    if joins != [] {
      var j := joins[0];
      assert j in joins && forall k :: k in joins[1..] ==> k in joins;
      JoinTyped(rows, schema, j);
      var next := JoinRows(rows, schema, j);
      if next.Ok? {
        JoinAllTyped(next.value, schema + j.schema, joins[1..]);
      }
    }
  }

  /** The rows of an agreeing table have one value per column and an integer key in front. */
  lemma {:induction false} StoredRows(t: TableDef, pages: Pages, contents: map<int, Ctid>)
    requires Agrees(t, pages, contents)
    ensures RowsOf(ScanRows(t, pages), t.schema) && KeyedRows(ScanRows(t, pages), t.schema)
  {
    forall r | r in ScanRows(t, pages) ensures TupleCodec.Typed(t.schema, r) && Keyed(r) {
      ScanRowsFrom(t, pages, r);
      var p: nat, s: nat :| RowIsAt(t, pages, p, s, r);
      KeyOfIsFirst(t, pages[p][s].payload);
      TupleCodec.DecodeIsTyped(t.utf8, pages[p][s].payload, t.schema);
      assert Indexed(t, pages, contents, p, s);
    }
  }

  /** A row of a permuted selection is a row of the table. */
  lemma {:induction false} ScannedTyped(scan: seq<Row>, rows: seq<Row>, schema: Schema, base: seq<Condition>,
      indexed: bool)
    requires ScanOf(scan, rows, base, indexed) && RowsOf(rows, schema)
    ensures RowsOf(scan, schema)
  {
    if indexed && BoundsOf(base).Some? {
      forall r | r in scan ensures |r| == |schema| {
        assert r in multiset(scan);
        RestrictHolds(rows, BoundsOf(base).value, r);
      }
    }
  }

  /** build_base_pipeline: an index scan when the pushed clause bounds the key, otherwise the whole heap. */
  method ScanTable(table: Table, base: seq<Condition>) returns (scan: seq<Row>)
    requires table.Stored()
    modifies table.index
    ensures table.Stored() && table.index.root == old(table.index.root)
    ensures ScanOf(scan, ScanRows(table.t, table.pages), base, old(table.index.root).Some?)
    ensures old(table.index.root).None? || BoundsOf(base).None? ==> IsScan(table.t, table.pages, scan)
  {
    hide Agrees, TableMap, PagesFit, BTreeIndex.Valid, Restrict, ScanRows, IsScan, RowsAt, DataAt, ResolvesAt,
         StrictlySorted, Decoded, ScanData;
    var indexed := table.index.root.Some?;
    var bounds := if indexed then BoundsOf(base) else None;
    if bounds.Some? {
      var (a, b) := bounds.value;
      var ctids, keys := table.index.RangeSearch(a, b);
      RangeHolds(table.index.contents, (a, b), keys, ctids);
      RangeAllResolve(table.t, table.pages, table.index.contents, (a, b), keys, ctids);
      var exec := new IndexScan(table.t, table.pages, ctids);
      var data := exec.Drain();
      DataIsRows(table.t, table.pages, ctids, data.value);
      scan := DecodeRows(table.t, data.value);
      IndexScanIsRestrict(table.t, table.pages, table.index.contents, (a, b), keys, ctids, scan);
    } else {
      var exec := new SeqScan(table.pages);
      var data := exec.Drain();
      ScanDecodes(table.t, table.pages);
      scan := DecodeRows(table.t, data);
      ScanIff(table.t, table.pages, scan);
    }
  }

  lemma {:induction false} RangeHolds(contents: map<int, Ctid>, bounds: (Key, Key), keys: seq<int>, ctids: seq<Ctid>)
    requires StrictlySorted(keys) && |keys| == |ctids|
    requires forall k :: k in keys <==> k in contents && bounds.0 <= k <= bounds.1
    requires forall i :: 0 <= i < |keys| ==> keys[i] in contents && ctids[i] == contents[keys[i]]
    ensures RangeAnswer(contents, bounds, keys, ctids)
  {
  }

  lemma {:induction false} RangeAllResolve(t: TableDef, pages: Pages, contents: map<int, Ctid>, bounds: (Key, Key),
                                           keys: seq<int>, ctids: seq<Ctid>)
    requires Agrees(t, pages, contents) && RangeAnswer(contents, bounds, keys, ctids)
    ensures forall i {:trigger ctids[i]} :: 0 <= i < |ctids| ==>
              NamesLive(t, pages, ctids[i]) && ResolvesAt(t, pages, ctids[i])
  {
    forall i {:trigger ctids[i]} | 0 <= i < |ctids| ensures ResolvesAt(t, pages, ctids[i]) {
      RangeResolves(t, pages, contents, bounds, keys, ctids, i);
    }
  }

  /** The pipeline above the scan. */
  method RunPipeline(scan: seq<Row>, schema: Schema, joins: seq<JoinClause>, conds: seq<Condition>,
                     base: seq<Condition>, remaining: seq<Condition>) returns (r: Result<seq<Row>, QueryError>)
    requires RowsOf(scan, schema) && JoinsTyped(joins) && Split(base, remaining) == SplitOf(conds, schema)
    ensures r == PlanRows(scan, schema, joins, conds)
  {
    hide Select, JoinAll, PullAll, FullSchema, SplitOf;
    var rows := scan;
    SelectEverything(schema, scan);
    SelectKeepsRows(base, schema, scan);
    if base != [] {
      rows := RunFilter(base, schema, scan);
    }
    JoinAllTyped(rows, schema, joins);
    PullIsJoinAll(rows, schema, joins);
    var joined := RunJoins(rows, schema, joins);
    if joined.Err? {
      return Err(joined.error);
    }
    var full := FullSchema(schema, joins);
    SelectEverything(full, joined.value);
    rows := joined.value;
    if remaining != [] {
      rows := RunFilter(remaining, full, joined.value);
    }
    return Ok(rows);
  }

  /**
   SELECT runs the plan over the rows its scan finds. Whenever joining whole tables succeeds and
   no index is read that may not be, it returns the same multiset of rows, and the same sequence
   when the heap is scanned; or no rows at all where the split loses them.
   */
  method ExecuteQuery(table: Table, joins: seq<JoinClause>, conds: seq<Condition>)
      returns (r: Result<seq<Row>, QueryError>, ghost scan: seq<Row>)
    requires table.Stored() && JoinsTyped(joins)
    modifies table.index
    ensures table.Stored()
    ensures ScanOf(scan, ScanRows(table.t, table.pages), SplitOf(conds, table.t.schema).base, table.index.root.Some?)
    ensures r == PlanRows(scan, table.t.schema, joins, conds)
    ensures forall out :: PlanAnswer(scan, table.t.schema, joins, conds, out) <==> r == Ok(out)
    ensures var reference := ReferenceRows(ScanRows(table.t, table.pages), table.t.schema, joins, conds);
            var indexed := table.index.root.Some? && BoundsOf(SplitOf(conds, table.t.schema).base).Some?;
            var lost := LosesRows(conds, table.t.schema, FullSchema(table.t.schema, joins));
            reference.Ok? && (indexed ==> IndexReadable(table.t.schema)) ==>
              && r.Ok? && (lost ==> r.value == [])
              && (!lost ==>
                    && multiset(r.value) == multiset(reference.value)
                    && (!indexed ==> r == reference))
    ensures var indexed := table.index.root.Some? && BoundsOf(SplitOf(conds, table.t.schema).base).Some?;
            (indexed ==> IndexReadable(table.t.schema)) ==>
              forall answer :: Answer(ScanRows(table.t, table.pages), table.t.schema, joins, conds, answer) ==>
                if LosesRows(conds, table.t.schema, FullSchema(table.t.schema, joins)) then r == Ok([])
                else r.Ok? && multiset(r.value) == multiset(answer) && (!indexed ==> r.value == answer)
  {
    hide Agrees, TableMap, PagesFit, BTreeIndex.Valid, ScanRows, SplitOf, ReferenceRows, PlanRows, FullSchema,
         ScanOf, IndexReadable, KeyedRows, RowsOf, LosesRows, Answer, PlanAnswer;
    var schema := table.t.schema;
    ghost var rows := ScanRows(table.t, table.pages);
    StoredRows(table.t, table.pages, table.index.contents);
    var base, remaining := SplitWhere(conds, schema);
    var found := ScanTable(table, base);
    scan := found;
    ScannedTyped(scan, rows, schema, base, table.index.root.Some?);
    r := RunPipeline(found, schema, joins, conds, base, remaining);
    var indexed := table.index.root.Some? && BoundsOf(SplitOf(conds, schema).base).Some?;
    if ReferenceRows(rows, schema, joins, conds).Ok? && (indexed ==> IndexReadable(schema)) {
      PlanEquivalence(scan, rows, schema, joins, conds, table.index.root.Some?);
    }
    forall out ensures PlanAnswer(scan, schema, joins, conds, out) <==> r == Ok(out) {
      PlanIff(scan, schema, joins, conds, out);
    }
    forall answer | Answer(rows, schema, joins, conds, answer)
      ensures ReferenceRows(rows, schema, joins, conds) == Ok(answer)
    {
      AnswerIff(rows, schema, joins, conds, answer);
    }
  }
}
