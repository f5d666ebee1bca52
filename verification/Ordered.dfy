/**
 SELECT with ORDER BY: the rows of the plan as tuples, sorted externally by one column and read
 back. Rows, order and ties are those of the one stable sort of the plan's rows.

 The sort works on bytes and a key function, the query on rows. `Holds` relates the two, and the
 first half of this module carries permutation, order and ties over from tuples to rows.

 Rows survive as tuples when they have the types of their schema, no NULL where none is allowed,
 and at most 65535 bytes; the types follow from those of the joined tables.
 */
module Ordered {
  import opened Storage
  import opened Bytes
  import opened Values
  import opened Predicate
  import opened Joins
  import opened Pipeline
  import opened Plan
  import opened StableSort
  import opened RunMerge
  import opened ExternalSort
  import opened Table
  import opened Heap
  import opened Query
  import opened BTree
  import Scans
  import TupleCodec

  // ----- Rows and their tuples

  /** The tuples decode to the rows, one by one. */
  ghost predicate Holds(utf8: TupleCodec.Utf8, schema: Schema, data: seq<Buffer>, rows: seq<Row>) {
    |data| == |rows| && forall i {:trigger data[i]} :: 0 <= i < |data| ==>
                          TupleCodec.Decode(utf8, data[i], schema) == Ok(rows[i])
  }

  /** The sort column of a tuple. */
  function KeyAt(utf8: TupleCodec.Utf8, schema: Schema, c: nat): KeyOf {
    b => match TupleCodec.Decode(utf8, b, schema)
         case Ok(row) => if c < |row| then Some(row[c]) else None
         case Err(_) => None
  }

  predicate RowLess(c: nat, a: Row, b: Row) {
    c < |a| && c < |b| && ValueLess(a[c], b[c])
  }

  predicate RowTied(c: nat, a: Row, b: Row) {
    !RowLess(c, a, b) && !RowLess(c, b, a)
  }

  /** The rows that tie with x, in order. */
  function RowsTiedWith(c: nat, x: Row, rows: seq<Row>): seq<Row> {
    if rows == [] then []
    else if RowTied(c, x, rows[0]) then [rows[0]] + RowsTiedWith(c, x, rows[1..])
    else RowsTiedWith(c, x, rows[1..])
  }

  /** out is the rows sorted by column c, and rows that tie keep their order. */
  ghost predicate IsRowSort(c: nat, rows: seq<Row>, out: seq<Row>) {
    && (forall i, j :: 0 <= i < j < |out| ==> !RowLess(c, out[j], out[i]))
    && multiset(out) == multiset(rows)
    && forall x {:trigger RowsTiedWith(c, x, out)} :: x in rows ==> RowsTiedWith(c, x, out) == RowsTiedWith(c, x, rows)
  }

  /** The values of column c ascend: integers by size, false before true, strings by their first difference. */
  ghost predicate RowsAscend(c: nat, rows: seq<Row>) {
    forall i, j :: 0 <= i < j < |rows| && c < |rows[i]| && c < |rows[j]| ==> InOrder(rows[i][c], rows[j][c])
  }

  /** No row is less than one before it exactly when the values ascend. */
  lemma {:induction false} NoneLessIsAscending(c: nat, rows: seq<Row>)
    ensures (forall i, j :: 0 <= i < j < |rows| ==> !RowLess(c, rows[j], rows[i])) <==> RowsAscend(c, rows)
  {
    hide ValueLess, InOrder;
    forall i, j | 0 <= i < j < |rows| && c < |rows[i]| && c < |rows[j]|
      ensures RowLess(c, rows[j], rows[i]) <==> !InOrder(rows[i][c], rows[j][c])
    {
      ValueLessIff(rows[i][c], rows[j][c]);
    }
  }

  /** Column c orders the rows: it holds no NULL, or no two of its values differ. */
  ghost predicate Orderable(c: nat, rows: seq<Row>) {
    || (forall r :: r in rows ==> c < |r| && r[c] != Null)
    || (forall a, b :: a in rows && b in rows ==> !RowLess(c, a, b))
  }

  lemma {:induction false} TupleLess(utf8: TupleCodec.Utf8, schema: Schema, c: nat, a: Buffer, b: Buffer,
                                     x: Row, y: Row)
    requires TupleCodec.Decode(utf8, a, schema) == Ok(x) && TupleCodec.Decode(utf8, b, schema) == Ok(y)
    ensures Less(KeyAt(utf8, schema, c), a, b) <==> RowLess(c, x, y)
  {
    hide TupleCodec.Decode;
  }

  /** The row of a tuple. */
  lemma {:induction false} RowOfTuple(utf8: TupleCodec.Utf8, schema: Schema, data: seq<Buffer>, rows: seq<Row>,
                                      b: Buffer)
      returns (x: Row)
    requires Holds(utf8, schema, data, rows) && b in data
    ensures x in rows && TupleCodec.Decode(utf8, b, schema) == Ok(x)
  {
    hide TupleCodec.Decode;
    var i :| 0 <= i < |data| && data[i] == b;
    x := rows[i];
  }

  /** Two values of one column that are not NULL have one type. */
  lemma {:induction false} OneColumnType(schema: Schema, c: nat, x: Row, y: Row)
    requires c < |schema| && TupleCodec.Typed(schema, x) && TupleCodec.Typed(schema, y)
    requires x[c] != Null && y[c] != Null
    ensures SameType(x[c], y[c])
  {
    assert TupleCodec.TypeMatches(schema[c], x[c]) && TupleCodec.TypeMatches(schema[c], y[c]);
  }

  /** A comparison of rows that is an order is one on their tuples. */
  lemma {:induction false} OrderableIsConsistent(utf8: TupleCodec.Utf8, schema: Schema, c: nat, data: seq<Buffer>,
                                                 rows: seq<Row>)
    requires Holds(utf8, schema, data, rows) && Orderable(c, rows)
    requires c < |schema| && forall r :: r in rows ==> TupleCodec.Typed(schema, r)
    ensures Consistent(KeyAt(utf8, schema, c), data)
  {
    hide TupleCodec.Decode, TupleCodec.Typed, Consistent, SameType, Less, RowLess, Holds;
    var key := KeyAt(utf8, schema, c);
    if forall r :: r in rows ==> c < |r| && r[c] != Null {
      forall a, b | a in data && b in data
        ensures key(a).Some? && key(b).Some? && SameType(key(a).value, key(b).value)
      {
        var x := RowOfTuple(utf8, schema, data, rows, a);
        var y := RowOfTuple(utf8, schema, data, rows, b);
        OneColumnType(schema, c, x, y);
      }
    } else {
      forall a, b | a in data && b in data ensures !Less(key, a, b) {
        var x := RowOfTuple(utf8, schema, data, rows, a);
        var y := RowOfTuple(utf8, schema, data, rows, b);
        TupleLess(utf8, schema, c, a, b, x, y);
      }
    }
    ConsistentIff(key, data);
  }

  lemma {:induction false} HoldsTail(utf8: TupleCodec.Utf8, schema: Schema, data: seq<Buffer>, rows: seq<Row>)
    requires Holds(utf8, schema, data, rows) && data != []
    ensures Holds(utf8, schema, data[1..], rows[1..]) && TupleCodec.Decode(utf8, data[0], schema) == Ok(rows[0])
  {
    assert forall i :: 0 <= i < |data| - 1 ==> data[1..][i] == data[i + 1] && rows[1..][i] == rows[i + 1];
  }

  /** Tuples that tie are the tuples of rows that tie. */
  lemma {:induction false} TiedHolds(utf8: TupleCodec.Utf8, schema: Schema, c: nat, data: seq<Buffer>, rows: seq<Row>,
                                     b: Buffer, x: Row)
    requires Holds(utf8, schema, data, rows) && TupleCodec.Decode(utf8, b, schema) == Ok(x)
    ensures Holds(utf8, schema, TiedWith(KeyAt(utf8, schema, c), b, data), RowsTiedWith(c, x, rows))
  {
    hide TupleCodec.Decode, KeyAt, Less, RowLess;
    if data != [] {
      HoldsTail(utf8, schema, data, rows);
      TiedHolds(utf8, schema, c, data[1..], rows[1..], b, x);
      TupleLess(utf8, schema, c, b, data[0], x, rows[0]);
      TupleLess(utf8, schema, c, data[0], b, rows[0], x);
    }
  }

  lemma {:induction false} HoldsUnique(utf8: TupleCodec.Utf8, schema: Schema, data: seq<Buffer>,
                                       a: seq<Row>, b: seq<Row>)
    requires Holds(utf8, schema, data, a) && Holds(utf8, schema, data, b)
    ensures a == b
  {
    hide TupleCodec.Decode;
    forall i | 0 <= i < |a| ensures a[i] == b[i] {
      assert data[i] == data[i];
    }
  }

  lemma {:induction false} WithoutOne<T>(s: seq<T>, i: nat)
    requires i < |s|
    ensures multiset(s) == multiset{s[i]} + multiset(s[..i] + s[i + 1..])
    ensures multiset(s[..i] + s[i + 1..]) == multiset(s) - multiset{s[i]}
  {
    assert s == s[..i] + ([s[i]] + s[i + 1..]);
  }

  /** A permutation without the first element, wherever it went. */
  lemma {:induction false} Peel<T>(a: seq<T>, b: seq<T>) returns (i: nat)
    requires multiset(a) == multiset(b) && a != []
    ensures i < |b| && b[i] == a[0] && multiset(a[1..]) == multiset(b[..i] + b[i + 1..])
  {
    i := PositionOf(a, b);
    WithoutOne(b, i);
    var rest := a[1..];
    assert rest == a[..0] + a[1..];
    WithoutOne(a, 0);
  }

  lemma {:induction false} PositionOf<T>(a: seq<T>, b: seq<T>) returns (i: nat)
    requires multiset(a) == multiset(b) && a != []
    ensures i < |b| && b[i] == a[0]
  {
    assert a[0] in multiset(b);
    i :| i < |b| && b[i] == a[0];
  }

  lemma {:induction false} Unpeel<T>(a: seq<T>, b: seq<T>, i: nat)
    requires a != [] && i < |b| && b[i] == a[0] && multiset(a[1..]) == multiset(b[..i] + b[i + 1..])
    ensures multiset(a) == multiset(b)
  {
    WithoutOne(a, 0);
    WithoutOne(b, i);
    assert a[..0] + a[1..] == a[1..];
  }

  lemma {:induction false} HoldsWithout(utf8: TupleCodec.Utf8, schema: Schema, data: seq<Buffer>, rows: seq<Row>,
                                        i: nat)
    requires Holds(utf8, schema, data, rows) && i < |data|
    ensures Holds(utf8, schema, data[..i] + data[i + 1..], rows[..i] + rows[i + 1..])
    ensures TupleCodec.Decode(utf8, data[i], schema) == Ok(rows[i])
  {
    hide TupleCodec.Decode;
  }

  /** The rows of permuted tuples are permuted. */
  lemma {:induction false} HoldsPermuted(utf8: TupleCodec.Utf8, schema: Schema, data: seq<Buffer>, rows: seq<Row>,
                                         out: seq<Buffer>, outRows: seq<Row>)
    requires Holds(utf8, schema, data, rows) && Holds(utf8, schema, out, outRows) && multiset(data) == multiset(out)
    ensures multiset(rows) == multiset(outRows)
    decreases |data|
  {
    hide TupleCodec.Decode, Holds;
    HoldsLength(utf8, schema, data, rows);
    HoldsLength(utf8, schema, out, outRows);
    assert |multiset(data)| == |data| && |multiset(out)| == |out|;
    if data != [] {
      var i := Peel(data, out);
      HoldsTail(utf8, schema, data, rows);
      HoldsWithout(utf8, schema, out, outRows, i);
      HoldsPermuted(utf8, schema, data[1..], rows[1..], out[..i] + out[i + 1..], outRows[..i] + outRows[i + 1..]);
      Unpeel(rows, outRows, i);
    }
  }

  lemma {:induction false} HoldsLength(utf8: TupleCodec.Utf8, schema: Schema, data: seq<Buffer>, rows: seq<Row>)
    requires Holds(utf8, schema, data, rows)
    ensures |data| == |rows|
  {
  }

  /** Sorting the tuples sorts the rows. */
  lemma {:induction false} SortsRows(utf8: TupleCodec.Utf8, schema: Schema, c: nat, data: seq<Buffer>, rows: seq<Row>,
                                     out: seq<Buffer>, outRows: seq<Row>)
    requires Holds(utf8, schema, data, rows) && Holds(utf8, schema, out, outRows)
    requires IsStableSort(KeyAt(utf8, schema, c), data, out)
    ensures IsRowSort(c, rows, outRows)
  {
    hide TupleCodec.Decode, KeyAt, RowLess, Less, TiedWith, RowsTiedWith;
    var key := KeyAt(utf8, schema, c);
    forall i, j | 0 <= i < j < |out| ensures !RowLess(c, outRows[j], outRows[i]) {
      TupleLess(utf8, schema, c, out[j], out[i], outRows[j], outRows[i]);
    }
    HoldsPermuted(utf8, schema, data, rows, out, outRows);
    forall x {:trigger RowsTiedWith(c, x, outRows)} | x in rows
      ensures RowsTiedWith(c, x, outRows) == RowsTiedWith(c, x, rows)
    {
      var i :| 0 <= i < |rows| && rows[i] == x;
      var b := data[i];
      TiedHolds(utf8, schema, c, data, rows, b, x);
      TiedHolds(utf8, schema, c, out, outRows, b, x);
      HoldsUnique(utf8, schema, TiedWith(key, b, data), RowsTiedWith(c, x, rows), RowsTiedWith(c, x, outRows));
    }
  }

  lemma {:induction false} DecodesToo(utf8: TupleCodec.Utf8, schema: Schema, data: seq<Buffer>, rows: seq<Row>,
                                      out: seq<Buffer>)
    requires Holds(utf8, schema, data, rows) && multiset(data) == multiset(out)
    ensures forall i :: 0 <= i < |out| ==> TupleCodec.Decode(utf8, out[i], schema).Ok?
  {
    hide TupleCodec.Decode;
    forall i | 0 <= i < |out| ensures TupleCodec.Decode(utf8, out[i], schema).Ok? {
      assert out[i] in multiset(data);
      var j :| 0 <= j < |data| && data[j] == out[i];
    }
  }

  /** Whatever the comparison, the sort hands out every tuple once. */
  lemma {:induction false} PlannedPermutes(key: KeyOf, length: nat, input: seq<Buffer>, output: seq<Buffer>)
    requires Planned(key, length, input, output)
    ensures multiset(output) == multiset(input)
  {
    var chunks: Runs :|
      Flatten(chunks) == input && EvenCut(chunks, length) && output == MergeRuns(key, SortEach(key, chunks));
    SortEachPermutes(key, chunks);
    MergePermutes(key, SortEach(key, chunks));
  }

  // ----- Every row of a plan has the types of its schema

  ghost predicate AllTyped(rows: seq<Row>, schema: Schema) {
    forall r :: r in rows ==> TupleCodec.Typed(schema, r)
  }

  ghost predicate JoinedTyped(joins: seq<JoinClause>) {
    forall j :: j in joins ==> AllTyped(j.rows, j.schema)
  }

  lemma {:induction false} TypedConcat(a: Schema, b: Schema, x: Row, y: Row)
    requires TupleCodec.Typed(a, x) && TupleCodec.Typed(b, y)
    ensures TupleCodec.Typed(a + b, x + y)
  {
    forall i | 0 <= i < |a + b| ensures TupleCodec.TypeMatches((a + b)[i], (x + y)[i]) {
      if i < |a| {
        assert TupleCodec.TypeMatches(a[i], x[i]);
      } else {
        assert TupleCodec.TypeMatches(b[i - |a|], y[i - |a|]);
      }
    }
  }

  lemma {:induction false} JoinRowsTyped(rows: seq<Row>, schema: Schema, j: JoinClause)
    requires AllTyped(rows, schema) && AllTyped(j.rows, j.schema)
    ensures var out := JoinRows(rows, schema, j);
            out.Ok? ==> AllTyped(out.value, schema + j.schema)
  {
    hide TupleCodec.Typed;
    var out := JoinRows(rows, schema, j);
    var li, ri := ColumnIndex(schema, j.leftCol), ColumnIndex(j.schema, j.rightCol);
    if out.Ok? && li.Some? && ri.Some? {
      forall row | row in out.value ensures TupleCodec.Typed(schema + j.schema, row) {
        JoinHolds(rows, j.rows, li.value, ri.value, MatchFor(j), row);
        var l, r :| l in rows && r in j.rows && row == l + r;
        TypedConcat(schema, j.schema, l, r);
      }
    }
  }

  lemma {:induction false} JoinAllTyped(rows: seq<Row>, schema: Schema, joins: seq<JoinClause>)
    requires AllTyped(rows, schema) && JoinedTyped(joins)
    ensures var out := JoinAll(rows, schema, joins);
            out.Ok? ==> AllTyped(out.value, FullSchema(schema, joins))
    decreases |joins|
  {
    hide AllTyped;
    if joins != [] {
      var j := joins[0];
      assert j in joins && forall k :: k in joins[1..] ==> k in joins;
      JoinRowsTyped(rows, schema, j);
      var next := JoinRows(rows, schema, j);
      if next.Ok? {
        JoinAllTyped(next.value, schema + j.schema, joins[1..]);
      }
    }
  }

  lemma {:induction false} SelectTyped(conds: seq<Condition>, over: Schema, schema: Schema, rows: seq<Row>)
    requires AllTyped(rows, schema)
    ensures AllTyped(Select(conds, over, rows), schema)
  {
    if rows != [] {
      assert rows[0] in rows && forall r :: r in rows[1..] ==> r in rows;
      SelectTyped(conds, over, schema, rows[1..]);
    }
  }

  lemma {:induction false} PlanTyped(scan: seq<Row>, schema: Schema, joins: seq<JoinClause>, conds: seq<Condition>)
    requires AllTyped(scan, schema) && JoinedTyped(joins)
    ensures var plan := PlanRows(scan, schema, joins, conds);
            plan.Ok? ==> AllTyped(plan.value, FullSchema(schema, joins))
  {
    hide AllTyped, Select, JoinAll, PullAll, FullSchema, SplitOf;
    var s, full := SplitOf(conds, schema), FullSchema(schema, joins);
    var filtered := Select(s.base, schema, scan);
    SelectTyped(s.base, schema, schema, scan);
    PullIsJoinAll(filtered, schema, joins);
    JoinAllTyped(filtered, schema, joins);
    var joined := JoinAll(filtered, schema, joins);
    if joined.Ok? {
      SelectTyped(s.remaining, full, full, joined.value);
    }
  }

  /** A scan finds rows of the table only. */
  lemma {:induction false} ScanTyped(scan: seq<Row>, rows: seq<Row>, schema: Schema, base: seq<Condition>,
                                     indexed: bool)
    requires ScanOf(scan, rows, base, indexed) && AllTyped(rows, schema)
    ensures AllTyped(scan, schema)
  {
    hide TupleCodec.Typed;
    if indexed && BoundsOf(base).Some? {
      forall r | r in scan ensures TupleCodec.Typed(schema, r) {
        assert r in multiset(scan);
        Scans.RestrictHolds(rows, BoundsOf(base).value, r);
      }
    }
  }

  // ----- The executors

  datatype OrderError = Failed(error: QueryError) | BadTuple(cause: TupleCodec.TupleError) | TooLong

  /** The row can be written as a tuple and read back. */
  ghost predicate Survives(utf8: TupleCodec.Utf8, schema: Schema, row: Row) {
    && TupleCodec.Typed(schema, row) && TupleCodec.NullsAllowed(schema, row, |schema|)
    && |TupleCodec.Encode(utf8, schema, row)| < U16_END
  }

  ghost predicate AllSurvive(utf8: TupleCodec.Utf8, schema: Schema, rows: seq<Row>) {
    forall r :: r in rows ==> Survives(utf8, schema, r)
  }

  method Tuples(utf8: TupleCodec.Utf8, schema: Schema, rows: seq<Row>) returns (r: Result<seq<Buffer>, OrderError>)
    requires TupleCodec.Lossless(utf8) && AllTyped(rows, schema)
    ensures r.Ok? ==> Storable(r.value)
    ensures AllSurvive(utf8, schema, rows) ==> r.Ok? && Holds(utf8, schema, r.value, rows)
  {
    hide TupleCodec.Typed, TupleCodec.Encode, TupleCodec.Decode, TupleCodec.NullsAllowed, TupleCodec.Lossless;
    var data: seq<Buffer> := [];
    for i := 0 to |rows|
      invariant Storable(data)
      invariant AllSurvive(utf8, schema, rows) ==> Holds(utf8, schema, data, rows[..i])
    {
      assert rows[i] in rows;
      TypedRow(utf8, schema, rows[i]);
      var tuple := TupleCodec.FromValues(utf8, schema, rows[i]);
      if tuple.Err? {
        return Err(BadTuple(tuple.error));
      }
      if |tuple.value| > U32_MAX {
        return Err(TooLong);
      }
      assert rows[..i + 1] == rows[..i] + [rows[i]];
      data := data + [tuple.value];
    }
    assert rows[..|rows|] == rows;
    return Ok(data);
  }

  lemma {:induction false} TypedRow(utf8: TupleCodec.Utf8, schema: Schema, row: Row)
    requires TupleCodec.Typed(schema, row) && TupleCodec.Lossless(utf8)
    ensures |schema| == |row| && TupleCodec.AllRanged(row)
    ensures Survives(utf8, schema, row) ==>
              TupleCodec.Decode(utf8, TupleCodec.Encode(utf8, schema, row), schema) == Ok(row)
  {
    hide TupleCodec.Encode, TupleCodec.Decode;
    TupleCodec.TypedIsRanged(schema, row);
    if Survives(utf8, schema, row) {
      TupleCodec.SmallTuplesRoundTrip(utf8, schema, row);
    }
  }

  method Rows(utf8: TupleCodec.Utf8, schema: Schema, data: seq<Buffer>) returns (r: Result<seq<Row>, OrderError>)
    ensures (forall i :: 0 <= i < |data| ==> TupleCodec.Decode(utf8, data[i], schema).Ok?) ==>
              r.Ok? && Holds(utf8, schema, data, r.value)
  {
    hide TupleCodec.Decode;
    var rows: seq<Row> := [];
    for i := 0 to |data|
      invariant Holds(utf8, schema, data[..i], rows)
    {
      var row := TupleCodec.ToValues(utf8, data[i], schema);
      if row.Err? {
        return Err(BadTuple(row.error));
      }
      assert data[..i + 1] == data[..i] + [data[i]];
      rows := rows + [row.value];
    }
    assert data[..|data|] == data;
    return Ok(rows);
  }

  /** The sort pipeline over rows: their tuples are sorted by column c and read back. */
  method OrderRows(utf8: TupleCodec.Utf8, schema: Schema, rows: seq<Row>, c: nat, chunkSize: nat)
      returns (r: Result<seq<Row>, OrderError>)
    requires TupleCodec.Lossless(utf8) && AllTyped(rows, schema) && c < |schema|
    ensures AllSurvive(utf8, schema, rows) ==> r.Ok? && multiset(r.value) == multiset(rows)
    ensures AllSurvive(utf8, schema, rows) && Orderable(c, rows) ==>
              IsRowSort(c, rows, r.value) && RowsAscend(c, r.value)
  {
    hide TupleCodec.Lossless, Holds, AllSurvive, Planned, Consistent, IsStableSort, IsRowSort, RowsAscend, Orderable,
         Storable, TupleCodec.Typed, TupleCodec.Decode, KeyAt;
    var data := Tuples(utf8, schema, rows);
    if data.Err? {
      return Err(data.error);
    }
    var key := KeyAt(utf8, schema, c);
    var exec := new ExternalMergeSort(data.value, key, chunkSize);
    var out := exec.Drain();
    PlannedPermutes(key, ChunkLength(chunkSize), data.value, out);
    if AllSurvive(utf8, schema, rows) {
      DecodesToo(utf8, schema, data.value, rows, out);
    }
    r := Rows(utf8, schema, out);
    if AllSurvive(utf8, schema, rows) {
      HoldsPermuted(utf8, schema, data.value, rows, out, r.value);
      if Orderable(c, rows) {
        OrderableIsConsistent(utf8, schema, c, data.value, rows);
        SortsRows(utf8, schema, c, data.value, rows, out, r.value);
        SortAscends(c, rows, r.value);
      }
    }
  }

  lemma {:induction false} SortAscends(c: nat, rows: seq<Row>, out: seq<Row>)
    requires IsRowSort(c, rows, out)
    ensures RowsAscend(c, out)
  {
    hide RowLess, RowsAscend;
    NoneLessIsAscending(c, out);
  }

  /** What carries over to a permutation of the rows. */
  lemma {:induction false} SameRows(utf8: TupleCodec.Utf8, schema: Schema, c: nat, a: seq<Row>, b: seq<Row>)
    requires multiset(a) == multiset(b)
    ensures AllSurvive(utf8, schema, a) ==> AllSurvive(utf8, schema, b)
    ensures Orderable(c, a) ==> Orderable(c, b)
  {
    hide Survives, RowLess;
    forall r | r in b ensures r in a {
      assert r in multiset(b);
    }
  }

  /**
   SELECT with ORDER BY, end to end over a stored table. The output is the one stable sort of the
   plan's rows, whatever the chunk size, when column c orders them; so whenever the plan is right
   it holds the rows of joining everything and filtering last, sorted.
   */
  method ExecuteOrdered(table: Table, joins: seq<JoinClause>, conds: seq<Condition>, col: string, chunkSize: nat)
      returns (r: Result<seq<Row>, OrderError>, ghost plan: Result<seq<Row>, QueryError>)
    requires table.Stored() && JoinsTyped(joins) && JoinedTyped(joins)
    modifies table.index
    ensures table.Stored()
    ensures ColumnIndex(FullSchema(table.t.schema, joins), col).None? ==> r == Err(Failed(ColumnNotFound(col)))
    ensures var full := FullSchema(table.t.schema, joins);
            ColumnIndex(full, col).Some? ==>
              var c := ColumnIndex(full, col).value;
              && (plan.Err? ==> r == Err(Failed(plan.error)))
              && (plan.Ok? && AllSurvive(table.t.utf8, full, plan.value) ==>
                    && r.Ok? && multiset(r.value) == multiset(plan.value)
                    && (Orderable(c, plan.value) ==> IsRowSort(c, plan.value, r.value) && RowsAscend(c, r.value)))
    ensures var schema, full := table.t.schema, FullSchema(table.t.schema, joins);
            var reference := ReferenceRows(ScanRows(table.t, table.pages), schema, joins, conds);
            var indexed := table.index.root.Some? && BoundsOf(SplitOf(conds, schema).base).Some?;
            ColumnIndex(full, col).Some? && reference.Ok? && (indexed ==> IndexReadable(schema)) ==>
              var c := ColumnIndex(full, col).value;
              if LosesRows(conds, schema, full) then r == Ok([])
              else AllSurvive(table.t.utf8, full, reference.value) && Orderable(c, reference.value) ==>
                     && r.Ok? && multiset(r.value) == multiset(reference.value)
                     && RowsAscend(c, r.value)
                     && (!indexed ==> IsRowSort(c, reference.value, r.value))
    ensures var schema, full := table.t.schema, FullSchema(table.t.schema, joins);
            var indexed := table.index.root.Some? && BoundsOf(SplitOf(conds, schema).base).Some?;
            ColumnIndex(full, col).Some? && (indexed ==> IndexReadable(schema)) ==>
              var c := ColumnIndex(full, col).value;
              forall answer :: Answer(ScanRows(table.t, table.pages), schema, joins, conds, answer) ==>
                if LosesRows(conds, schema, full) then r == Ok([])
                else AllSurvive(table.t.utf8, full, answer) && Orderable(c, answer) ==>
                       r.Ok? && multiset(r.value) == multiset(answer) && RowsAscend(c, r.value)
  {
    hide Agrees, TableMap, PagesFit, BTreeIndex.Valid, ScanRows, SplitOf, ReferenceRows, PlanRows, FullSchema, ScanOf,
         IndexReadable, LosesRows, AllSurvive, Orderable, RowsAscend, AllTyped, JoinedTyped, JoinsTyped,
         Answer;
    var schema, full := table.t.schema, FullSchema(table.t.schema, joins);
    ghost var rows := ScanRows(table.t, table.pages);
    StoredTyped(table.t, table.pages, table.index.contents);
    plan := Ok([]);
    var column := ColumnIndex(full, col);
    if column.None? {
      return Err(Failed(ColumnNotFound(col))), plan;
    }
    ghost var scan;
    var found;
    found, scan := ExecuteQuery(table, joins, conds);
    plan := found;
    if found.Err? {
      return Err(Failed(found.error)), plan;
    }
    ScanTyped(scan, rows, schema, SplitOf(conds, schema).base, table.index.root.Some?);
    PlanTyped(scan, schema, joins, conds);
    r := OrderRows(table.t.utf8, full, found.value, column.value, chunkSize);
    ghost var reference := ReferenceRows(rows, schema, joins, conds);
    if reference.Ok? && multiset(reference.value) == multiset(found.value) {
      SameRows(table.t.utf8, full, column.value, reference.value, found.value);
    }
    NothingToSort(table.t.utf8, full, if r.Ok? then r.value else []);
    forall answer | Answer(rows, schema, joins, conds, answer) ensures reference == Ok(answer) {
      AnswerIff(rows, schema, joins, conds, answer);
    }
  }

  lemma {:induction false} StoredTyped(t: TableDef, pages: Pages, contents: map<int, Ctid>)
    requires Agrees(t, pages, contents)
    ensures AllTyped(ScanRows(t, pages), t.schema)
  {
    hide Agrees, ScanRows, TupleCodec.Typed;
    StoredRows(t, pages, contents);
  }

  lemma {:induction false} NothingToSort(utf8: TupleCodec.Utf8, schema: Schema, out: seq<Row>)
    ensures AllSurvive(utf8, schema, []) && (multiset(out) == multiset([]) ==> out == [])
  {
    assert |multiset(out)| == |out|;
  }
}
