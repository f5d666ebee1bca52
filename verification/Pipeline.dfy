/**
 The operators of a query: the filter and the joins. Each is proved against a function over lists
 of rows, and that function against what the operator returns on the tables themselves: positions
 of rows, kept or paired, in ascending order.
 */
module Pipeline {
  import opened Storage
  import opened Predicate
  import opened Joins

  /** A joined table: its rows, the columns to equate, and the record count of the catalog. */
  datatype JoinClause = JoinClause(rows: seq<Row>, schema: Schema, leftCol: string, rightCol: string, records: int)

  const HASH_JOIN_LIMIT := 10000

  ghost predicate RowsOf(rows: seq<Row>, schema: Schema) {
    forall r :: r in rows ==> |r| == |schema|
  }

  ghost predicate JoinsTyped(joins: seq<JoinClause>) {
    forall j :: j in joins ==> RowsOf(j.rows, j.schema)
  }

  // ----- Filter

  predicate Accepts(conds: seq<Condition>, schema: Schema, row: Row) {
    |row| == |schema| && (conds == [] || Fold(conds, schema, row, false, true))
  }

  function Select(conds: seq<Condition>, schema: Schema, rows: seq<Row>): seq<Row> {
    if rows == [] then []
    else if Accepts(conds, schema, rows[0]) then [rows[0]] + Select(conds, schema, rows[1..])
    else Select(conds, schema, rows[1..])
  }

  lemma {:induction false} SelectNone(conds: seq<Condition>, schema: Schema)
    ensures Select(conds, schema, []) == []
  {
  }

  lemma {:induction false} SelectAppend(conds: seq<Condition>, schema: Schema, a: seq<Row>, b: seq<Row>)
    ensures Select(conds, schema, a + b) == Select(conds, schema, a) + Select(conds, schema, b)
  {
    if a == [] {
      assert a + b == b;
    } else {
      assert (a + b)[1..] == a[1..] + b;
      SelectAppend(conds, schema, a[1..], b);
    }
  }

  lemma {:induction false} SelectFirst(conds: seq<Condition>, schema: Schema, row: Row)
    ensures Select(conds, schema, [row]) == if Accepts(conds, schema, row) then [row] else []
  {
    var one := [row];
    assert one[1..] == [];
  }

  // What a filter returns, without the loop.

  /** The row has one value per column and meets a group of the conditions that count. */
  ghost predicate Accepted(conds: seq<Condition>, schema: Schema, row: Row) {
    |row| == |schema| && (conds == [] || SomeGroupMet(Counted(conds, schema), schema, row))
  }

  lemma {:induction false} AcceptsIff(conds: seq<Condition>, schema: Schema, row: Row)
    ensures Accepts(conds, schema, row) <==> Accepted(conds, schema, row)
  {
    hide Fold, SomeGroupMet, Counted;
    if |row| == |schema| {
      ClauseMeaning(conds, schema, row);
    }
  }

  /** The positions below n of rows that the clause accepts, or of those it does not, ascending. */
  ghost predicate PicksOf(picks: seq<nat>, conds: seq<Condition>, schema: Schema, rows: seq<Row>, n: nat, keep: bool)
    requires n <= |rows|
  {
    && (forall m {:trigger picks[m]} :: 0 <= m < |picks| ==>
          picks[m] < n && Accepted(conds, schema, rows[picks[m]]) == keep)
    && (forall m, m' :: 0 <= m < m' < |picks| ==> picks[m] < picks[m'])
    && (forall i: nat {:trigger rows[i]} :: i < n && Accepted(conds, schema, rows[i]) == keep ==> i in picks)
  }

  ghost predicate Takes(picks: seq<nat>, rows: seq<Row>, out: seq<Row>) {
    |out| == |picks| && forall m {:trigger picks[m]} :: 0 <= m < |picks| ==>
                          picks[m] < |rows| && out[m] == rows[picks[m]]
  }

  /** out holds exactly the rows that the clause accepts (or, without `keep`, those it does not), in their order. */
  ghost predicate IsFiltered(conds: seq<Condition>, schema: Schema, rows: seq<Row>, keep: bool, out: seq<Row>) {
    exists picks :: PicksOf(picks, conds, schema, rows, |rows|, keep) && Takes(picks, rows, out)
  }

  lemma {:induction false} NothingPicked(conds: seq<Condition>, schema: Schema, rows: seq<Row>, keep: bool)
    ensures PicksOf([], conds, schema, rows, 0, keep) && Takes([], rows, [])
  {
  }

  lemma {:induction false} PickNext(picks: seq<nat>, conds: seq<Condition>, schema: Schema, rows: seq<Row>, n: nat,
                                    keep: bool, out: seq<Row>)
    requires n < |rows| && PicksOf(picks, conds, schema, rows, n, keep) && Takes(picks, rows, out)
    requires Accepted(conds, schema, rows[n]) == keep
    ensures PicksOf(picks + [n], conds, schema, rows, n + 1, keep) && Takes(picks + [n], rows, out + [rows[n]])
  {
    hide Accepted;
  }

  lemma {:induction false} SkipNext(picks: seq<nat>, conds: seq<Condition>, schema: Schema, rows: seq<Row>, n: nat,
                                    keep: bool)
    requires n < |rows| && PicksOf(picks, conds, schema, rows, n, keep)
    requires Accepted(conds, schema, rows[n]) != keep
    ensures PicksOf(picks, conds, schema, rows, n + 1, keep)
  {
    hide Accepted;
  }

  lemma {:induction false} SelectPicks(conds: seq<Condition>, schema: Schema, rows: seq<Row>, n: nat)
      returns (picks: seq<nat>)
    requires n <= |rows|
    ensures PicksOf(picks, conds, schema, rows, n, true) && Takes(picks, rows, Select(conds, schema, rows[..n]))
  {
    hide Accepts, Accepted, PicksOf, Takes, Select;
    picks := [];
    NothingPicked(conds, schema, rows, true);
    SelectNone(conds, schema);
    if n > 0 {
      picks := SelectPicks(conds, schema, rows, n - 1);
      var kept, last := Select(conds, schema, rows[..n - 1]), rows[n - 1];
      assert rows[..n] == rows[..n - 1] + [last];
      SelectAppend(conds, schema, rows[..n - 1], [last]);
      SelectFirst(conds, schema, last);
      AcceptsIff(conds, schema, last);
      if Accepted(conds, schema, last) {
        PickNext(picks, conds, schema, rows, n - 1, true, kept);
        picks := picks + [n - 1];
      } else {
        SkipNext(picks, conds, schema, rows, n - 1, true);
        assert kept + [] == kept;
      }
    }
  }

  lemma {:induction false} AscendingUnique(a: seq<nat>, b: seq<nat>)
    requires forall m, n :: 0 <= m < n < |a| ==> a[m] < a[n]
    requires forall m, n :: 0 <= m < n < |b| ==> b[m] < b[n]
    requires forall x :: x in a <==> x in b
    ensures a == b
  {
    if a == [] {
      assert multiset(b) == multiset{} by {
        assert forall x :: x in multiset(b) ==> x in a;
      }
      assert |multiset(b)| == |b|;
    } else {
      assert a[0] in a && b[0] in b;
      assert a[0] == b[0];
      forall x ensures x in a[1..] <==> x in b[1..] {
        assert x in a[1..] <==> x in a && x != a[0];
        assert x in b[1..] <==> x in b && x != b[0];
      }
      AscendingUnique(a[1..], b[1..]);
    }
  }

  /** The rows that are kept, or dropped, are determined. */
  lemma {:induction false} FilteredUnique(conds: seq<Condition>, schema: Schema, rows: seq<Row>, keep: bool,
                                          x: seq<Row>, y: seq<Row>)
    requires IsFiltered(conds, schema, rows, keep, x) && IsFiltered(conds, schema, rows, keep, y)
    ensures x == y
  {
    hide Accepted;
    var a :| PicksOf(a, conds, schema, rows, |rows|, keep) && Takes(a, rows, x);
    var b :| PicksOf(b, conds, schema, rows, |rows|, keep) && Takes(b, rows, y);
    forall i | i in a ensures i in b {
      assert rows[i] == rows[i];
    }
    forall i | i in b ensures i in a {
      assert rows[i] == rows[i];
    }
    AscendingUnique(a, b);
    forall m | 0 <= m < |a| ensures x[m] == y[m] {
      assert a[m] == b[m];
    }
  }

  lemma {:induction false} SelectIff(conds: seq<Condition>, schema: Schema, rows: seq<Row>, out: seq<Row>)
    ensures IsFiltered(conds, schema, rows, true, out) <==> out == Select(conds, schema, rows)
  {
    hide Select, Accepted, PicksOf, Takes;
    var picks := SelectPicks(conds, schema, rows, |rows|);
    assert rows[..|rows|] == rows;
    assert IsFiltered(conds, schema, rows, true, Select(conds, schema, rows));
    if IsFiltered(conds, schema, rows, true, out) {
      FilteredUnique(conds, schema, rows, true, out, Select(conds, schema, rows));
    }
  }

  method RunFilter(conds: seq<Condition>, schema: Schema, rows: seq<Row>) returns (out: seq<Row>)
    requires RowsOf(rows, schema)
    ensures out == Select(conds, schema, rows) && IsFiltered(conds, schema, rows, true, out)
  {
    hide Select, Fold, IsFiltered;
    SelectIff(conds, schema, rows, Select(conds, schema, rows));
    out := [];
    SelectNone(conds, schema);
    for i := 0 to |rows|
      invariant out == Select(conds, schema, rows[..i])
    {
      assert rows[i] in rows && rows[..i + 1] == rows[..i] + [rows[i]];
      SelectAppend(conds, schema, rows[..i], [rows[i]]);
      SelectFirst(conds, schema, rows[i]);
      var keep := EvaluateWhereClause(conds, schema, rows[i]);
      if keep {
        out := out + [rows[i]];
      }
    }
    assert rows[..|rows|] == rows;
  }

  // ----- Join pipeline

  predicate UsesHash(j: JoinClause) {
    j.records < HASH_JOIN_LIMIT
  }

  function MatchFor(j: JoinClause): Match {
    MatchOf(UsesHash(j))
  }

  /** One join of the pipeline: only the hash join reports a missing column. */
  function JoinRows(rows: seq<Row>, schema: Schema, j: JoinClause): Result<seq<Row>, QueryError> {
    match (ColumnIndex(schema, j.leftCol), ColumnIndex(j.schema, j.rightCol))
    case (Some(li), Some(ri)) => Ok(Join(rows, j.rows, li, ri, MatchFor(j)))
    case (_, None) => if UsesHash(j) then Err(ColumnNotFound(j.rightCol)) else Ok([])
    case (None, Some(_)) => if UsesHash(j) && rows != [] then Err(ColumnNotFound(j.leftCol)) else Ok([])
  }

  function FullSchema(schema: Schema, joins: seq<JoinClause>): (full: Schema)
    ensures |schema| <= |full| && full[..|schema|] == schema
    decreases |joins|
  {
    if joins == [] then schema else FullSchema(schema + joins[0].schema, joins[1..])
  }

  function JoinAll(rows: seq<Row>, schema: Schema, joins: seq<JoinClause>): Result<seq<Row>, QueryError>
    decreases |joins|
  {
    if joins == [] then Ok(rows)
    else match JoinRows(rows, schema, joins[0])
      case Err(e) => Err(e)
      case Ok(next) => JoinAll(next, schema + joins[0].schema, joins[1..])
  }

  /**
   The pipeline as it is pulled, from the last join down: a hash join reads its right side, and
   reports its missing column, before it pulls from the left.
   */
  function PullAll(rows: seq<Row>, schema: Schema, joins: seq<JoinClause>): Result<seq<Row>, QueryError>
    decreases |joins|
  {
    if joins == [] then Ok(rows)
    else
      var init, j := joins[..|joins| - 1], joins[|joins| - 1];
      if UsesHash(j) && ColumnIndex(j.schema, j.rightCol).None? then Err(ColumnNotFound(j.rightCol))
      else match PullAll(rows, schema, init)
        case Err(e) => Err(e)
        case Ok(left) => JoinRows(left, FullSchema(schema, init), j)
  }

  /** The last join of a pipeline runs over what the joins before it return. */
  lemma {:induction false} JoinAllLast(rows: seq<Row>, schema: Schema, joins: seq<JoinClause>)
    requires joins != []
    ensures var init, j := joins[..|joins| - 1], joins[|joins| - 1];
            && FullSchema(schema, joins) == FullSchema(schema, init) + j.schema
            && JoinAll(rows, schema, joins) ==
                 match JoinAll(rows, schema, init)
                 case Err(e) => Err(e)
                 case Ok(left) => JoinRows(left, FullSchema(schema, init), j)
    decreases |joins|
  {
    hide JoinRows;
    var n := |joins| - 1;
    if n == 0 {
      assert joins[1..] == [] && joins[..0] == [];
    } else {
      assert joins[..n][1..] == joins[1..][..n - 1];
      var next := JoinRows(rows, schema, joins[0]);
      JoinAllLast(if next.Ok? then next.value else [], schema + joins[0].schema, joins[1..]);
    }
  }

  /** Pulling succeeds exactly when joining one after the other does, with the same rows; only the error can differ. */
  lemma {:induction false} PullIsJoinAll(rows: seq<Row>, schema: Schema, joins: seq<JoinClause>)
    ensures var pulled, joined := PullAll(rows, schema, joins), JoinAll(rows, schema, joins);
            (pulled.Ok? <==> joined.Ok?) && (pulled.Ok? ==> pulled == joined)
    decreases |joins|
  {
    if joins != [] {
      JoinAllLast(rows, schema, joins);
      PullIsJoinAll(rows, schema, joins[..|joins| - 1]);
    }
  }

  // What a pipeline returns, on the tables.

  /** A hash join stops at an unknown column: the right one always, the left one when there is a left row. */
  ghost predicate JoinFails(left: seq<Row>, schema: Schema, j: JoinClause) {
    j.records < 10000 && (!HasColumn(j.schema, j.rightCol) || (left != [] && !HasColumn(schema, j.leftCol)))
  }

  /** out is what joining one more table to these rows returns; without one of its columns, nothing. */
  ghost predicate Stage(left: seq<Row>, schema: Schema, j: JoinClause, out: seq<Row>) {
    && !JoinFails(left, schema, j)
    && (forall li: nat, ri: nat :: FirstColumn(schema, j.leftCol, li) && FirstColumn(j.schema, j.rightCol, ri) ==>
          IsJoin(left, j.rows, li, ri, j.records < 10000, out))
    && (!HasColumn(schema, j.leftCol) || !HasColumn(j.schema, j.rightCol) ==> out == [])
  }

  function JoinedSchema(schema: Schema, joins: seq<JoinClause>): Schema {
    if joins == [] then schema
    else JoinedSchema(schema, joins[..|joins| - 1]) + joins[|joins| - 1].schema
  }

  /** out is what joining the tables one after the other returns. */
  ghost predicate Joined(rows: seq<Row>, schema: Schema, joins: seq<JoinClause>, out: seq<Row>)
    decreases |joins|
  {
    if joins == [] then out == rows
    else
      var init, j := joins[..|joins| - 1], joins[|joins| - 1];
      exists left :: Joined(rows, schema, init, left) && Stage(left, JoinedSchema(schema, init), j, out)
  }

  lemma {:induction false} StageIff(left: seq<Row>, schema: Schema, j: JoinClause, out: seq<Row>)
    ensures JoinRows(left, schema, j) == Ok(out) <==> Stage(left, schema, j, out)
    ensures JoinRows(left, schema, j).Err? <==> JoinFails(left, schema, j)
  {
    hide IsJoin, Join, FirstColumn, HasColumn, ColumnIndex, MatchOf;
    ColumnIndexIff(schema, j.leftCol);
    ColumnIndexIff(j.schema, j.rightCol);
    var li, ri := ColumnIndex(schema, j.leftCol), ColumnIndex(j.schema, j.rightCol);
    if li.Some? && ri.Some? {
      JoinIff(left, j.rows, li.value, ri.value, UsesHash(j), out);
    }
  }

  lemma {:induction false} FullSchemaIs(schema: Schema, joins: seq<JoinClause>)
    ensures FullSchema(schema, joins) == JoinedSchema(schema, joins)
    decreases |joins|
  {
    if joins != [] {
      JoinAllLast([], schema, joins);
      FullSchemaIs(schema, joins[..|joins| - 1]);
    }
  }

  /** Joining succeeds with exactly the rows that the tables determine. */
  lemma {:induction false} JoinedIff(rows: seq<Row>, schema: Schema, joins: seq<JoinClause>, out: seq<Row>)
    ensures JoinAll(rows, schema, joins) == Ok(out) <==> Joined(rows, schema, joins, out)
    decreases |joins|
  {
    hide JoinRows, Stage, FullSchema, JoinedSchema;
    if joins != [] {
      var init, j := joins[..|joins| - 1], joins[|joins| - 1];
      JoinAllLast(rows, schema, joins);
      FullSchemaIs(schema, init);
      var before := JoinAll(rows, schema, init);
      if before.Ok? {
        JoinedIff(rows, schema, init, before.value);
        StageIff(before.value, FullSchema(schema, init), j, out);
      }
      if left :| Joined(rows, schema, init, left) && Stage(left, JoinedSchema(schema, init), j, out) {
        JoinedIff(rows, schema, init, left);
      }
    }
  }

  /** The error is that of the last hash join whose right column is unknown, or else of the join that fails first. */
  ghost predicate FailsWith(rows: seq<Row>, schema: Schema, joins: seq<JoinClause>, name: string)
    decreases |joins|
  {
    joins != [] &&
    var init, j := joins[..|joins| - 1], joins[|joins| - 1];
    if j.records < 10000 && !HasColumn(j.schema, j.rightCol) then name == j.rightCol
    else
      || FailsWith(rows, schema, init, name)
      || (name == j.leftCol && exists left :: Joined(rows, schema, init, left) &&
                                              JoinFails(left, JoinedSchema(schema, init), j))
  }

  /** Runs the executors the planner picks, pulled from the last. */
  method RunJoins(rows: seq<Row>, schema: Schema, joins: seq<JoinClause>) returns (r: Result<seq<Row>, QueryError>)
    ensures r == PullAll(rows, schema, joins)
    ensures forall out {:trigger Joined(rows, schema, joins, out)} :: Joined(rows, schema, joins, out) <==> r == Ok(out)
    ensures r.Err? ==> FailsWith(rows, schema, joins, r.error.name)
    decreases |joins|
  {
    hide JoinRows, Stage, FullSchema, JoinedSchema, HasColumn, ColumnIndex, JoinAll;
    forall out ensures Joined(rows, schema, joins, out) <==> PullAll(rows, schema, joins) == Ok(out) {
      JoinedIff(rows, schema, joins, out);
      PullIsJoinAll(rows, schema, joins);
    }
    if joins == [] {
      return Ok(rows);
    }
    var init, j := joins[..|joins| - 1], joins[|joins| - 1];
    ColumnIndexIff(j.schema, j.rightCol);
    if UsesHash(j) && ColumnIndex(j.schema, j.rightCol).None? {
      return Err(ColumnNotFound(j.rightCol));
    }
    var left := RunJoins(rows, schema, init);
    if left.Err? {
      return left;
    }
    FullSchemaIs(schema, init);
    r := RunJoin(left.value, FullSchema(schema, init), j);
  }

  method RunJoin(rows: seq<Row>, schema: Schema, j: JoinClause) returns (r: Result<seq<Row>, QueryError>)
    ensures r == JoinRows(rows, schema, j)
    ensures forall out {:trigger Stage(rows, schema, j, out)} :: Stage(rows, schema, j, out) <==> r == Ok(out)
    ensures r.Err? <==> JoinFails(rows, schema, j)
    ensures r.Err? ==> r.error == ColumnNotFound(if HasColumn(j.schema, j.rightCol) then j.leftCol else j.rightCol)
  {
    hide Stage, HasColumn, Join;
    ColumnIndexIff(schema, j.leftCol);
    ColumnIndexIff(j.schema, j.rightCol);
    forall out ensures Stage(rows, schema, j, out) <==> JoinRows(rows, schema, j) == Ok(out) {
      StageIff(rows, schema, j, out);
    }
    StageIff(rows, schema, j, []);
    if UsesHash(j) {
      var exec := new HashJoin(rows, j.rows, schema, j.schema, j.leftCol, j.rightCol);
      if exec.BothColumns() {
        exec.AllRemaining();
      }
      r := exec.Drain();
    } else {
      var exec := new NestedLoopJoin(rows, j.rows, schema, j.schema, j.leftCol, j.rightCol);
      var out := exec.Drain();
      r := Ok(out);
    }
  }
}
