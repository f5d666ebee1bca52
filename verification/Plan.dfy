/**
 Query planning: which WHERE conditions are pushed below the joins, which key range is read
 through the index, and which join runs. The plan returns the same rows as joining whole
 tables and filtering last.
 */
module Plan {
  import opened Storage
  import opened Values
  import opened Literals
  import opened Predicate
  import opened Joins
  import opened Pipeline
  import TupleCodec

  // ----- Splitting the WHERE list

  datatype Split = Split(base: seq<Condition>, remaining: seq<Condition>)

  predicate HasOr(conds: seq<Condition>) {
    exists i :: 0 <= i < |conds| && conds[i].next == Some(Or)
  }

  predicate AllPresent(conds: seq<Condition>, schema: Schema) {
    forall i :: 0 <= i < |conds| ==> Present(conds[i], schema)
  }

  /** The conditions whose column does not exist. */
  function Absent(conds: seq<Condition>, schema: Schema): seq<Condition> {
    if conds == [] then []
    else if Present(conds[0], schema) then Absent(conds[1..], schema)
    else [conds[0]] + Absent(conds[1..], schema)
  }

  function Parts(conds: seq<Condition>, schema: Schema): Split {
    Split(Effective(conds, schema), Absent(conds, schema))
  }

  function SplitOf(conds: seq<Condition>, schema: Schema): Split {
    if HasOr(conds) && !AllPresent(conds, schema) then Split([], conds)
    else Parts(conds, schema)
  }

  lemma {:induction false} EffectiveAppend(a: seq<Condition>, b: seq<Condition>, schema: Schema)
    ensures Effective(a + b, schema) == Effective(a, schema) + Effective(b, schema)
  {
    if a == [] {
      assert a + b == b;
    } else {
      assert (a + b)[1..] == a[1..] + b;
      EffectiveAppend(a[1..], b, schema);
    }
  }

  lemma {:induction false} AbsentAppend(a: seq<Condition>, b: seq<Condition>, schema: Schema)
    ensures Absent(a + b, schema) == Absent(a, schema) + Absent(b, schema)
  {
    if a == [] {
      assert a + b == b;
    } else {
      assert (a + b)[1..] == a[1..] + b;
      AbsentAppend(a[1..], b, schema);
    }
  }

  lemma {:induction false} PartsNone(schema: Schema)
    ensures Parts([], schema) == Split([], [])
  {
  }

  lemma {:induction false} PartsStep(conds: seq<Condition>, i: nat, schema: Schema)
    requires i < |conds|
    ensures var before, c := Parts(conds[..i], schema), conds[i];
            Parts(conds[..i + 1], schema) ==
              if Present(c, schema) then Split(before.base + [c], before.remaining)
              else Split(before.base, before.remaining + [c])
  {
    hide Present;
    var one := [conds[i]];
    assert conds[..i + 1] == conds[..i] + one && one[1..] == [];
    EffectiveAppend(conds[..i], one, schema);
    AbsentAppend(conds[..i], one, schema);
  }

  method SplitWhere(conds: seq<Condition>, schema: Schema) returns (base: seq<Condition>, remaining: seq<Condition>)
    ensures Split(base, remaining) == SplitOf(conds, schema)
  {
    hide Present, Effective, Absent;
    PartsNone(schema);
    base, remaining := [], [];
    if HasOr(conds) && !AllPresent(conds, schema) {
      remaining := conds;
      return;
    }
    for i := 0 to |conds|
      invariant Split(base, remaining) == Parts(conds[..i], schema)
    {
      PartsStep(conds, i, schema);
      if Present(conds[i], schema) {
        base := base + [conds[i]];
      } else {
        remaining := remaining + [conds[i]];
      }
    }
    assert conds[..|conds|] == conds;
  }

  // ----- A split clause means what the whole clause means

  predicate AllMatch(conds: seq<Condition>, schema: Schema, row: Row)
    requires |row| == |schema|
  {
    forall i :: 0 <= i < |conds| ==> Matches(conds[i], schema, row)
  }

  lemma {:induction false} AllMatchAppend(a: seq<Condition>, b: seq<Condition>, schema: Schema, row: Row)
    requires |row| == |schema|
    ensures AllMatch(a + b, schema, row) <==> AllMatch(a, schema, row) && AllMatch(b, schema, row)
  {
    assert forall i :: 0 <= i < |b| ==> (a + b)[|a| + i] == b[i];
    assert forall i :: 0 <= i < |a| ==> (a + b)[i] == a[i];
  }

  /** All conditions on existing columns hold. */
  predicate EffectiveMatch(conds: seq<Condition>, schema: Schema, row: Row)
    requires |row| == |schema|
  {
    AllMatch(Effective(conds, schema), schema, row)
  }

  lemma {:induction false} EffectiveMatchFirst(c: Condition, rest: seq<Condition>, schema: Schema, row: Row)
    requires |row| == |schema|
    ensures EffectiveMatch([c] + rest, schema, row) <==>
              (Present(c, schema) ==> Matches(c, schema, row)) && EffectiveMatch(rest, schema, row)
  {
    assert ([c] + rest)[1..] == rest;
    AllMatchAppend([c], Effective(rest, schema), schema, row);
  }

  lemma {:induction false} NoOrEffective(conds: seq<Condition>, schema: Schema)
    requires !HasOr(conds)
    ensures !HasOr(Effective(conds, schema)) && ClosedPrefix(Effective(conds, schema)) == []
  {
    if conds != [] {
      var rest := conds[1..];
      assert forall i :: 0 <= i < |rest| ==> rest[i] == conds[i + 1];
      NoOrEffective(rest, schema);
      var eff := Effective(rest, schema);
      assert ([conds[0]] + eff)[1..] == eff;
    }
  }

  /**
   Without OR a clause accepts the rows on which all its existing columns match, and none if its
   last column is missing.
   */
  lemma {:induction false} AcceptsConjunction(conds: seq<Condition>, schema: Schema, row: Row)
    requires |row| == |schema| && !HasOr(conds) && conds != []
    ensures Accepts(conds, schema, row) <==>
              Present(conds[|conds| - 1], schema) && EffectiveMatch(conds, schema, row)
  {
    WhereWithMissingColumns(conds, schema, row);
    NoOrEffective(conds, schema);
    if Present(conds[|conds| - 1], schema) {
      FoldSkips(conds, schema, row, false, true);
    }
  }

  /** The parts of a clause match together exactly when the clause does. */
  lemma {:induction false} PartsMatch(conds: seq<Condition>, base: Schema, schema: Schema, row: Row)
    requires |row| == |schema|
    ensures EffectiveMatch(conds, schema, row) <==>
              EffectiveMatch(Effective(conds, base), schema, row) && EffectiveMatch(Absent(conds, base), schema, row)
  {
    hide EffectiveMatch, Present;
    if conds != [] {
      var c, rest := conds[0], conds[1..];
      assert conds == [c] + rest;
      PartsMatch(rest, base, schema, row);
      EffectiveMatchFirst(c, rest, schema, row);
      EffectiveMatchFirst(c, Effective(rest, base), schema, row);
      EffectiveMatchFirst(c, Absent(rest, base), schema, row);
    }
  }

  /** The last condition is the last of the part it goes to. */
  lemma {:induction false} LastOfParts(conds: seq<Condition>, base: Schema)
    requires conds != []
    ensures var part := if Present(conds[|conds| - 1], base) then Effective(conds, base) else Absent(conds, base);
            part != [] && part[|part| - 1] == conds[|conds| - 1]
  {
    PartsStep(conds, |conds| - 1, base);
    assert conds[..|conds|] == conds;
  }

  lemma {:induction false} NoOrParts(conds: seq<Condition>, base: Schema)
    requires !HasOr(conds)
    ensures !HasOr(Effective(conds, base)) && !HasOr(Absent(conds, base))
    ensures forall c :: c in Effective(conds, base) ==> Present(c, base)
  {
    if conds != [] {
      var rest := conds[1..];
      assert forall i :: 0 <= i < |rest| ==> rest[i] == conds[i + 1];
      NoOrParts(rest, base);
    }
  }

  lemma {:induction false} EffectiveWhenPresent(conds: seq<Condition>, schema: Schema)
    requires AllPresent(conds, schema)
    ensures Effective(conds, schema) == conds && Absent(conds, schema) == []
  {
    if conds != [] {
      assert Present(conds[0], schema);
      var rest := conds[1..];
      assert AllPresent(rest, schema) by {
        assert forall i :: 0 <= i < |rest| ==> rest[i] == conds[i + 1];
      }
      EffectiveWhenPresent(rest, schema);
      assert conds == [conds[0]] + rest;
    }
  }

  /**
   The remaining half ends in a condition on a column that exists nowhere, and the whole clause
   does not: then the filter above the joins rejects every row.
   */
  predicate LosesRows(conds: seq<Condition>, base: Schema, schema: Schema) {
    var rest := Absent(conds, base);
    && !HasOr(conds) && conds != [] && rest != []
    && !Present(rest[|rest| - 1], schema) && Present(conds[|conds| - 1], schema)
  }

  /** Applying both halves of the split is applying the whole clause, except where the split loses the rows. */
  lemma {:induction false} SplitAccepts(conds: seq<Condition>, base: Schema, schema: Schema, row: Row)
    requires base <= schema
    ensures var s := SplitOf(conds, base);
            Accepts(s.base, schema, row) && Accepts(s.remaining, schema, row) <==>
              Accepts(conds, schema, row) && !LosesRows(conds, base, schema)
  {
    if |row| == |schema| && conds != [] {
      if HasOr(conds) {
        if AllPresent(conds, base) {
          EffectiveWhenPresent(conds, base);
        }
      } else {
        SplitConjunction(conds, base, schema, row);
      }
    }
  }

  lemma {:induction false} SplitConjunction(conds: seq<Condition>, base: Schema, schema: Schema, row: Row)
    requires base <= schema && |row| == |schema| && conds != [] && !HasOr(conds)
    ensures Accepts(Effective(conds, base), schema, row) && Accepts(Absent(conds, base), schema, row) <==>
              Accepts(conds, schema, row) && !LosesRows(conds, base, schema)
  {
    hide Accepts, EffectiveMatch, Present;
    var b, r := Effective(conds, base), Absent(conds, base);
    PartsMatch(conds, base, schema, row);
    LastOfParts(conds, base);
    NoOrParts(conds, base);
    AcceptsConjunction(conds, schema, row);
    NothingAccepts(schema, row);
    if b != [] {
      AcceptsConjunction(b, schema, row);
      PresentInMore(b[|b| - 1], base, schema);
    }
    if r != [] {
      AcceptsConjunction(r, schema, row);
    }
    PresentInMore(conds[|conds| - 1], base, schema);
  }

  lemma {:induction false} NothingAccepts(schema: Schema, row: Row)
    requires |row| == |schema|
    ensures Accepts([], schema, row) && EffectiveMatch([], schema, row)
  {
  }

  lemma {:induction false} PresentInMore(c: Condition, base: Schema, schema: Schema)
    requires base <= schema
    ensures Present(c, base) ==> Present(c, schema)
  {
    if Present(c, base) {
      ColumnIndexPrefix(base, schema[|base|..], c.column);
      assert base + schema[|base|..] == schema;
    }
  }

  // ----- Filters pass through joins

  lemma {:induction false} ColumnIndexPrefix(schema: Schema, more: Schema, name: string)
    requires ColumnIndex(schema, name).Some?
    ensures ColumnIndex(schema + more, name) == ColumnIndex(schema, name)
  {
    var i := ColumnIndex(schema, name).value;
    var k := ColumnIndex(schema + more, name);
    assert (schema + more)[i].name == name;
    assert forall j :: 0 <= j < i ==> (schema + more)[j] == schema[j];
  }

  /** Conditions on the left schema do not see the columns a join appends. */
  lemma {:induction false} FoldPrefix(conds: seq<Condition>, schema: Schema, more: Schema, l: Row, r: Row,
                                      result: bool, group: bool)
    requires |l| == |schema| && |r| == |more| && AllPresent(conds, schema)
    ensures Fold(conds, schema + more, l + r, result, group) == Fold(conds, schema, l, result, group)
    decreases |conds|
  {
    if conds != [] {
      var c, rest := conds[0], conds[1..];
      assert Present(c, schema);
      ColumnIndexPrefix(schema, more, c.column);
      assert AllPresent(rest, schema) by {
        assert forall i :: 0 <= i < |rest| ==> rest[i] == conds[i + 1];
      }
      var g := group && Matches(c, schema, l);
      FoldPrefix(rest, schema, more, l, r, result || g, true);
      FoldPrefix(rest, schema, more, l, r, result, g);
    }
  }

  lemma {:induction false} AcceptsPrefix(conds: seq<Condition>, schema: Schema, more: Schema, l: Row, r: Row)
    requires |l| == |schema| && |r| == |more| && AllPresent(conds, schema)
    ensures Accepts(conds, schema + more, l + r) == Accepts(conds, schema, l)
  {
    FoldPrefix(conds, schema, more, l, r, false, true);
  }

  /** Filtering the matches of one left row keeps all of them or none. */
  lemma {:induction false} SelectMatches(conds: seq<Condition>, schema: Schema, more: Schema, l: Row, rs: seq<Row>,
                                         li: nat, ri: nat, same: Match)
    requires |l| == |schema| && RowsOf(rs, more) && AllPresent(conds, schema)
    ensures Select(conds, schema + more, MatchesOf(l, rs, li, ri, same)) ==
              if Accepts(conds, schema, l) then MatchesOf(l, rs, li, ri, same) else []
  {
    if rs != [] {
      assert rs[0] in rs;
      assert forall r :: r in rs[1..] ==> r in rs;
      SelectMatches(conds, schema, more, l, rs[1..], li, ri, same);
      AcceptsPrefix(conds, schema, more, l, rs[0]);
      var first: seq<Row> := if Hits(l, rs[0], li, ri, same) then [l + rs[0]] else [];
      SelectAppend(conds, schema + more, first, MatchesOf(l, rs[1..], li, ri, same));
      SelectFirst(conds, schema + more, l + rs[0]);
    }
  }

  /** Filtering before a join on the left table's columns is filtering after it. */
  lemma {:induction false} SelectJoin(conds: seq<Condition>, schema: Schema, more: Schema, ls: seq<Row>, rs: seq<Row>,
                                      li: nat, ri: nat, same: Match)
    requires RowsOf(ls, schema) && RowsOf(rs, more) && AllPresent(conds, schema)
    ensures Select(conds, schema + more, Join(ls, rs, li, ri, same)) ==
              Join(Select(conds, schema, ls), rs, li, ri, same)
  {
    if ls != [] {
      var l, tail := ls[0], ls[1..];
      assert l in ls && forall r :: r in tail ==> r in ls;
      SelectJoin(conds, schema, more, tail, rs, li, ri, same);
      SelectMatches(conds, schema, more, l, rs, li, ri, same);
      SelectAppend(conds, schema + more, MatchesOf(l, rs, li, ri, same), Join(tail, rs, li, ri, same));
      var kept := Select(conds, schema, tail);
      if Accepts(conds, schema, l) {
        assert Select(conds, schema, ls) == [l] + kept;
        assert ([l] + kept)[1..] == kept;
      } else {
        assert Select(conds, schema, ls) == kept;
      }
    }
  }

  lemma {:induction false} JoinTyped(ls: seq<Row>, schema: Schema, j: JoinClause)
    requires RowsOf(ls, schema) && RowsOf(j.rows, j.schema)
    ensures var out := JoinRows(ls, schema, j);
            out.Ok? ==> RowsOf(out.value, schema + j.schema)
  {
    var out := JoinRows(ls, schema, j);
    var li, ri := ColumnIndex(schema, j.leftCol), ColumnIndex(j.schema, j.rightCol);
    if out.Ok? && li.Some? && ri.Some? {
      forall row | row in out.value ensures |row| == |schema + j.schema| {
        JoinHolds(ls, j.rows, li.value, ri.value, MatchFor(j), row);
      }
    }
  }

  /** The same through a whole pipeline; filtering first can only remove a missing-column error. */
  lemma {:induction false} SelectJoinAll(conds: seq<Condition>, schema: Schema, rows: seq<Row>, joins: seq<JoinClause>)
    requires RowsOf(rows, schema) && JoinsTyped(joins) && AllPresent(conds, schema)
    requires JoinAll(rows, schema, joins).Ok?
    ensures JoinAll(Select(conds, schema, rows), schema, joins) ==
              Ok(Select(conds, FullSchema(schema, joins), JoinAll(rows, schema, joins).value))
    decreases |joins|
  {
    if joins != [] {
      var j, rest := joins[0], joins[1..];
      assert j in joins && forall k :: k in rest ==> k in joins;
      var next := JoinRows(rows, schema, j).value;
      SelectJoinRows(conds, schema, rows, j);
      JoinTyped(rows, schema, j);
      PresentPrefix(conds, schema, j.schema);
      SelectJoinAll(conds, schema + j.schema, next, rest);
    }
  }

  lemma {:induction false} SelectJoinRows(conds: seq<Condition>, schema: Schema, rows: seq<Row>, j: JoinClause)
    requires RowsOf(rows, schema) && RowsOf(j.rows, j.schema) && AllPresent(conds, schema)
    requires JoinRows(rows, schema, j).Ok?
    ensures JoinRows(Select(conds, schema, rows), schema, j) ==
              Ok(Select(conds, schema + j.schema, JoinRows(rows, schema, j).value))
  {
    var li, ri := ColumnIndex(schema, j.leftCol), ColumnIndex(j.schema, j.rightCol);
    if li.Some? && ri.Some? {
      SelectJoin(conds, schema, j.schema, rows, j.rows, li.value, ri.value, MatchFor(j));
    }
  }

  lemma {:induction false} PresentPrefix(conds: seq<Condition>, schema: Schema, more: Schema)
    requires AllPresent(conds, schema)
    ensures AllPresent(conds, schema + more)
  {
    forall i | 0 <= i < |conds| ensures Present(conds[i], schema + more) {
      assert Present(conds[i], schema);
      ColumnIndexPrefix(schema, more, conds[i].column);
    }
  }

  lemma {:induction false} SelectTwice(first: seq<Condition>, second: seq<Condition>, whole: seq<Condition>,
                                       schema: Schema, rows: seq<Row>)
    requires forall r :: Accepts(whole, schema, r) <==> Accepts(first, schema, r) && Accepts(second, schema, r)
    ensures Select(second, schema, Select(first, schema, rows)) == Select(whole, schema, rows)
  {
    if rows != [] {
      var kept := Select(first, schema, rows[1..]);
      SelectTwice(first, second, whole, schema, rows[1..]);
      if Accepts(first, schema, rows[0]) {
        assert Select(first, schema, rows) == [rows[0]] + kept;
        assert ([rows[0]] + kept)[1..] == kept;
      } else {
        assert Select(first, schema, rows) == kept;
      }
    }
  }

  /** The plan of execute_query over a given scan of the base table. */
  function PlanRows(scan: seq<Row>, schema: Schema, joins: seq<JoinClause>, conds: seq<Condition>)
    : Result<seq<Row>, QueryError>
  {
    var s := SplitOf(conds, schema);
    match PullAll(Select(s.base, schema, scan), schema, joins)
    case Err(e) => Err(e)
    case Ok(rows) => Ok(Select(s.remaining, FullSchema(schema, joins), rows))
  }

  /** Joining everything and filtering last. */
  function ReferenceRows(rows: seq<Row>, schema: Schema, joins: seq<JoinClause>, conds: seq<Condition>)
    : Result<seq<Row>, QueryError>
  {
    match JoinAll(rows, schema, joins)
    case Err(e) => Err(e)
    case Ok(joined) => Ok(Select(conds, FullSchema(schema, joins), joined))
  }

  /** out is the answer to the query on the tables: the joined rows that the whole clause accepts, in order. */
  ghost predicate Answer(rows: seq<Row>, schema: Schema, joins: seq<JoinClause>, conds: seq<Condition>, out: seq<Row>) {
    exists joined ::
      Joined(rows, schema, joins, joined) && IsFiltered(conds, JoinedSchema(schema, joins), joined, true, out)
  }

  /** Joining everything and filtering last computes the answer, and there is only one. */
  lemma {:induction false} AnswerIff(rows: seq<Row>, schema: Schema, joins: seq<JoinClause>, conds: seq<Condition>,
                                     out: seq<Row>)
    ensures ReferenceRows(rows, schema, joins, conds) == Ok(out) <==> Answer(rows, schema, joins, conds, out)
  {
    hide JoinAll, Joined, IsFiltered, Select;
    FullSchemaIs(schema, joins);
    var all := JoinAll(rows, schema, joins);
    if all.Ok? {
      JoinedIff(rows, schema, joins, all.value);
      SelectIff(conds, JoinedSchema(schema, joins), all.value, out);
    }
    if joined :| Joined(rows, schema, joins, joined) &&
                 IsFiltered(conds, JoinedSchema(schema, joins), joined, true, out) {
      JoinedIff(rows, schema, joins, joined);
    }
  }

  /** What the plan returns, on the tables: the pushed conditions filter the scan, the others the joined rows. */
  ghost predicate PlanAnswer(scan: seq<Row>, schema: Schema, joins: seq<JoinClause>, conds: seq<Condition>,
                             out: seq<Row>)
  {
    var s := SplitOf(conds, schema);
    exists kept, joined ::
      && IsFiltered(s.base, schema, scan, true, kept) && Joined(kept, schema, joins, joined)
      && IsFiltered(s.remaining, JoinedSchema(schema, joins), joined, true, out)
  }

  lemma {:induction false} PlanIff(scan: seq<Row>, schema: Schema, joins: seq<JoinClause>, conds: seq<Condition>,
                                   out: seq<Row>)
    ensures PlanRows(scan, schema, joins, conds) == Ok(out) <==> PlanAnswer(scan, schema, joins, conds, out)
  {
    hide JoinAll, PullAll, Joined, IsFiltered, Select, SplitOf;
    var s, full := SplitOf(conds, schema), JoinedSchema(schema, joins);
    FullSchemaIs(schema, joins);
    var kept := Select(s.base, schema, scan);
    SelectIff(s.base, schema, scan, kept);
    PullIsJoinAll(kept, schema, joins);
    var all := JoinAll(kept, schema, joins);
    if all.Ok? {
      JoinedIff(kept, schema, joins, all.value);
      SelectIff(s.remaining, full, all.value, out);
    }
    if k, joined :| IsFiltered(s.base, schema, scan, true, k) && Joined(k, schema, joins, joined) &&
                    IsFiltered(s.remaining, full, joined, true, out) {
      SelectIff(s.base, schema, scan, k);
      JoinedIff(kept, schema, joins, joined);
    }
  }

  /** Where the split loses the rows, the filter above the joins accepts nothing. */
  lemma {:induction false} RemainingRejects(conds: seq<Condition>, base: Schema, schema: Schema, row: Row)
    requires LosesRows(conds, base, schema)
    ensures !Accepts(SplitOf(conds, base).remaining, schema, row)
  {
    hide Accepts, EffectiveMatch, Present, Absent, Effective, HasOr, AllPresent;
    NoOrParts(conds, base);
    if |row| == |schema| {
      AcceptsConjunction(Absent(conds, base), schema, row);
    } else {
      WrongWidth(Absent(conds, base), schema, row);
    }
  }

  lemma {:induction false} WrongWidth(conds: seq<Condition>, schema: Schema, row: Row)
    requires |row| != |schema|
    ensures !Accepts(conds, schema, row)
  {
  }

  lemma {:induction false} SelectRejected(conds: seq<Condition>, schema: Schema, rows: seq<Row>)
    requires forall r :: !Accepts(conds, schema, r)
    ensures Select(conds, schema, rows) == []
  {
    if rows != [] {
      SelectRejected(conds, schema, rows[1..]);
    }
  }

  lemma {:induction false} LostRows(conds: seq<Condition>, base: Schema, schema: Schema, rows: seq<Row>)
    requires LosesRows(conds, base, schema)
    ensures Select(SplitOf(conds, base).remaining, schema, rows) == []
  {
    hide LosesRows, Accepts, SplitOf, Select;
    forall r ensures !Accepts(SplitOf(conds, base).remaining, schema, r) {
      RemainingRejects(conds, base, schema, r);
    }
    SelectRejected(SplitOf(conds, base).remaining, schema, rows);
  }

  /**
   Pushing conditions down changes neither the rows nor their order, unless the split loses the
   rows: then the plan returns none.
   */
  lemma {:induction false} PushdownKeepsRows(rows: seq<Row>, schema: Schema, joins: seq<JoinClause>,
      conds: seq<Condition>)
    requires RowsOf(rows, schema) && JoinsTyped(joins)
    requires ReferenceRows(rows, schema, joins, conds).Ok?
    ensures PlanRows(rows, schema, joins, conds) ==
              if LosesRows(conds, schema, FullSchema(schema, joins)) then Ok([])
              else ReferenceRows(rows, schema, joins, conds)
  {
    hide Accepts, LosesRows, Select, JoinAll, PullAll, SplitOf, FullSchema;
    var s, full := SplitOf(conds, schema), FullSchema(schema, joins);
    BasePresent(conds, schema);
    SelectJoinAll(s.base, schema, rows, joins);
    PullIsJoinAll(Select(s.base, schema, rows), schema, joins);
    var joined := JoinAll(rows, schema, joins).value;
    if LosesRows(conds, schema, full) {
      LostRows(conds, schema, full, Select(s.base, full, joined));
    } else {
      forall row
        ensures Accepts(conds, full, row) <==> Accepts(s.base, full, row) && Accepts(s.remaining, full, row)
      {
        SplitAccepts(conds, schema, full, row);
      }
      SelectTwice(s.base, s.remaining, conds, full, joined);
    }
  }

  /** So the plan is right exactly when the split loses nothing or there is nothing to lose. */
  lemma {:induction false} PushdownRightIff(rows: seq<Row>, schema: Schema, joins: seq<JoinClause>,
      conds: seq<Condition>)
    requires RowsOf(rows, schema) && JoinsTyped(joins)
    requires ReferenceRows(rows, schema, joins, conds).Ok?
    ensures PlanRows(rows, schema, joins, conds) == ReferenceRows(rows, schema, joins, conds) <==>
              !LosesRows(conds, schema, FullSchema(schema, joins)) ||
              ReferenceRows(rows, schema, joins, conds).value == []
  {
    hide LosesRows, PlanRows, ReferenceRows;
    PushdownKeepsRows(rows, schema, joins, conds);
  }

  /** `ghost = 2 AND id = 1` finds the row with id 1, but not once `id = 1` is pushed down. */
  lemma {:induction false} GhostLosesRow()
    ensures var schema := [Column("id", IntegerType, false)];
            var conds := [Condition("ghost", Eq, "2", Some(And)), Condition("id", Eq, "1", None)];
            && ReferenceRows([[Integer(1)]], schema, [], conds) == Ok([[Integer(1)]])
            && PlanRows([[Integer(1)]], schema, [], conds) == Ok([])
  {
    var schema := [Column("id", IntegerType, false)];
    var ghostly, one := Condition("ghost", Eq, "2", Some(And)), Condition("id", Eq, "1", None);
    var conds := [ghostly, one];
    var row: Row := [Integer(1)];
    assert conds[1..] == [one] && schema[1..] == [];
    assert ParseI32("1") == Some(1);
    assert !Present(ghostly, schema) && Present(one, schema) && Matches(one, schema, row);
    assert Accepts(conds, schema, row) && Select(conds, schema, [row]) == [row] by {
      SelectFirst(conds, schema, row);
    }
    assert Absent([one], schema) == [] by {
      assert [one][1..] == [];
    }
    assert Absent(conds, schema) == [ghostly];
    assert LosesRows(conds, schema, schema);
    PushdownKeepsRows([row], schema, [], conds);
  }

  lemma {:induction false} BasePresent(conds: seq<Condition>, schema: Schema)
    ensures AllPresent(SplitOf(conds, schema).base, schema)
  {
    var eff := Effective(conds, schema);
    assert forall i :: 0 <= i < |eff| ==> eff[i] in eff;
  }

  // ----- Index ranges

  function SaturatingNext(v: Key): Key {
    if v == KEY_END - 1 then v else v + 1
  }

  function SaturatingPrev(v: Key): Key {
    if v == KEY_MIN then v else v - 1
  }

  /** The key range read through the index: only for a single condition on the column "id". */
  function BoundsOf(base: seq<Condition>): Option<(Key, Key)> {
    if |base| != 1 || base[0].column != "id" then None
    else match ParseI32(base[0].text)
      case None => None
      case Some(v) =>
        match base[0].op
        case Eq => Some((v, v))
        case Gt => Some((SaturatingNext(v), KEY_END - 1))
        case Gte => Some((v, KEY_END - 1))
        case Lt => Some((KEY_MIN, SaturatingPrev(v)))
        case Lte => Some((KEY_MIN, v))
        case Neq => None
  }

  /** A range is read exactly for one condition on "id", other than !=, whose text writes a 32-bit integer. */
  lemma {:induction false} BoundsIff(base: seq<Condition>)
    ensures BoundsOf(base).Some? <==>
              && |base| == 1 && base[0].column == "id" && base[0].op != Neq
              && exists v: int :: KEY_MIN <= v < KEY_END && WritesInt(base[0].text, v)
  {
    hide ParseI32, WritesInt;
    if |base| == 1 {
      var read := ParseI32(base[0].text);
      if read.Some? {
        ParseI32Iff(base[0].text, read.value);
      }
      if v: int :| KEY_MIN <= v < KEY_END && WritesInt(base[0].text, v) {
        ParseI32Iff(base[0].text, v);
      }
    }
  }

  /** The index holds the integers of the first column. */
  predicate Keyed(row: Row) {
    row != [] && row[0].Integer? && KEY_MIN <= row[0].i < KEY_END
  }

  predicate InRange(row: Row, bounds: (Key, Key)) {
    row != [] && row[0].Integer? && bounds.0 <= row[0].i <= bounds.1
  }

  /** The rows an index scan of a key range finds, in heap order. */
  function Restrict(rows: seq<Row>, bounds: (Key, Key)): seq<Row> {
    if rows == [] then []
    else if InRange(rows[0], bounds) then [rows[0]] + Restrict(rows[1..], bounds)
    else Restrict(rows[1..], bounds)
  }

  /** `id > i32::MAX` and `id < i32::MIN`: the extreme key that the saturated bound still includes. */
  predicate AtSaturatedBound(c: Condition, key: int) {
    || (c.op == Gt && key == KEY_END - 1 && ParseI32(c.text) == Some(key))
    || (c.op == Lt && key == KEY_MIN && ParseI32(c.text) == Some(key))
  }

  /**
   With "id" first, the range holds exactly the rows the condition accepts, except that a
   saturated bound keeps the extreme key, which the filter above the scan removes again.
   */
  lemma {:induction false} BoundsExact(base: seq<Condition>, schema: Schema, row: Row)
    requires ColumnIndex(schema, "id") == Some(0) && |row| == |schema| && Keyed(row)
    requires BoundsOf(base).Some?
    ensures InRange(row, BoundsOf(base).value) == (Accepts(base, schema, row) || AtSaturatedBound(base[0], row[0].i))
  {
    AcceptsOne(base, schema, row);
  }

  lemma {:induction false} AcceptsOne(base: seq<Condition>, schema: Schema, row: Row)
    requires |base| == 1 && |row| == |schema| && Present(base[0], schema)
    ensures Accepts(base, schema, row) <==> Matches(base[0], schema, row)
  {
    FoldIsGroups(base, schema, row, false);
    assert base[1..] == [];
  }

  /**
   The planner may read this table through the index: "id" is the first column, or BOOLEAN, so
   that no integer literal matches it, or the first column is not INTEGER, so that no row has a key.
   */
  predicate IndexReadable(schema: Schema) {
    match ColumnIndex(schema, "id")
    case None => true
    case Some(j) => j == 0 || schema[j].dataType == BooleanType || schema[0].dataType != IntegerType
  }

  /** The rows of a table with an integer key: one value per column, of its type. */
  ghost predicate KeyedRows(rows: seq<Row>, schema: Schema) {
    forall r :: r in rows ==> TupleCodec.Typed(schema, r) && Keyed(r)
  }

  /** No boolean literal is an integer. */
  lemma {:induction false} BooleanLiterals()
    ensures ParseI32("true") == None && ParseI32("false") == None
  {
    assert ParseDigits("true") == None && ParseDigits("false") == None;
  }

  /** Reading through the index loses no row the filter above it keeps. */
  lemma {:induction false} SelectRestricted(base: seq<Condition>, schema: Schema, rows: seq<Row>)
    requires IndexReadable(schema) && BoundsOf(base).Some? && Present(base[0], schema)
    requires KeyedRows(rows, schema)
    ensures Select(base, schema, Restrict(rows, BoundsOf(base).value)) == Select(base, schema, rows)
  {
    if rows != [] {
      var tail := rows[1..];
      assert rows[0] in rows && forall r :: r in tail ==> r in rows;
      SelectRestricted(base, schema, tail);
      FoundIfAccepted(base, schema, rows[0]);
      var kept := Restrict(tail, BoundsOf(base).value);
      if InRange(rows[0], BoundsOf(base).value) {
        assert Restrict(rows, BoundsOf(base).value) == [rows[0]] + kept;
        assert ([rows[0]] + kept)[1..] == kept;
      } else {
        assert Restrict(rows, BoundsOf(base).value) == kept;
      }
    }
  }

  lemma {:induction false} FoundIfAccepted(base: seq<Condition>, schema: Schema, row: Row)
    requires IndexReadable(schema) && BoundsOf(base).Some? && Present(base[0], schema)
    requires TupleCodec.Typed(schema, row) && Keyed(row)
    ensures Accepts(base, schema, row) ==> InRange(row, BoundsOf(base).value)
  {
    var j := ColumnIndex(schema, "id").value;
    assert TupleCodec.TypeMatches(schema[0], row[0]) && TupleCodec.TypeMatches(schema[j], row[j]);
    if j == 0 {
      BoundsExact(base, schema, row);
    } else {
      AcceptsOne(base, schema, row);
      BooleanLiterals();
    }
  }

  /** The rows a table of this schema can hold. */
  ghost predicate TableRow(schema: Schema, row: Row) {
    TupleCodec.Typed(schema, row) && TupleCodec.NullsAllowed(schema, row, |schema|) && Keyed(row)
  }

  /** Reading through the index loses no row, for any table of this schema and any condition on "id". */
  ghost predicate IndexSafe(schema: Schema) {
    forall rows: seq<Row>, base: seq<Condition> ::
      (forall r :: r in rows ==> TableRow(schema, r)) && BoundsOf(base).Some? ==>
        Select(base, schema, Restrict(rows, BoundsOf(base).value)) == Select(base, schema, rows)
  }

  /** The index is built on the first column; reading "id" through it is right exactly for these schemas. */
  lemma {:induction false} IndexSafeIff(schema: Schema)
    requires ColumnIndex(schema, "id").Some?
    ensures IndexSafe(schema) <==> IndexReadable(schema)
  {
    if IndexReadable(schema) {
      forall rows: seq<Row>, base: seq<Condition> |
        (forall r :: r in rows ==> TableRow(schema, r)) && BoundsOf(base).Some?
        ensures Select(base, schema, Restrict(rows, BoundsOf(base).value)) == Select(base, schema, rows)
      {
        SelectRestricted(base, schema, rows);
      }
    } else {
      IndexMissesRow(schema, ColumnIndex(schema, "id").value);
    }
  }

  /** A value of the column's type, not NULL. */
  function Sample(col: Column): (v: Value)
    ensures TupleCodec.TypeMatches(col, v) && v != Null
  {
    match col.dataType
    case IntegerType => Integer(1)
    case VarcharType => Varchar("1")
    case BooleanType => Boolean(false)
  }

  /** A row (7, .., id = 1, ..) is not found by `id = 1` in an index on the first column. */
  lemma {:induction false} IndexMissesRow(schema: Schema, j: nat)
    requires ColumnIndex(schema, "id") == Some(j) && !IndexReadable(schema)
    ensures !IndexSafe(schema)
  {
    var row: Row := seq(|schema|, k requires 0 <= k < |schema| => if k == 0 then Integer(7) else Sample(schema[k]));
    var base := [Condition("id", Eq, "1", None)];
    var rows := [row];
    assert ParseI32("1") == Some(1);
    assert BoundsOf(base) == Some((1, 1));
    AcceptsOne(base, schema, row);
    SelectFirst(base, schema, row);
    assert rows[1..] == [];
    assert Restrict(rows, (1, 1)) == [];
    assert TableRow(schema, row);
  }

  /** The table (k INT, id INT) with the row (7, 1): `id = 1` finds it in the heap, and nothing through the index. */
  lemma {:induction false} MisplacedIdMissesRow()
    ensures var schema := [Column("k", IntegerType, false), Column("id", IntegerType, false)];
            var row, conds := [Integer(7), Integer(1)], [Condition("id", Eq, "1", None)];
            && TableRow(schema, row) && BoundsOf(conds) == Some((1, 1)) && Restrict([row], (1, 1)) == []
            && ReferenceRows([row], schema, [], conds) == Ok([row]) && PlanRows([], schema, [], conds) == Ok([])
  {
    var schema := [Column("k", IntegerType, false), Column("id", IntegerType, false)];
    var row: Row := [Integer(7), Integer(1)];
    var conds := [Condition("id", Eq, "1", None)];
    assert ParseI32("1") == Some(1);
    assert schema[1..] == [schema[1]] && ColumnIndex(schema, "id") == Some(1);
    AcceptsOne(conds, schema, row);
    SelectFirst(conds, schema, row);
    assert conds[1..] == [] && [row][1..] == [];
    assert SplitOf(conds, schema) == Split(conds, []);
  }

  // ----- Row order does not matter to the rows of a plan

  function Expand(f: Row -> seq<Row>, rows: seq<Row>): seq<Row> {
    if rows == [] then [] else f(rows[0]) + Expand(f, rows[1..])
  }

  lemma {:induction false} ExpandAppend(f: Row -> seq<Row>, a: seq<Row>, b: seq<Row>)
    ensures Expand(f, a + b) == Expand(f, a) + Expand(f, b)
  {
    if a == [] {
      assert a + b == b;
    } else {
      assert (a + b)[1..] == a[1..] + b;
      ExpandAppend(f, a[1..], b);
    }
  }

  lemma {:induction false} RemoveOne(tail: seq<Row>, before: seq<Row>, after: seq<Row>, x: Row)
    requires multiset([x] + tail) == multiset(before + ([x] + after))
    ensures multiset(tail) == multiset(before + after)
  {
    var one := [x];
    assert multiset(tail) == multiset(one + tail) - multiset(one);
    assert multiset(before + after) == multiset(before + (one + after)) - multiset(one);
  }

  lemma {:induction false} ExpandPermuted(f: Row -> seq<Row>, a: seq<Row>, b: seq<Row>)
    requires multiset(a) == multiset(b)
    ensures multiset(Expand(f, a)) == multiset(Expand(f, b))
  {
    if a == [] {
      EmptyMultiset(b);
    } else {
      var x := a[0];
      assert x in multiset(a);
      var i :| 0 <= i < |b| && b[i] == x;
      var one, before, after := [x], b[..i], b[i + 1..];
      assert a == one + a[1..] && b == before + (one + after);
      RemoveOne(a[1..], before, after, x);
      ExpandPermuted(f, a[1..], before + after);
      ExpandAppend(f, before, after);
      ExpandAppend(f, before, one + after);
      ExpandAppend(f, one, after);
      ExpandAppend(f, one, a[1..]);
    }
  }

  lemma {:induction false} EmptyMultiset(b: seq<Row>)
    requires multiset(b) == multiset{}
    ensures b == []
  {
    assert |multiset(b)| == |b|;
  }

  lemma {:induction false} SelectIsExpand(conds: seq<Condition>, schema: Schema, rows: seq<Row>, f: Row -> seq<Row>)
    requires forall r :: f(r) == if Accepts(conds, schema, r) then [r] else []
    ensures Select(conds, schema, rows) == Expand(f, rows)
  {
    if rows != [] {
      SelectIsExpand(conds, schema, rows[1..], f);
    }
  }

  lemma {:induction false} JoinIsExpand(ls: seq<Row>, rs: seq<Row>, li: nat, ri: nat, same: Match, f: Row -> seq<Row>)
    requires forall l :: f(l) == MatchesOf(l, rs, li, ri, same)
    ensures Join(ls, rs, li, ri, same) == Expand(f, ls)
  {
    if ls != [] {
      JoinIsExpand(ls[1..], rs, li, ri, same, f);
    }
  }

  lemma {:induction false} SelectPermuted(conds: seq<Condition>, schema: Schema, a: seq<Row>, b: seq<Row>)
    requires multiset(a) == multiset(b)
    ensures multiset(Select(conds, schema, a)) == multiset(Select(conds, schema, b))
  {
    var f: Row -> seq<Row> := r => if Accepts(conds, schema, r) then [r] else [];
    SelectIsExpand(conds, schema, a, f);
    SelectIsExpand(conds, schema, b, f);
    ExpandPermuted(f, a, b);
  }

  lemma {:induction false} JoinRowsPermuted(a: seq<Row>, b: seq<Row>, schema: Schema, j: JoinClause)
    requires multiset(a) == multiset(b)
    ensures var x, y := JoinRows(a, schema, j), JoinRows(b, schema, j);
            (x.Ok? <==> y.Ok?) && (x.Ok? ==> multiset(x.value) == multiset(y.value))
  {
    var li, ri := ColumnIndex(schema, j.leftCol), ColumnIndex(j.schema, j.rightCol);
    if li.Some? && ri.Some? {
      var f: Row -> seq<Row> := l => MatchesOf(l, j.rows, li.value, ri.value, MatchFor(j));
      JoinIsExpand(a, j.rows, li.value, ri.value, MatchFor(j), f);
      JoinIsExpand(b, j.rows, li.value, ri.value, MatchFor(j), f);
      ExpandPermuted(f, a, b);
    } else if a == [] {
      EmptyMultiset(b);
    } else {
      assert a[0] in multiset(a);
    }
  }

  lemma {:induction false} JoinAllPermuted(a: seq<Row>, b: seq<Row>, schema: Schema, joins: seq<JoinClause>)
    requires multiset(a) == multiset(b)
    ensures var x, y := JoinAll(a, schema, joins), JoinAll(b, schema, joins);
            (x.Ok? <==> y.Ok?) && (x.Ok? ==> multiset(x.value) == multiset(y.value))
    decreases |joins|
  {
    if joins != [] {
      JoinRowsPermuted(a, b, schema, joins[0]);
      var x, y := JoinRows(a, schema, joins[0]), JoinRows(b, schema, joins[0]);
      if x.Ok? {
        JoinAllPermuted(x.value, y.value, schema + joins[0].schema, joins[1..]);
      }
    }
  }

  // ----- The whole plan

  /** What the chosen scan of the base table returns: all rows in order, or the rows of a key range in any order. */
  ghost predicate ScanOf(scan: seq<Row>, rows: seq<Row>, base: seq<Condition>, indexed: bool) {
    if indexed && BoundsOf(base).Some? then multiset(scan) == multiset(Restrict(rows, BoundsOf(base).value))
    else scan == rows
  }

  /**
   The plan returns the rows of joining everything and filtering last: the same multiset, and the
   same order when the index is not used. Only where the split loses the rows it returns none.
   */
  lemma {:induction false} PlanEquivalence(scan: seq<Row>, rows: seq<Row>, schema: Schema, joins: seq<JoinClause>,
                        conds: seq<Condition>, indexed: bool)
    requires RowsOf(rows, schema) && JoinsTyped(joins)
    requires indexed && BoundsOf(SplitOf(conds, schema).base).Some? ==>
               IndexReadable(schema) && KeyedRows(rows, schema)
    requires ScanOf(scan, rows, SplitOf(conds, schema).base, indexed)
    requires ReferenceRows(rows, schema, joins, conds).Ok?
    ensures var plan, reference := PlanRows(scan, schema, joins, conds), ReferenceRows(rows, schema, joins, conds);
            && plan.Ok?
            && (LosesRows(conds, schema, FullSchema(schema, joins)) ==> plan.value == [])
            && (!LosesRows(conds, schema, FullSchema(schema, joins)) ==>
                  && multiset(plan.value) == multiset(reference.value)
                  && (!indexed || BoundsOf(SplitOf(conds, schema).base).None? ==> plan == reference))
  {
    hide LosesRows;
    PushdownKeepsRows(rows, schema, joins, conds);
    BasePresent(conds, schema);
    var s, full := SplitOf(conds, schema), FullSchema(schema, joins);
    if indexed && BoundsOf(s.base).Some? {
      SelectRestricted(s.base, schema, rows);
      SelectPermuted(s.base, schema, scan, Restrict(rows, BoundsOf(s.base).value));
      var a, b := Select(s.base, schema, scan), Select(s.base, schema, rows);
      JoinAllPermuted(a, b, schema, joins);
      PullIsJoinAll(a, schema, joins);
      PullIsJoinAll(b, schema, joins);
      SelectPermuted(s.remaining, full, JoinAll(a, schema, joins).value, JoinAll(b, schema, joins).value);
      if LosesRows(conds, schema, full) {
        LostRows(conds, schema, full, JoinAll(a, schema, joins).value);
      }
    }
  }

  // ----- The choice of join

  /** The join columns exist and no right row has a NULL key. */
  ghost predicate KeysExist(schema: Schema, joins: seq<JoinClause>)
    decreases |joins|
  {
    joins != [] ==>
      var j := joins[0];
      && ColumnIndex(schema, j.leftCol).Some?
      && ColumnIndex(j.schema, j.rightCol).Some?
      && var ri := ColumnIndex(j.schema, j.rightCol).value;
      && (forall r :: r in j.rows && ri < |r| ==> r[ri] != Null)
      && KeysExist(schema + j.schema, joins[1..])
  }

  /** Tables of any other size: the record counts decide nothing else. */
  ghost predicate SameTables(a: seq<JoinClause>, b: seq<JoinClause>) {
    |a| == |b| && forall i :: 0 <= i < |a| ==> a[i].(records := 0) == b[i].(records := 0)
  }

  /** With non-null keys the record counts that pick hash or nested-loop joins change neither rows nor order. */
  lemma {:induction false} JoinChoiceIrrelevant(rows: seq<Row>, schema: Schema, a: seq<JoinClause>, b: seq<JoinClause>)
    requires SameTables(a, b) && KeysExist(schema, a)
    ensures JoinAll(rows, schema, a).Ok? && JoinAll(rows, schema, a) == JoinAll(rows, schema, b)
    decreases |a|
  {
    if a != [] {
      var x, y := a[0], b[0];
      assert x.(records := 0) == y.(records := 0);
      var li, ri := ColumnIndex(schema, x.leftCol).value, ColumnIndex(x.schema, x.rightCol).value;
      JoinsAgreeIff(rows, x.rows, li, ri);
      assert SameTables(a[1..], b[1..]) by {
        assert forall i :: 0 <= i < |a| - 1 ==> a[1..][i] == a[i + 1] && b[1..][i] == b[i + 1];
      }
      JoinChoiceIrrelevant(JoinRows(rows, schema, x).value, schema + x.schema, a[1..], b[1..]);
    }
  }
}
