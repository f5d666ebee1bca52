/** WHERE evaluation: a left-to-right loop over conditions joined by AND and OR. */
module Predicate {
  import opened Storage
  import opened Values
  import opened Literals

  datatype DataType = IntegerType | VarcharType | BooleanType

  datatype Column = Column(name: string, dataType: DataType, nullable: bool)

  type Schema = seq<Column>
  type Row = seq<Value>

  datatype Operator = Eq | Neq | Gt | Gte | Lt | Lte
  datatype LogicOp = And | Or

  datatype Condition = Condition(column: string, op: Operator, text: string, next: Option<LogicOp>)

  /** `columns.iter().position(|c| c.name == name)`. */
  function ColumnIndex(schema: Schema, name: string): (r: Option<nat>)
    ensures r.Some? ==> r.value < |schema| && schema[r.value].name == name
    ensures r.Some? ==> forall i :: 0 <= i < r.value ==> schema[i].name != name
    ensures r.None? ==> forall i :: 0 <= i < |schema| ==> schema[i].name != name
  {
    if schema == [] then None
    else if schema[0].name == name then Some(0)
    else match ColumnIndex(schema[1..], name)
      case None => None
      case Some(i) => Some(i + 1)
  }

  // ----- One condition

  predicate Compares(less: bool, same: bool, op: Operator) {
    match op
    case Eq => same
    case Neq => !same
    case Gt => !less && !same
    case Gte => !less
    case Lt => less
    case Lte => less || same
  }

  predicate EvaluateIntCond(v: int, text: string, op: Operator) {
    match ParseI32(text)
    case None => false
    case Some(r) => Compares(v < r, v == r, op)
  }

  predicate EvaluateBoolCond(v: bool, text: string, op: Operator) {
    match ParseBool(text)
    case None => false
    case Some(r) =>
      match op
      case Eq => v == r
      case Neq => v != r
      case _ => false
  }

  predicate EvaluateStrCond(v: string, text: string, op: Operator) {
    Compares(StringLess(v, text), v == text, op)
  }

  predicate EvaluateValue(val: Value, text: string, op: Operator) {
    match val
    case Null => false
    case Integer(v) => EvaluateIntCond(v, text, op)
    case Boolean(v) => EvaluateBoolCond(v, text, op)
    case Varchar(v) => EvaluateStrCond(v, text, op)
  }

  predicate Present(c: Condition, schema: Schema) {
    ColumnIndex(schema, c.column).Some?
  }

  /** The truth of one condition on a row; a condition on a missing column has none. */
  predicate Matches(c: Condition, schema: Schema, row: Row)
    requires |row| == |schema|
  {
    match ColumnIndex(schema, c.column)
    case None => false
    case Some(i) => EvaluateValue(row[i], c.text, c.op)
  }

  /** The first column of that name is the i-th. */
  ghost predicate FirstColumn(schema: Schema, name: string, i: nat) {
    i < |schema| && schema[i].name == name && forall k :: 0 <= k < i ==> schema[k].name != name
  }

  ghost predicate HasColumn(schema: Schema, name: string) {
    exists c :: c in schema && c.name == name
  }

  lemma {:induction false} ColumnIndexIff(schema: Schema, name: string)
    ensures forall i: nat :: ColumnIndex(schema, name) == Some(i) <==> FirstColumn(schema, name, i)
    ensures ColumnIndex(schema, name).Some? <==> HasColumn(schema, name)
  {
    var r := ColumnIndex(schema, name);
    forall i: nat | FirstColumn(schema, name, i) ensures r == Some(i) {
      assert schema[i].name == name;
    }
  }

  // ----- What a condition and a clause mean

  ghost predicate IntHolds(v: int, op: Operator, r: int) {
    match op
    case Eq => v == r
    case Neq => v != r
    case Gt => v > r
    case Gte => v >= r
    case Lt => v < r
    case Lte => v <= r
  }

  ghost predicate StringHolds(v: string, op: Operator, r: string) {
    match op
    case Eq => v == r
    case Neq => v != r
    case Gt => Precedes(r, v)
    case Gte => v == r || Precedes(r, v)
    case Lt => Precedes(v, r)
    case Lte => v == r || Precedes(v, r)
  }

  function BoolText(b: bool): string {
    if b then "true" else "false"
  }

  /**
   An integer is compared with the 32-bit value the text writes, a boolean with `true` or `false` and
   only for equality, a string with the text itself; NULL meets no condition.
   */
  ghost predicate Satisfies(val: Value, op: Operator, text: string) {
    match val
    case Null => false
    case Integer(v) => exists r: int :: KEY_MIN <= r < KEY_END && WritesInt(text, r) && IntHolds(v, op, r)
    case Boolean(b) => (op == Eq && text == BoolText(b)) || (op == Neq && text == BoolText(!b))
    case Varchar(v) => StringHolds(v, op, text)
  }

  lemma {:induction false} EvaluateIff(val: Value, text: string, op: Operator)
    ensures EvaluateValue(val, text, op) <==> Satisfies(val, op, text)
  {
    hide ParseI32, WritesInt, StringLess, Precedes;
    match val
    case Null =>
    case Boolean(b) =>
    case Integer(v) =>
      var read := ParseI32(text);
      if read.Some? {
        ParseI32Iff(text, read.value);
      }
      if r: int :| KEY_MIN <= r < KEY_END && WritesInt(text, r) && IntHolds(v, op, r) {
        ParseI32Iff(text, r);
      }
    case Varchar(v) =>
      StringLessIff(v, text);
      StringLessIff(text, v);
      StringTotal(v, text);
      StringTotal(v, v);
  }

  /** With a number written out in decimal, every operator compares the numbers. */
  lemma {:induction false} IntegerCondition(v: int, op: Operator, r: Key)
    ensures EvaluateValue(Integer(v), Written(r), op) <==> IntHolds(v, op, r)
  {
    ParseWritten(r);
  }

  /** The row meets the condition: the first column of that name holds a value that satisfies it. */
  ghost predicate Meets(c: Condition, schema: Schema, row: Row)
    requires |row| == |schema|
  {
    exists i: nat :: FirstColumn(schema, c.column, i) && Satisfies(row[i], c.op, c.text)
  }

  lemma {:induction false} MatchesIff(c: Condition, schema: Schema, row: Row)
    requires |row| == |schema|
    ensures Matches(c, schema, row) <==> Meets(c, schema, row)
  {
    hide EvaluateValue, Satisfies, FirstColumn, ColumnIndex;
    ColumnIndexIff(schema, c.column);
    var column := ColumnIndex(schema, c.column);
    if column.Some? {
      EvaluateIff(row[column.value], c.text, c.op);
    }
  }

  /** The conditions from a up to b are joined by AND and stand between ORs, or the ends of the list. */
  ghost predicate GroupAt(conds: seq<Condition>, a: nat, b: nat) {
    && a < b <= |conds|
    && (a == 0 || conds[a - 1].next == Some(Or))
    && (b == |conds| || conds[b - 1].next == Some(Or))
    && forall i :: a <= i < b - 1 ==> conds[i].next != Some(Or)
  }

  /** The row meets every condition of some group. */
  ghost predicate SomeGroupMet(conds: seq<Condition>, schema: Schema, row: Row)
    requires |row| == |schema|
  {
    exists a: nat, b: nat :: GroupAt(conds, a, b) && forall i :: a <= i < b ==> Meets(conds[i], schema, row)
  }

  // ----- The clause

  /** The length of the leading group of conditions joined by AND. */
  function GroupLength(conds: seq<Condition>): (n: nat)
    requires conds != []
    ensures 0 < n <= |conds|
    ensures forall i :: 0 <= i < n - 1 ==> conds[i].next != Some(Or)
    ensures n < |conds| ==> conds[n - 1].next == Some(Or)
  {
    if conds[0].next == Some(Or) || |conds| == 1 then 1 else 1 + GroupLength(conds[1..])
  }

  /** Some group of conditions joined by AND holds entirely. */
  predicate SomeGroupHolds(conds: seq<Condition>, schema: Schema, row: Row)
    requires |row| == |schema|
    decreases |conds|
  {
    conds != [] &&
    var n := GroupLength(conds);
    (forall i :: 0 <= i < n ==> Matches(conds[i], schema, row)) || SomeGroupHolds(conds[n..], schema, row)
  }

  lemma {:induction false} SomeGroupIff(conds: seq<Condition>, schema: Schema, row: Row)
    requires |row| == |schema|
    ensures SomeGroupHolds(conds, schema, row) <==> SomeGroupMet(conds, schema, row)
    decreases |conds|
  {
    hide Matches, Meets, SomeGroupMet;
    if conds != [] {
      var n := GroupLength(conds);
      SomeGroupIff(conds[n..], schema, row);
      FirstGroupOrLater(conds, n, schema, row);
      forall i | 0 <= i < n ensures Matches(conds[i], schema, row) <==> Meets(conds[i], schema, row) {
        MatchesIff(conds[i], schema, row);
      }
    } else {
      NoGroup(schema, row);
    }
  }

  lemma {:induction false} NoGroup(schema: Schema, row: Row)
    requires |row| == |schema|
    ensures !SomeGroupMet([], schema, row)
  {
  }

  /** A group is the first one or a group of the rest. */
  lemma {:induction false} FirstGroupOrLater(conds: seq<Condition>, n: nat, schema: Schema, row: Row)
    requires |row| == |schema| && GroupAt(conds, 0, n)
    ensures SomeGroupMet(conds, schema, row) <==>
              (forall i :: 0 <= i < n ==> Meets(conds[i], schema, row)) || SomeGroupMet(conds[n..], schema, row)
  {
    hide Meets;
    var rest := conds[n..];
    if a: nat, b: nat :| GroupAt(rest, a, b) && forall i :: a <= i < b ==> Meets(rest[i], schema, row) {
      assert GroupAt(conds, n + a, n + b);
      assert forall i :: n + a <= i < n + b ==> conds[i] == rest[i - n];
    }
    if a: nat, b: nat :| GroupAt(conds, a, b) && forall i :: a <= i < b ==> Meets(conds[i], schema, row) {
      if a == 0 {
        assert b == n;
      } else {
        assert GroupAt(rest, a - n, b - n);
      }
    }
  }

  /** The meaning of a WHERE list: an OR of AND-groups; the empty list holds. */
  predicate WhereHolds(conds: seq<Condition>, schema: Schema, row: Row)
    requires |row| == |schema|
  {
    conds == [] || SomeGroupHolds(conds, schema, row)
  }

  /** The loop of evaluate_where_clause from some point on: the result so far and the open group. */
  predicate Fold(conds: seq<Condition>, schema: Schema, row: Row, result: bool, group: bool)
    requires |row| == |schema|
  {
    if conds == [] then result
    else if !Present(conds[0], schema) then Fold(conds[1..], schema, row, result, group)
    else
      var g := group && Matches(conds[0], schema, row);
      if conds[0].next == Some(Or) then Fold(conds[1..], schema, row, result || g, true)
      else if |conds| == 1 then result || g
      else Fold(conds[1..], schema, row, result, g)
  }

  method EvaluateWhereClause(conds: seq<Condition>, schema: Schema, row: Row) returns (r: bool)
    requires |row| == |schema|
    ensures r == if conds == [] then true else Fold(conds, schema, row, false, true)
    ensures (forall c :: c in conds ==> Present(c, schema)) ==> r == WhereHolds(conds, schema, row)
    ensures conds != [] ==> r == SomeGroupMet(Counted(conds, schema), schema, row)
    ensures (forall c :: c in conds ==> Present(c, schema)) ==> r == (conds == [] || SomeGroupMet(conds, schema, row))
  {
    if conds == [] {
      return true;
    }
    var result, group := false, true;
    for i := 0 to |conds|
      invariant Fold(conds[i..], schema, row, result, group) == Fold(conds, schema, row, false, true)
    {
      var cond := conds[i];
      assert conds[i..][0] == cond && conds[i..][1..] == conds[i + 1..];
      var column := ColumnIndex(schema, cond.column);
      if column.Some? {
        var isMatch := EvaluateValue(row[column.value], cond.text, cond.op);
        group := group && isMatch;
        if cond.next == Some(Or) {
          result := result || group;
          group := true;
        } else if i == |conds| - 1 {
          result := result || group;
        }
      }
    }
    if forall c :: c in conds ==> Present(c, schema) {
      FoldIsGroups(conds, schema, row, false);
      SomeGroupIff(conds, schema, row);
    }
    ClauseMeaning(conds, schema, row);
    return result;
  }

  /** With every column present, the loop decides the OR of AND-groups. */
  lemma {:induction false} FoldIsGroups(conds: seq<Condition>, schema: Schema, row: Row, result: bool)
    requires |row| == |schema| && forall c :: c in conds ==> Present(c, schema)
    ensures Fold(conds, schema, row, result, true) == (result || SomeGroupHolds(conds, schema, row))
    decreases |conds|
  {
    if conds != [] {
      var n := GroupLength(conds);
      FoldGroup(conds, schema, row, result, true, n);
      var all := forall i :: 0 <= i < n ==> Matches(conds[i], schema, row);
      FoldIsGroups(conds[n..], schema, row, result || all);
    }
  }

  /** Running the loop over one whole AND-group. */
  lemma {:induction false} FoldGroup(conds: seq<Condition>, schema: Schema, row: Row, result: bool, group: bool, n: nat)
    requires |row| == |schema| && conds != [] && n == GroupLength(conds)
    requires forall c :: c in conds ==> Present(c, schema)
    ensures var all := group && forall i :: 0 <= i < n ==> Matches(conds[i], schema, row);
            Fold(conds, schema, row, result, group) == Fold(conds[n..], schema, row, result || all, true)
    decreases |conds|
  {
    var tail := conds[1..];
    if n == 1 {
      if |conds| == 1 {
        assert conds[1..] == [];
      }
    } else {
      var g := group && Matches(conds[0], schema, row);
      FoldGroup(tail, schema, row, result, g, n - 1);
      assert tail[n - 1..] == conds[n..];
      assert (forall i :: 0 <= i < n ==> Matches(conds[i], schema, row)) <==>
             Matches(conds[0], schema, row) && forall i :: 0 <= i < n - 1 ==> Matches(tail[i], schema, row) by {
        assert forall i :: 0 < i < n ==> conds[i] == tail[i - 1];
      }
    }
  }

  // ----- Conditions on missing columns

  /** The conditions whose column exists; a skipped condition takes its connective with it. */
  function Effective(conds: seq<Condition>, schema: Schema): (r: seq<Condition>)
    ensures forall c :: c in r ==> Present(c, schema)
  {
    if conds == [] then []
    else if Present(conds[0], schema) then [conds[0]] + Effective(conds[1..], schema)
    else Effective(conds[1..], schema)
  }

  /** The conditions up to and including the last OR. */
  function ClosedPrefix(conds: seq<Condition>): (r: seq<Condition>)
    ensures forall c :: c in r ==> c in conds
  {
    if conds == [] then []
    else
      var tail := ClosedPrefix(conds[1..]);
      if tail != [] || conds[0].next == Some(Or) then [conds[0]] + tail else []
  }

  /** The conditions that count: those on existing columns, without the last group if its end is missing. */
  function Counted(conds: seq<Condition>, schema: Schema): (r: seq<Condition>)
    requires conds != []
    ensures forall c :: c in r ==> Present(c, schema)
  {
    var eff := Effective(conds, schema);
    if Present(conds[|conds| - 1], schema) then eff else ClosedPrefix(eff)
  }

  lemma {:induction false} FoldSkips(conds: seq<Condition>, schema: Schema, row: Row, result: bool, group: bool)
    requires |row| == |schema| && conds != []
    ensures Present(conds[|conds| - 1], schema) ==> Effective(conds, schema) != []
    ensures Fold(conds, schema, row, result, group) ==
              if Present(conds[|conds| - 1], schema) then Fold(Effective(conds, schema), schema, row, result, group)
              else Fold(ClosedPrefix(Effective(conds, schema)), schema, row, result, group)
    decreases |conds|
  {
    var c, tail := conds[0], conds[1..];
    var eff := Effective(conds, schema);
    if tail == [] {
      assert Effective(tail, schema) == [];
      if Present(c, schema) {
        assert eff == [c] && eff[1..] == [];
      }
    } else {
      var effTail := Effective(tail, schema);
      assert tail[|tail| - 1] == conds[|conds| - 1];
      if Present(c, schema) {
        assert eff == [c] + effTail && eff[1..] == effTail;
        var g := group && Matches(c, schema, row);
        if c.next == Some(Or) {
          FoldSkips(tail, schema, row, result || g, true);
        } else {
          FoldSkips(tail, schema, row, result, g);
        }
        ClosedPrefixStep(c, effTail, schema, row, result, group);
      } else {
        FoldSkips(tail, schema, row, result, group);
        assert eff == effTail;
      }
    }
  }

  lemma {:induction false} ClosedPrefixStep(c: Condition, tail: seq<Condition>, schema: Schema, row: Row,
      result: bool, group: bool)
    requires |row| == |schema| && Present(c, schema)
    ensures var g := group && Matches(c, schema, row);
            Fold(ClosedPrefix([c] + tail), schema, row, result, group) ==
              if c.next == Some(Or) then Fold(ClosedPrefix(tail), schema, row, result || g, true)
              else Fold(ClosedPrefix(tail), schema, row, result, g)
  {
    assert ([c] + tail)[1..] == tail;
    var rest := ClosedPrefix(tail);
    assert ([c] + rest)[1..] == rest;
  }

  /**
   What the clause decides in full generality: conditions on missing columns are skipped, and
   when the last condition is one of them the AND-group it would have closed is lost.
   */
  lemma {:induction false} WhereWithMissingColumns(conds: seq<Condition>, schema: Schema, row: Row)
    requires |row| == |schema| && conds != []
    ensures Fold(conds, schema, row, false, true) == SomeGroupHolds(Counted(conds, schema), schema, row)
  {
    FoldSkips(conds, schema, row, false, true);
    FoldIsGroups(Counted(conds, schema), schema, row, false);
  }

  lemma {:induction false} ClauseMeaning(conds: seq<Condition>, schema: Schema, row: Row)
    requires |row| == |schema|
    ensures conds != [] ==>
              Fold(conds, schema, row, false, true) == SomeGroupMet(Counted(conds, schema), schema, row)
  {
    hide Fold, Counted, SomeGroupHolds, SomeGroupMet;
    if conds != [] {
      WhereWithMissingColumns(conds, schema, row);
      SomeGroupIff(Counted(conds, schema), schema, row);
    }
  }
}
