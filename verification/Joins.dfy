/**
 The two equi-join executors. Each pulls one combined row at a time; both are proved against
 a list-level join, and the list-level joins agree exactly when no NULL meets a NULL.
 */
module Joins {
  import opened Storage
  import opened Values
  import opened Predicate

  datatype QueryError = ColumnNotFound(name: string)

  /** The nested loop's predicate: equal values of one type; NULL equals nothing. */
  predicate LoopMatch(l: Value, r: Value) {
    SameType(l, r) && l == r
  }

  /** The hash table's key equality: NULL equals NULL. */
  predicate HashMatch(l: Value, r: Value) {
    l == r
  }

  type Match = (Value, Value) -> bool

  predicate Hits(l: Row, r: Row, li: nat, ri: nat, same: Match) {
    li < |l| && ri < |r| && same(l[li], r[ri])
  }

  /** The combined rows of one left row, in the order of the right rows. */
  function MatchesOf(l: Row, rs: seq<Row>, li: nat, ri: nat, same: Match): seq<Row> {
    if rs == [] then []
    else (if Hits(l, rs[0], li, ri, same) then [l + rs[0]] else []) + MatchesOf(l, rs[1..], li, ri, same)
  }

  /** All combined rows: left rows in order, each with its matches in order. */
  function Join(ls: seq<Row>, rs: seq<Row>, li: nat, ri: nat, same: Match): seq<Row> {
    if ls == [] then [] else MatchesOf(ls[0], rs, li, ri, same) + Join(ls[1..], rs, li, ri, same)
  }

  lemma {:induction false} MatchesStep(l: Row, rs: seq<Row>, i: nat, li: nat, ri: nat, same: Match)
    requires i < |rs|
    ensures MatchesOf(l, rs[i..], li, ri, same) ==
              (if Hits(l, rs[i], li, ri, same) then [l + rs[i]] else []) + MatchesOf(l, rs[i + 1..], li, ri, same)
  {
    assert rs[i..][0] == rs[i] && rs[i..][1..] == rs[i + 1..];
  }

  lemma {:induction false} JoinStep(ls: seq<Row>, i: nat, rs: seq<Row>, li: nat, ri: nat, same: Match)
    requires i < |ls|
    ensures Join(ls[i..], rs, li, ri, same) == MatchesOf(ls[i], rs, li, ri, same) + Join(ls[i + 1..], rs, li, ri, same)
  {
    assert ls[i..][0] == ls[i] && ls[i..][1..] == ls[i + 1..];
  }

  lemma {:induction false} NothingLeft(l: Row, rs: seq<Row>, li: nat, ri: nat, same: Match)
    ensures MatchesOf(l, [], li, ri, same) == [] && Join([], rs, li, ri, same) == []
  {
  }

  // ----- Nested loop

  class NestedLoopJoin {
    /** What the two children return, and how much of the left one has been pulled. */
    const left: seq<Row>
    const right: seq<Row>
    const leftSchema: Schema
    const rightSchema: Schema
    const leftCol: string
    const rightCol: string
    var leftPos: nat

    var leftRow: Option<Row>
    var rightRows: Option<seq<Row>>
    var rightIndex: nat

    /** The rows still to come. */
    ghost function Remaining(): seq<Row>
      requires leftPos <= |left| && rightIndex <= |right|
      reads this
    {
      match (ColumnIndex(leftSchema, leftCol), ColumnIndex(rightSchema, rightCol))
      case (Some(li), Some(ri)) =>
        if rightRows.None? then Join(left, right, li, ri, LoopMatch)
        else if leftRow.None? then []
        else MatchesOf(leftRow.value, right[rightIndex..], li, ri, LoopMatch)
             + Join(left[leftPos..], right, li, ri, LoopMatch)
      case _ => []
    }

    ghost predicate Valid()
      reads this
    {
      && leftPos <= |left| && rightIndex <= |right|
      && (rightRows.None? ==> leftPos == 0 && rightIndex == 0)
      && (rightRows.Some? ==> rightRows.value == right)
      && (leftRow.None? && rightRows.Some? ==> leftPos == |left|)
    }

    constructor (left: seq<Row>, right: seq<Row>, leftSchema: Schema, rightSchema: Schema,
                 leftCol: string, rightCol: string)
      ensures Valid() && rightRows == None
      ensures this.left == left && this.right == right && this.leftCol == leftCol && this.rightCol == rightCol
      ensures this.leftSchema == leftSchema && this.rightSchema == rightSchema
    {
      this.left, this.right, this.leftSchema, this.rightSchema := left, right, leftSchema, rightSchema;
      this.leftCol, this.rightCol := leftCol, rightCol;
      leftPos, leftRow, rightRows, rightIndex := 0, None, None, 0;
    }

    method PullLeft()
      requires leftPos <= |left|
      modifies this`leftRow, this`leftPos
      ensures leftPos <= |left|
      ensures old(leftPos) < |left| ==> leftRow == Some(left[old(leftPos)]) && leftPos == old(leftPos) + 1
      ensures old(leftPos) == |left| ==> leftRow == None && leftPos == old(leftPos)
    {
      if leftPos < |left| {
        leftRow := Some(left[leftPos]);
        leftPos := leftPos + 1;
      } else {
        leftRow := None;
      }
    }

    /** The closure built by the planner: false when a column is missing. */
    predicate Predicate(l: Row, r: Row) {
      match (ColumnIndex(leftSchema, leftCol), ColumnIndex(rightSchema, rightCol))
      case (Some(li), Some(ri)) => Hits(l, r, li, ri, LoopMatch)
      case _ => false
    }

    method Next() returns (r: Option<Row>)
      requires Valid()
      modifies this
      ensures Valid() && rightRows.Some?
      ensures r.Some? ==> old(Remaining()) == [r.value] + Remaining()
      ensures r.None? ==> old(Remaining()) == [] && Remaining() == []
    {
      hide Remaining, Predicate;
      if rightRows.None? {
        Start();
      }
      while true
        invariant Valid() && rightRows.Some?
        invariant Remaining() == old(Remaining())
        decreases leftRow.Some?, |left| - leftPos, |right| - rightIndex
      {
        if leftRow.None? {
          Finished();
          return None;
        }
        var l := leftRow.value;
        if rightIndex < |rightRows.value| {
          var row := rightRows.value[rightIndex];
          var hit := NextRight();
          if hit {
            return Some(l + row);
          }
        } else {
          NextLeft();
        }
      }
    }

    lemma {:induction false} Finished()
      requires Valid() && rightRows.Some? && leftRow.None?
      ensures Remaining() == []
    {
    }

    /** Looks at the next right row. */
    method NextRight() returns (hit: bool)
      requires Valid() && rightRows.Some? && leftRow.Some? && rightIndex < |right|
      modifies this`rightIndex
      ensures Valid() && rightIndex == old(rightIndex) + 1
      ensures hit == Predicate(leftRow.value, right[old(rightIndex)])
      ensures old(Remaining()) == (if hit then [leftRow.value + right[old(rightIndex)]] else []) + Remaining()
    {
      hit := Predicate(leftRow.value, rightRows.value[rightIndex]);
      ghost var li, ri := ColumnIndex(leftSchema, leftCol), ColumnIndex(rightSchema, rightCol);
      if li.Some? && ri.Some? {
        MatchesStep(leftRow.value, right, rightIndex, li.value, ri.value, LoopMatch);
      }
      rightIndex := rightIndex + 1;
    }

    /** The first call materializes the right side and pulls the first left row. */
    method Start()
      requires Valid() && rightRows.None?
      modifies this`rightRows, this`leftRow, this`leftPos
      ensures Valid() && rightRows.Some? && Remaining() == old(Remaining())
    {
      hide ColumnIndex, Hits;
      rightRows := Some(right);
      PullLeft();
      assert right[0..] == right && left[0..] == left;
    }

    /** The right side is exhausted: go on with the next left row. */
    method NextLeft()
      requires Valid() && rightRows.Some? && leftRow.Some? && rightIndex == |right|
      modifies this`rightIndex, this`leftRow, this`leftPos
      ensures Valid() && Remaining() == old(Remaining())
      ensures leftRow.None? || leftPos == old(leftPos) + 1
    {
      hide ColumnIndex, Hits, MatchesOf, Join;
      assert right[rightIndex..] == [] && right[0..] == right && left[|left|..] == [];
      ghost var li, ri := ColumnIndex(leftSchema, leftCol), ColumnIndex(rightSchema, rightCol);
      if li.Some? && ri.Some? {
        NothingLeft(leftRow.value, right, li.value, ri.value, LoopMatch);
        if leftPos < |left| {
          JoinStep(left, leftPos, right, li.value, ri.value, LoopMatch);
        }
      }
      PullLeft();
      rightIndex := 0;
    }

    /** Pulling until the end. */
    method Drain() returns (rows: seq<Row>)
      requires Valid()
      modifies this
      ensures rows == old(Remaining())
    {
      hide Remaining;
      rows := [];
      var r := Next();
      while r.Some?
        invariant Valid()
        invariant r.Some? ==> rows + ([r.value] + Remaining()) == old(Remaining())
        invariant r.None? ==> rows == old(Remaining())
        decreases |Remaining()|, r.Some?
      {
        ghost var rest := Remaining();
        ghost var before := rows;
        rows := rows + [r.value];
        assert rows + rest == before + ([r.value] + rest);
        r := Next();
      }
    }
  }

  // ----- Hash join

  /** The right rows with key v, in order: one bucket of the hash table. */
  function Bucket(rs: seq<Row>, ri: nat, v: Value): seq<Row> {
    if rs == [] then []
    else
      var last := rs[|rs| - 1];
      Bucket(rs[..|rs| - 1], ri, v) + (if ri < |last| && last[ri] == v then [last] else [])
  }

  /** The table holds exactly the buckets of the keys that occur. */
  ghost predicate TableOf(table: map<Value, seq<Row>>, rs: seq<Row>, ri: nat) {
    forall v :: (v in table <==> Bucket(rs, ri, v) != []) && (v in table ==> table[v] == Bucket(rs, ri, v))
  }

  function AddToTable(table: map<Value, seq<Row>>, row: Row, ri: nat): map<Value, seq<Row>> {
    if ri < |row| then table[row[ri] := (if row[ri] in table then table[row[ri]] else []) + [row]] else table
  }

  lemma {:induction false} AddToTableStep(t: map<Value, seq<Row>>, rs: seq<Row>, i: nat, ri: nat)
    requires i < |rs| && TableOf(t, rs[..i], ri)
    ensures TableOf(AddToTable(t, rs[i], ri), rs[..i + 1], ri)
  {
    assert rs[..i + 1][..i] == rs[..i] && rs[..i + 1][i] == rs[i];
  }

  function Combine(l: Row, rs: seq<Row>): seq<Row> {
    if rs == [] then [] else [l + rs[0]] + Combine(l, rs[1..])
  }

  lemma {:induction false} CombineStep(l: Row, rs: seq<Row>, i: nat)
    requires i < |rs|
    ensures Combine(l, rs[i..]) == [l + rs[i]] + Combine(l, rs[i + 1..])
  {
    assert rs[i..][0] == rs[i] && rs[i..][1..] == rs[i + 1..];
  }

  lemma {:induction false} CombineAppend(l: Row, a: seq<Row>, b: seq<Row>)
    ensures Combine(l, a + b) == Combine(l, a) + Combine(l, b)
  {
    if a == [] {
      assert a + b == b;
    } else {
      assert (a + b)[1..] == a[1..] + b;
      CombineAppend(l, a[1..], b);
    }
  }

  lemma {:induction false} MatchesAppend(l: Row, a: seq<Row>, b: seq<Row>, li: nat, ri: nat, same: Match)
    ensures MatchesOf(l, a + b, li, ri, same) == MatchesOf(l, a, li, ri, same) + MatchesOf(l, b, li, ri, same)
  {
    if a == [] {
      assert a + b == b;
    } else {
      assert (a + b)[1..] == a[1..] + b;
      MatchesAppend(l, a[1..], b, li, ri, same);
    }
  }

  /** Looking a left row up in the table finds its matches, in order. */
  lemma {:induction false} BucketIsMatches(l: Row, rs: seq<Row>, li: nat, ri: nat)
    requires li < |l|
    ensures MatchesOf(l, rs, li, ri, HashMatch) == Combine(l, Bucket(rs, ri, l[li]))
  {
    if rs != [] {
      var init, last := rs[..|rs| - 1], rs[|rs| - 1];
      BucketIsMatches(l, init, li, ri);
      assert rs == init + [last];
      MatchesAppend(l, init, [last], li, ri, HashMatch);
      var one := [last];
      assert one[1..] == [];
      CombineAppend(l, Bucket(init, ri, l[li]), if Hits(l, last, li, ri, HashMatch) then [last] else []);
    }
  }

  lemma {:induction false} NoKeyNoMatches(l: Row, rs: seq<Row>, li: nat, ri: nat, same: Match)
    requires li >= |l|
    ensures MatchesOf(l, rs, li, ri, same) == []
  {
    if rs != [] {
      NoKeyNoMatches(l, rs[1..], li, ri, same);
    }
  }

  lemma {:induction false} LookupIsMatches(table: map<Value, seq<Row>>, l: Row, rs: seq<Row>, li: nat, ri: nat)
    requires TableOf(table, rs, ri)
    ensures var found := if li < |l| && l[li] in table then table[l[li]] else [];
            MatchesOf(l, rs, li, ri, HashMatch) == Combine(l, found)
  {
    if li < |l| {
      BucketIsMatches(l, rs, li, ri);
    } else {
      NoKeyNoMatches(l, rs, li, ri, HashMatch);
    }
  }

  class HashJoin {
    const left: seq<Row>
    const right: seq<Row>
    const leftSchema: Schema
    const rightSchema: Schema
    const leftCol: string
    const rightCol: string
    var leftPos: nat

    var table: Option<map<Value, seq<Row>>>
    var currentLeft: Option<Row>
    var currentMatches: seq<Row>
    var matchIndex: nat

    ghost predicate BothColumns() {
      ColumnIndex(leftSchema, leftCol).Some? && ColumnIndex(rightSchema, rightCol).Some?
    }

    /** The rows still to come, when both columns exist. */
    ghost function Remaining(): seq<Row>
      requires leftPos <= |left| && matchIndex <= |currentMatches|
      reads this`leftPos, this`currentLeft, this`currentMatches, this`matchIndex
    {
      match (ColumnIndex(leftSchema, leftCol), ColumnIndex(rightSchema, rightCol))
      case (Some(li), Some(ri)) =>
        (if currentLeft.Some? then Combine(currentLeft.value, currentMatches[matchIndex..]) else [])
        + Join(left[leftPos..], right, li, ri, HashMatch)
      case _ => []
    }

    ghost predicate TableBuilt()
      reads this`table
    {
      table.Some? ==>
        var ri := ColumnIndex(rightSchema, rightCol);
        ri.Some? && TableOf(table.value, right, ri.value)
    }

    ghost predicate Valid()
      reads this
    {
      && leftPos <= |left| && matchIndex <= |currentMatches|
      && (currentLeft.None? ==> currentMatches == [])
      && (table.None? ==> leftPos == 0 && currentLeft.None?)
      && TableBuilt()
    }

    constructor (left: seq<Row>, right: seq<Row>, leftSchema: Schema, rightSchema: Schema,
                 leftCol: string, rightCol: string)
      ensures Valid() && table == None && leftPos == 0 && currentLeft == None
      ensures this.left == left && this.right == right && this.leftCol == leftCol && this.rightCol == rightCol
      ensures this.leftSchema == leftSchema && this.rightSchema == rightSchema
    {
      this.left, this.right, this.leftSchema, this.rightSchema := left, right, leftSchema, rightSchema;
      this.leftCol, this.rightCol := leftCol, rightCol;
      leftPos, table, currentLeft, currentMatches, matchIndex := 0, None, None, [], 0;
    }

    method BuildHashTable() returns (r: Result<(), QueryError>)
      requires Valid() && table.None?
      modifies this`table
      ensures Valid()
      ensures r == (if ColumnIndex(rightSchema, rightCol).Some? then Ok(()) else Err(ColumnNotFound(rightCol)))
      ensures r.Ok? <==> table.Some?
    {
      var column := ColumnIndex(rightSchema, rightCol);
      if column.None? {
        return Err(ColumnNotFound(rightCol));
      }
      var ri := column.value;
      var t: map<Value, seq<Row>> := map[];
      for i := 0 to |right|
        invariant TableOf(t, right[..i], ri)
      {
        AddToTableStep(t, right, i, ri);
        t := AddToTable(t, right[i], ri);
      }
      assert right[..|right|] == right;
      table := Some(t);
      return Ok(());
    }

    /** A pending match of the current left row. */
    method NextMatch() returns (row: Row)
      requires Valid() && table.Some? && matchIndex < |currentMatches|
      modifies this`matchIndex
      ensures Valid() && matchIndex == old(matchIndex) + 1
      ensures BothColumns() ==> old(Remaining()) == [row] + Remaining()
    {
      hide ColumnIndex, MatchesOf, Join, Bucket;
      row := currentLeft.value + currentMatches[matchIndex];
      CombineStep(currentLeft.value, currentMatches, matchIndex);
      matchIndex := matchIndex + 1;
    }

    /** The matches are used up. */
    method ClearMatches()
      requires Valid() && matchIndex == |currentMatches|
      modifies this`currentMatches, this`matchIndex
      ensures Valid() && currentMatches == [] && matchIndex == 0 && Remaining() == old(Remaining())
    {
      assert currentMatches[matchIndex..] == [];
      currentMatches, matchIndex := [], 0;
    }

    /** Looks the next left row up in the table. */
    method NextLeft(li: nat)
      requires Valid() && table.Some? && currentMatches == [] && leftPos < |left|
      requires ColumnIndex(leftSchema, leftCol) == Some(li)
      modifies this`currentMatches, this`matchIndex, this`leftPos, this`currentLeft
      ensures Valid() && leftPos == old(leftPos) + 1
      ensures Remaining() == old(Remaining())
    {
      hide Bucket, ColumnIndex, MatchesOf, Join;
      var l := left[leftPos];
      ghost var ri := ColumnIndex(rightSchema, rightCol).value;
      JoinStep(left, leftPos, right, li, ri, HashMatch);
      leftPos := leftPos + 1;
      matchIndex := 0;
      LookupIsMatches(table.value, l, right, li, ri);
      if li < |l| && l[li] in table.value {
        currentMatches := table.value[l[li]];
      }
      assert currentMatches[0..] == currentMatches;
      currentLeft := Some(l);
    }

    lemma {:induction false} HasColumn()
      requires Valid() && table.Some?
      ensures ColumnIndex(rightSchema, rightCol).Some?
    {
    }

    lemma {:induction false} Finished()
      requires Valid() && currentMatches == [] && leftPos == |left|
      ensures Remaining() == []
    {
    }

    method Next() returns (r: Result<Option<Row>, QueryError>)
      requires Valid()
      modifies this
      ensures Valid()
      ensures ColumnIndex(rightSchema, rightCol).None? ==> r == Err(ColumnNotFound(rightCol))
      ensures ColumnIndex(rightSchema, rightCol).Some? && ColumnIndex(leftSchema, leftCol).None?
              && old(currentLeft).None? ==>
                r == if old(leftPos) < |left| then Err(ColumnNotFound(leftCol)) else Ok(None)
      ensures BothColumns() ==> r.Ok?
      ensures BothColumns() && r.Ok? && r.value.Some? ==> old(Remaining()) == [r.value.value] + Remaining()
      ensures BothColumns() && r.Ok? && r.value.None? ==> old(Remaining()) == [] && Remaining() == []
    {
      hide Remaining, TableBuilt;
      if table.None? {
        var built := BuildHashTable();
        if built.Err? {
          return Err(built.error);
        }
      }
      HasColumn();
      while true
        invariant Valid() && table.Some? && leftPos >= old(leftPos)
        invariant Remaining() == old(Remaining())
        invariant ColumnIndex(leftSchema, leftCol).None? && old(currentLeft).None? ==>
                    currentLeft.None? && leftPos == old(leftPos)
        decreases |left| - leftPos
      {
        if matchIndex < |currentMatches| {
          var row := NextMatch();
          return Ok(Some(row));
        }
        ClearMatches();
        if leftPos == |left| {
          Finished();
          return Ok(None);
        }
        var column := ColumnIndex(leftSchema, leftCol);
        if column.None? {
          leftPos := leftPos + 1;
          return Err(ColumnNotFound(leftCol));
        }
        NextLeft(column.value);
      }
    }

    method Drain() returns (rows: Result<seq<Row>, QueryError>)
      requires Valid() && table == None
      modifies this
      ensures BothColumns() ==> rows == Ok(old(Remaining()))
      ensures ColumnIndex(rightSchema, rightCol).None? ==> rows == Err(ColumnNotFound(rightCol))
      ensures ColumnIndex(rightSchema, rightCol).Some? && ColumnIndex(leftSchema, leftCol).None? ==>
                rows == if left == [] then Ok([]) else Err(ColumnNotFound(leftCol))
    {
      hide Remaining, TableBuilt;
      var acc: seq<Row> := [];
      ghost var first := if left == [] then Ok(None) else Err(ColumnNotFound(leftCol));
      var r := Next();
      while r.Ok? && r.value.Some?
        invariant Valid()
        invariant !BothColumns() ==>
          acc == [] && r == if ColumnIndex(rightSchema, rightCol).None? then Err(ColumnNotFound(rightCol)) else first
        invariant BothColumns() ==>
          r.Ok? && (r.value.Some? ==> old(Remaining()) == acc + ([r.value.value] + Remaining()))
        invariant BothColumns() && r.Ok? && r.value.None? ==> acc == old(Remaining())
        decreases |Remaining()|, r.Ok? && r.value.Some?
      {
        var row := r.value.value;
        ghost var before, rest := acc, Remaining();
        acc := acc + [row];
        assert acc + rest == before + ([row] + rest);
        r := Next();
      }
      rows := if r.Ok? then Ok(acc) else Err(r.error);
    }

    /** Before the first pull, everything is still to come. */
    lemma {:induction false} AllRemaining()
      requires Valid() && table == None && BothColumns()
      ensures Remaining() == Join(left, right, ColumnIndex(leftSchema, leftCol).value,
                                  ColumnIndex(rightSchema, rightCol).value, HashMatch)
    {
      assert left[0..] == left;
    }
  }

  // ----- When the two joins agree

  /** Some left row and some right row both have a NULL join key. */
  ghost predicate NullMeetsNull(ls: seq<Row>, rs: seq<Row>, li: nat, ri: nat) {
    exists l, r :: l in ls && r in rs && Hits(l, r, li, ri, HashMatch) && l[li] == Null
  }

  lemma {:induction false} MatchesAgree(l: Row, rs: seq<Row>, li: nat, ri: nat)
    ensures var loop, hash := MatchesOf(l, rs, li, ri, LoopMatch), MatchesOf(l, rs, li, ri, HashMatch);
            if exists r :: r in rs && Hits(l, r, li, ri, HashMatch) && l[li] == Null then |loop| < |hash|
            else loop == hash
  {
    if rs != [] {
      var tail := rs[1..];
      assert rs == [rs[0]] + tail;
      MatchesAgree(l, tail, li, ri);
      if li < |l| && l[li] == Null {
        NeverMatches(l, rs, li, ri);
        NeverMatches(l, tail, li, ri);
      }
    }
  }

  /** In the nested loop a NULL key finds nothing. */
  lemma {:induction false} NeverMatches(l: Row, rs: seq<Row>, li: nat, ri: nat)
    requires li < |l| && l[li] == Null
    ensures MatchesOf(l, rs, li, ri, LoopMatch) == []
  {
    if rs != [] {
      NeverMatches(l, rs[1..], li, ri);
    }
  }

  /**
   The two joins return the same rows in the same order exactly when no NULL key meets a NULL
   key; otherwise the hash join returns strictly more rows.
   */
  lemma {:induction false} JoinsAgreeIff(ls: seq<Row>, rs: seq<Row>, li: nat, ri: nat)
    ensures var loop, hash := Join(ls, rs, li, ri, LoopMatch), Join(ls, rs, li, ri, HashMatch);
            if NullMeetsNull(ls, rs, li, ri) then |loop| < |hash| else loop == hash
  {
    if ls != [] {
      var l, tail := ls[0], ls[1..];
      assert ls == [l] + tail;
      MatchesAgree(l, rs, li, ri);
      JoinsAgreeIff(tail, rs, li, ri);
      assert NullMeetsNull(ls, rs, li, ri) <==>
        (exists r :: r in rs && Hits(l, r, li, ri, HashMatch) && l[li] == Null) || NullMeetsNull(tail, rs, li, ri);
    }
  }

  /** Which rows a join holds: exactly the combinations of matching rows. */
  lemma {:induction false} JoinHolds(ls: seq<Row>, rs: seq<Row>, li: nat, ri: nat, same: Match, row: Row)
    ensures row in Join(ls, rs, li, ri, same) <==>
              exists l, r :: l in ls && r in rs && Hits(l, r, li, ri, same) && row == l + r
  {
    if ls != [] {
      var l, tail := ls[0], ls[1..];
      assert ls == [l] + tail;
      MatchesHold(l, rs, li, ri, same, row);
      JoinHolds(tail, rs, li, ri, same, row);
    }
  }

  lemma {:induction false} MatchesHold(l: Row, rs: seq<Row>, li: nat, ri: nat, same: Match, row: Row)
    ensures row in MatchesOf(l, rs, li, ri, same) <==> exists r :: r in rs && Hits(l, r, li, ri, same) && row == l + r
  {
    if rs != [] {
      assert rs == [rs[0]] + rs[1..];
      MatchesHold(l, rs[1..], li, ri, same, row);
    }
  }

  // ----- What a join returns, on the two tables

  /** The keys are there and equal; only the hash join takes two NULLs as equal. */
  predicate KeysMeet(l: Row, r: Row, li: nat, ri: nat, hash: bool) {
    li < |l| && ri < |r| && l[li] == r[ri] && (hash || l[li] != Null)
  }

  predicate Before(a: (nat, nat), b: (nat, nat)) {
    a.0 < b.0 || (a.0 == b.0 && a.1 < b.1)
  }

  /** The rows whose keys meet, as pairs of positions: from the first n left rows, each pair once, left rows first. */
  ghost predicate AllPairs(pairs: seq<(nat, nat)>, ls: seq<Row>, n: nat, rs: seq<Row>, li: nat, ri: nat, hash: bool)
    requires n <= |ls|
  {
    && (forall m {:trigger pairs[m]} :: 0 <= m < |pairs| ==>
          pairs[m].0 < n && pairs[m].1 < |rs| && KeysMeet(ls[pairs[m].0], rs[pairs[m].1], li, ri, hash))
    && (forall m, m' :: 0 <= m < m' < |pairs| ==> Before(pairs[m], pairs[m']))
    && (forall i: nat, k: nat {:trigger KeysMeet(ls[i], rs[k], li, ri, hash)} ::
          i < n && k < |rs| && KeysMeet(ls[i], rs[k], li, ri, hash) ==> (i, k) in pairs)
  }

  /** out holds the combined row of each pair, in order. */
  ghost predicate Combines(pairs: seq<(nat, nat)>, ls: seq<Row>, rs: seq<Row>, out: seq<Row>) {
    |out| == |pairs| && forall m {:trigger pairs[m]} :: 0 <= m < |pairs| ==>
      pairs[m].0 < |ls| && pairs[m].1 < |rs| && out[m] == ls[pairs[m].0] + rs[pairs[m].1]
  }

  ghost predicate IsJoin(ls: seq<Row>, rs: seq<Row>, li: nat, ri: nat, hash: bool, out: seq<Row>) {
    exists pairs :: AllPairs(pairs, ls, |ls|, rs, li, ri, hash) && Combines(pairs, ls, rs, out)
  }

  function MatchOf(hash: bool): Match {
    if hash then HashMatch else LoopMatch
  }

  lemma {:induction false} HitsIff(l: Row, r: Row, li: nat, ri: nat, hash: bool)
    ensures Hits(l, r, li, ri, MatchOf(hash)) <==> KeysMeet(l, r, li, ri, hash)
  {
  }

  /** The pairs of one left row with the first k right rows. */
  ghost predicate RowPairs(pairs: seq<(nat, nat)>, ls: seq<Row>, i: nat, rs: seq<Row>, k: nat, li: nat, ri: nat,
                           hash: bool)
    requires i < |ls| && k <= |rs|
  {
    && (forall m {:trigger pairs[m]} :: 0 <= m < |pairs| ==>
          pairs[m].0 == i && pairs[m].1 < k && KeysMeet(ls[i], rs[pairs[m].1], li, ri, hash))
    && (forall m, m' :: 0 <= m < m' < |pairs| ==> Before(pairs[m], pairs[m']))
    && (forall j: nat {:trigger KeysMeet(ls[i], rs[j], li, ri, hash)} ::
          j < k && KeysMeet(ls[i], rs[j], li, ri, hash) ==> (i, j) in pairs)
  }

  lemma {:induction false} MatchesArePairs(ls: seq<Row>, i: nat, rs: seq<Row>, k: nat, li: nat, ri: nat, hash: bool)
      returns (pairs: seq<(nat, nat)>)
    requires i < |ls| && k <= |rs|
    ensures RowPairs(pairs, ls, i, rs, k, li, ri, hash)
    ensures Combines(pairs, ls, rs, MatchesOf(ls[i], rs[..k], li, ri, MatchOf(hash)))
  {
    hide KeysMeet, Hits, MatchOf, MatchesOf, Combines, RowPairs;
    if k == 0 {
      pairs := [];
      NoPairs(ls, i, rs, li, ri, hash);
    } else {
      pairs := MatchesArePairs(ls, i, rs, k - 1, li, ri, hash);
      var last := rs[k - 1];
      assert rs[..k] == rs[..k - 1] + [last];
      MatchesAppend(ls[i], rs[..k - 1], [last], li, ri, MatchOf(hash));
      MatchesOne(ls[i], last, li, ri, MatchOf(hash));
      HitsIff(ls[i], last, li, ri, hash);
      if KeysMeet(ls[i], last, li, ri, hash) {
        RowPairsStep(pairs, ls, i, rs, k - 1, li, ri, hash);
        CombinesOne(ls, rs, i, k - 1);
        CombinesAppend(pairs, [(i, k - 1)], ls, rs, MatchesOf(ls[i], rs[..k - 1], li, ri, MatchOf(hash)),
                       [ls[i] + last]);
        pairs := pairs + [(i, k - 1)];
      } else {
        RowPairsSkip(pairs, ls, i, rs, k - 1, li, ri, hash);
        var matches := MatchesOf(ls[i], rs[..k - 1], li, ri, MatchOf(hash));
        assert matches + [] == matches;
      }
    }
  }

  lemma {:induction false} NoPairs(ls: seq<Row>, i: nat, rs: seq<Row>, li: nat, ri: nat, hash: bool)
    requires i < |ls|
    ensures RowPairs([], ls, i, rs, 0, li, ri, hash)
    ensures Combines([], ls, rs, MatchesOf(ls[i], rs[..0], li, ri, MatchOf(hash)))
  {
  }

  lemma {:induction false} CombinesOne(ls: seq<Row>, rs: seq<Row>, i: nat, k: nat)
    requires i < |ls| && k < |rs|
    ensures Combines([(i, k)], ls, rs, [ls[i] + rs[k]])
  {
  }

  lemma {:induction false} RowPairsStep(pairs: seq<(nat, nat)>, ls: seq<Row>, i: nat, rs: seq<Row>, k: nat, li: nat,
                                        ri: nat, hash: bool)
    requires i < |ls| && k < |rs| && RowPairs(pairs, ls, i, rs, k, li, ri, hash)
    requires KeysMeet(ls[i], rs[k], li, ri, hash)
    ensures RowPairs(pairs + [(i, k)], ls, i, rs, k + 1, li, ri, hash)
  {
    hide KeysMeet;
  }

  lemma {:induction false} RowPairsSkip(pairs: seq<(nat, nat)>, ls: seq<Row>, i: nat, rs: seq<Row>, k: nat, li: nat,
                                        ri: nat, hash: bool)
    requires i < |ls| && k < |rs| && RowPairs(pairs, ls, i, rs, k, li, ri, hash)
    requires !KeysMeet(ls[i], rs[k], li, ri, hash)
    ensures RowPairs(pairs, ls, i, rs, k + 1, li, ri, hash)
  {
    hide KeysMeet;
  }

  lemma {:induction false} MatchesOne(l: Row, r: Row, li: nat, ri: nat, same: Match)
    ensures MatchesOf(l, [r], li, ri, same) == if Hits(l, r, li, ri, same) then [l + r] else []
  {
    assert [r][1..] == [];
  }

  lemma {:induction false} JoinLast(ls: seq<Row>, l: Row, rs: seq<Row>, li: nat, ri: nat, same: Match)
    ensures Join(ls + [l], rs, li, ri, same) == Join(ls, rs, li, ri, same) + MatchesOf(l, rs, li, ri, same)
  {
    if ls == [] {
      assert [] + [l] == [l] && [l][1..] == [];
    } else {
      assert (ls + [l])[1..] == ls[1..] + [l];
      JoinLast(ls[1..], l, rs, li, ri, same);
    }
  }

  lemma {:induction false} CombinesAppend(a: seq<(nat, nat)>, b: seq<(nat, nat)>, ls: seq<Row>, rs: seq<Row>,
                                          x: seq<Row>, y: seq<Row>)
    requires Combines(a, ls, rs, x) && Combines(b, ls, rs, y)
    ensures Combines(a + b, ls, rs, x + y)
  {
    var pairs, out := a + b, x + y;
    forall m {:trigger pairs[m]} | 0 <= m < |pairs|
      ensures pairs[m].0 < |ls| && pairs[m].1 < |rs| && out[m] == ls[pairs[m].0] + rs[pairs[m].1]
    {
      if m < |a| {
        assert out[m] == x[m] && pairs[m] == a[m];
      } else {
        assert out[m] == y[m - |a|] && pairs[m] == b[m - |a|];
      }
    }
  }

  lemma {:induction false} AllPairsStep(init: seq<(nat, nat)>, row: seq<(nat, nat)>, ls: seq<Row>, n: nat,
                                        rs: seq<Row>, li: nat, ri: nat, hash: bool)
    requires n < |ls| && AllPairs(init, ls, n, rs, li, ri, hash) && RowPairs(row, ls, n, rs, |rs|, li, ri, hash)
    ensures AllPairs(init + row, ls, n + 1, rs, li, ri, hash)
  {
    hide KeysMeet;
    var all := init + row;
    forall m {:trigger all[m]} | 0 <= m < |all|
      ensures all[m].0 < n + 1 && all[m].1 < |rs| && KeysMeet(ls[all[m].0], rs[all[m].1], li, ri, hash)
    {
      if m < |init| {
        assert all[m] == init[m];
      } else {
        assert all[m] == row[m - |init|];
      }
    }
    forall m, m' | 0 <= m < m' < |all| ensures Before(all[m], all[m']) {
      assert m < |init| ==> all[m] == init[m];
      assert m' < |init| ==> all[m'] == init[m'];
      assert m >= |init| ==> all[m] == row[m - |init|];
      assert m' >= |init| ==> all[m'] == row[m' - |init|];
    }
  }

  /** The join of the first n left rows comes from the pairs of those rows. */
  lemma {:induction false} JoinPairs(ls: seq<Row>, n: nat, rs: seq<Row>, li: nat, ri: nat, hash: bool)
      returns (pairs: seq<(nat, nat)>)
    requires n <= |ls|
    ensures AllPairs(pairs, ls, n, rs, li, ri, hash)
    ensures Combines(pairs, ls, rs, Join(ls[..n], rs, li, ri, MatchOf(hash)))
  {
    hide KeysMeet, MatchesOf, MatchOf, RowPairs;
    if n == 0 {
      pairs := [];
    } else {
      hide Combines, AllPairs;
      var init := JoinPairs(ls, n - 1, rs, li, ri, hash);
      var row := MatchesArePairs(ls, n - 1, rs, |rs|, li, ri, hash);
      assert rs[..|rs|] == rs && ls[..n] == ls[..n - 1] + [ls[n - 1]];
      JoinLast(ls[..n - 1], ls[n - 1], rs, li, ri, MatchOf(hash));
      AllPairsStep(init, row, ls, n - 1, rs, li, ri, hash);
      pairs := init + row;
      CombinesAppend(init, row, ls, rs, Join(ls[..n - 1], rs, li, ri, MatchOf(hash)),
                     MatchesOf(ls[n - 1], rs, li, ri, MatchOf(hash)));
    }
  }

  /** Strictly ascending lists of the same pairs are one list. */
  lemma {:induction false} PairsUnique(a: seq<(nat, nat)>, b: seq<(nat, nat)>)
    requires forall m, n :: 0 <= m < n < |a| ==> Before(a[m], a[n])
    requires forall m, n :: 0 <= m < n < |b| ==> Before(b[m], b[n])
    requires forall x :: x in a <==> x in b
    ensures a == b
    decreases |a|
  {
    if a == [] {
      assert multiset(b) == multiset{} by {
        assert forall x :: x in multiset(b) ==> x in a;
      }
      assert |multiset(b)| == |b|;
    } else {
      assert a[0] in a && b[0] in b;
      assert a[0] == b[0];
      forall x ensures x in a[1..] <==> x in b[1..] {
        assert x in a[1..] <==> x in a && x != a[0];
        assert x in b[1..] <==> x in b && x != b[0];
      }
      PairsUnique(a[1..], b[1..]);
    }
  }

  /** The pairs determine the join. */
  lemma {:induction false} SamePairs(a: seq<(nat, nat)>, b: seq<(nat, nat)>, ls: seq<Row>, rs: seq<Row>,
                                     li: nat, ri: nat, hash: bool)
    requires AllPairs(a, ls, |ls|, rs, li, ri, hash) && AllPairs(b, ls, |ls|, rs, li, ri, hash)
    ensures a == b
  {
    hide KeysMeet;
    forall x | x in a ensures x in b {
      var m :| 0 <= m < |a| && a[m] == x;
      assert KeysMeet(ls[x.0], rs[x.1], li, ri, hash);
    }
    forall x | x in b ensures x in a {
      var m :| 0 <= m < |b| && b[m] == x;
      assert KeysMeet(ls[x.0], rs[x.1], li, ri, hash);
    }
    PairsUnique(a, b);
  }

  lemma {:induction false} SameRows(pairs: seq<(nat, nat)>, ls: seq<Row>, rs: seq<Row>, x: seq<Row>, y: seq<Row>)
    requires Combines(pairs, ls, rs, x) && Combines(pairs, ls, rs, y)
    ensures x == y
  {
    forall m | 0 <= m < |pairs| ensures x[m] == y[m] {
      assert pairs[m] == pairs[m];
    }
  }

  /** A join returns exactly those rows in that order. */
  lemma {:induction false} JoinIff(ls: seq<Row>, rs: seq<Row>, li: nat, ri: nat, hash: bool, out: seq<Row>)
    ensures IsJoin(ls, rs, li, ri, hash, out) <==> out == Join(ls, rs, li, ri, MatchOf(hash))
  {
    hide AllPairs, Join, MatchOf;
    var pairs := JoinPairs(ls, |ls|, rs, li, ri, hash);
    var join := Join(ls, rs, li, ri, MatchOf(hash));
    assert ls[..|ls|] == ls;
    if other :| AllPairs(other, ls, |ls|, rs, li, ri, hash) && Combines(other, ls, rs, out) {
      SamePairs(pairs, other, ls, rs, li, ri, hash);
      SameRows(pairs, ls, rs, join, out);
    }
  }
}
