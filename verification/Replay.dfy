/**
 Log records of row changes and their replay. If a log holds the successful inserts and
 deletes since the last checkpoint, replaying it over any state in which each key holds some
 row state it passed through gives the final table.
 */
module Replay {
  import opened Storage
  import opened Bytes
  import opened Heap

  const OP_INSERT: Byte := 0
  const OP_DELETE: Byte := 1

  type Rows = map<int, Buffer>

  // ----- Record format

  datatype Entry = Entry(op: Byte, name: Buffer, data: Buffer)

  /** One byte of operation, the length of the table name, the name, and the tuple. */
  function Payload(op: Byte, name: Buffer, data: Buffer): (r: Buffer)
    ensures |r| == 3 + |name| + |data|
  {
    [op] + ToLE(|name|, 2) + name + data
  }

  /** What the replay loop reads; shorter records and records without a name are skipped. */
  function Parse(rec: Buffer): Option<Entry> {
    if |rec| <= 3 then None
    else
      var n := FromLE(rec[1..3]);
      if n == 0 || |rec| < 3 + n then None else Some(Entry(rec[0], rec[3..3 + n], rec[3 + n..]))
  }

  lemma {:induction false} ParseRoundTrip(op: Byte, name: Buffer, data: Buffer)
    requires 0 < |name| < 0x1_0000
    ensures Parse(Payload(op, name, data)) == Some(Entry(op, name, data))
  {
    Pow256Values();
    LERoundTrip(|name|, 2);
    var rec, n := Payload(op, name, data), |name|;
    assert rec[1..3] == ToLE(|name|, 2);
    assert rec[3..3 + n] == name && rec[3 + n..] == data;
  }

  // ----- Which table a record names

  /** The bytes are a record of this table name. */
  ghost predicate NamesTable(rec: Buffer, name: Buffer) {
    exists op, data :: rec == Payload(op, name, data)
  }

  /** The records of one table, in order. */
  ghost function RecordsOf(name: Buffer, recs: seq<Buffer>): seq<Buffer> {
    if recs == [] then []
    else
      var last := recs[|recs| - 1];
      RecordsOf(name, recs[..|recs| - 1]) + (if NamesTable(last, name) then [last] else [])
  }

  /** What the loop reads is what the bytes say. */
  lemma {:induction false} ParseIff(rec: Buffer, e: Entry)
    requires 0 < |e.name| < U16_END
    ensures Parse(rec) == Some(e) <==> rec == Payload(e.op, e.name, e.data)
  {
    hide FromLE, ToLE;
    if rec == Payload(e.op, e.name, e.data) {
      ParseRoundTrip(e.op, e.name, e.data);
    }
    if Parse(rec) == Some(e) {
      LEBytesRoundTrip(rec[1..3]);
      assert rec == [rec[0]] + rec[1..3] + rec[3..3 + |e.name|] + rec[3 + |e.name|..];
    }
  }

  lemma {:induction false} NamesTableIff(rec: Buffer, name: Buffer)
    requires 0 < |name| < U16_END
    ensures NamesTable(rec, name) <==> Parse(rec).Some? && Parse(rec).value.name == name
  {
    hide Parse, Payload;
    if op, data :| rec == Payload(op, name, data) {
      ParseIff(rec, Entry(op, name, data));
    }
    if Parse(rec).Some? && Parse(rec).value.name == name {
      ParseIff(rec, Parse(rec).value);
    }
  }

  // ----- Operations

  datatype Op = Insert(key: int, data: Buffer) | Remove(key: int)

  /** The operation a record asks of table t: none for other tables, unreadable tuples and other codes. */
  function OpOf(t: TableDef, rec: Buffer): Option<Op> {
    match Parse(rec)
    case None => None
    case Some(e) =>
      if e.name != t.name then None
      else match KeyOf(t, e.data)
        case None => None
        case Some(k) =>
          if e.op == OP_INSERT then Some(Insert(k, e.data))
          else if e.op == OP_DELETE then Some(Remove(k))
          else None
  }

  /**
   On the bytes: an insert of this table is code 0, its name and a tuple with a key; a delete is
   code 1 with the same; every other record asks nothing of it.
   */
  lemma {:induction false} OpOfIff(t: TableDef, rec: Buffer, k: int, data: Buffer)
    requires 0 < |t.name| < U16_END
    ensures OpOf(t, rec) == Some(Insert(k, data)) <==> rec == Payload(0, t.name, data) && KeyOf(t, data) == Some(k)
    ensures OpOf(t, rec) == Some(Remove(k)) <==>
              exists tuple :: rec == Payload(1, t.name, tuple) && KeyOf(t, tuple) == Some(k)
  {
    hide Parse, Payload, KeyOf;
    ParseIff(rec, Entry(0, t.name, data));
    if OpOf(t, rec) == Some(Remove(k)) {
      ParseIff(rec, Parse(rec).value);
    }
    if tuple :| rec == Payload(1, t.name, tuple) && KeyOf(t, tuple) == Some(k) {
      ParseIff(rec, Entry(1, t.name, tuple));
    }
  }

  /** A record that names another table, has another code or holds no tuple with a key asks nothing. */
  lemma {:induction false} OtherRecordsAskNothing(t: TableDef, op: Byte, name: Buffer, data: Buffer)
    requires 0 < |name| < U16_END && (name != t.name || op > 1 || KeyOf(t, data).None?)
    ensures OpOf(t, Payload(op, name, data)) == None
  {
    ParseRoundTrip(op, name, data);
  }

  /** Nor do bytes that are no record of this table. */
  lemma {:induction false} StrangersAskNothing(t: TableDef, rec: Buffer)
    requires 0 < |t.name| < U16_END && !NamesTable(rec, t.name)
    ensures OpOf(t, rec) == None
  {
    NamesTableIff(rec, t.name);
  }

  /** Inserting a present key and deleting an absent one do nothing. */
  function Apply(op: Op, rows: Rows): Rows {
    match op
    case Insert(k, data) => if k in rows then rows else rows[k := data]
    case Remove(k) => rows - {k}
  }

  function Step(t: TableDef, rec: Buffer, rows: Rows): Rows {
    match OpOf(t, rec)
    case None => rows
    case Some(op) => Apply(op, rows)
  }

  function ReplayAll(t: TableDef, recs: seq<Buffer>, rows: Rows): Rows {
    if recs == [] then rows else Step(t, recs[|recs| - 1], ReplayAll(t, recs[..|recs| - 1], rows))
  }

  /** The record describes a change that succeeded on these rows. */
  ghost predicate Succeeds(t: TableDef, rec: Buffer, rows: Rows) {
    match OpOf(t, rec)
    case None => true
    case Some(Insert(k, _)) => k !in rows
    case Some(Remove(k)) => k in rows
  }

  /** A log of successful changes, starting from `rows`. */
  ghost predicate SuccessfulLog(t: TableDef, recs: seq<Buffer>, rows: Rows) {
    recs == [] ||
    var init := recs[..|recs| - 1];
    SuccessfulLog(t, init, rows) && Succeeds(t, recs[|recs| - 1], ReplayAll(t, init, rows))
  }

  lemma {:induction false} LogStep(t: TableDef, recs: seq<Buffer>, rec: Buffer, rows: Rows)
    ensures ReplayAll(t, recs + [rec], rows) == Step(t, rec, ReplayAll(t, recs, rows))
    ensures SuccessfulLog(t, recs + [rec], rows) <==>
              SuccessfulLog(t, recs, rows) && Succeeds(t, rec, ReplayAll(t, recs, rows))
  {
    assert (recs + [rec])[..|recs|] == recs;
  }

  /** The records of other tables in the log do not matter. */
  lemma {:induction false} OwnRecordsDecide(t: TableDef, recs: seq<Buffer>, rows: Rows)
    requires 0 < |t.name| < U16_END
    ensures ReplayAll(t, recs, rows) == ReplayAll(t, RecordsOf(t.name, recs), rows)
    ensures SuccessfulLog(t, recs, rows) <==> SuccessfulLog(t, RecordsOf(t.name, recs), rows)
  {
    hide NamesTable, OpOf;
    if recs != [] {
      var init, last := recs[..|recs| - 1], recs[|recs| - 1];
      OwnRecordsDecide(t, init, rows);
      if NamesTable(last, t.name) {
        LogStep(t, RecordsOf(t.name, init), last, rows);
      } else {
        StrangersAskNothing(t, last);
        assert RecordsOf(t.name, recs) == RecordsOf(t.name, init);
      }
    }
  }

  // ----- Convergence

  function RowAt(rows: Rows, k: int): Option<Buffer> {
    if k in rows then Some(rows[k]) else None
  }

  /** The row key k had after some prefix of the log. */
  ghost predicate PassedThrough(t: TableDef, recs: seq<Buffer>, rows: Rows, k: int, state: Option<Buffer>) {
    exists i :: 0 <= i <= |recs| && RowAt(ReplayAll(t, recs[..i], rows), k) == state
  }

  /** Each key of `crashed` is in some state it passed through. */
  ghost predicate Mixture(t: TableDef, recs: seq<Buffer>, rows: Rows, crashed: Rows) {
    forall k {:trigger RowAt(crashed, k)} :: PassedThrough(t, recs, rows, k, RowAt(crashed, k))
  }

  /** What a record does to a key depends only on that key's row. */
  lemma {:induction false} StepAt(t: TableDef, rec: Buffer, a: Rows, b: Rows, k: int)
    requires RowAt(a, k) == RowAt(b, k)
    ensures RowAt(Step(t, rec, a), k) == RowAt(Step(t, rec, b), k)
  {
  }

  /** A row that is there stays until the log deletes it; from then on the key is in its true state. */
  lemma {:induction false} PresentStays(t: TableDef, recs: seq<Buffer>, rows: Rows, crashed: Rows, k: int)
    requires SuccessfulLog(t, recs, rows) && k in crashed
    ensures var now := RowAt(ReplayAll(t, recs, crashed), k);
            now == RowAt(crashed, k) || now == RowAt(ReplayAll(t, recs, rows), k)
  {
    if recs != [] {
      var init, rec := recs[..|recs| - 1], recs[|recs| - 1];
      PresentStays(t, init, rows, crashed, k);
      var a, b := ReplayAll(t, init, crashed), ReplayAll(t, init, rows);
      if RowAt(a, k) == RowAt(b, k) {
        StepAt(t, rec, a, b, k);
      }
    }
  }

  /** One key: if its state is one it passed through, replay brings it to its final state. */
  lemma {:induction false} KeyConverges(t: TableDef, recs: seq<Buffer>, rows: Rows, crashed: Rows, k: int)
    requires SuccessfulLog(t, recs, rows) && PassedThrough(t, recs, rows, k, RowAt(crashed, k))
    ensures RowAt(ReplayAll(t, recs, crashed), k) == RowAt(ReplayAll(t, recs, rows), k)
    decreases |recs|, 0
  {
    if recs == [] {
      assert recs[..0] == [];
    } else {
      var init, rec := recs[..|recs| - 1], recs[|recs| - 1];
      var a, b := ReplayAll(t, init, crashed), ReplayAll(t, init, rows);
      var i :| 0 <= i <= |recs| && RowAt(ReplayAll(t, recs[..i], rows), k) == RowAt(crashed, k);
      if i < |recs| {
        assert init[..i] == recs[..i];
        KeyConverges(t, init, rows, crashed, k);
        StepAt(t, rec, a, b, k);
      } else {
        assert recs[..i] == recs;
        LastStateConverges(t, init, rec, rows, crashed, k);
      }
    }
  }

  /** The case of a key already in its final state. */
  lemma {:induction false} LastStateConverges(t: TableDef, init: seq<Buffer>, rec: Buffer,
                                              rows: Rows, crashed: Rows, k: int)
    requires SuccessfulLog(t, init, rows) && Succeeds(t, rec, ReplayAll(t, init, rows))
    requires RowAt(crashed, k) == RowAt(Step(t, rec, ReplayAll(t, init, rows)), k)
    ensures RowAt(Step(t, rec, ReplayAll(t, init, crashed)), k) == RowAt(Step(t, rec, ReplayAll(t, init, rows)), k)
    decreases |init|, 1
  {
    var a, b := ReplayAll(t, init, crashed), ReplayAll(t, init, rows);
    if k in crashed {
      PresentStays(t, init, rows, crashed, k);
      if RowAt(a, k) == RowAt(b, k) {
        StepAt(t, rec, a, b, k);
      }
    } else if OpOf(t, rec) != Some(Remove(k)) {
      assert RowAt(b, k) == None;
      assert init[..|init|] == init;
      KeyConverges(t, init, rows, crashed, k);
      StepAt(t, rec, a, b, k);
    }
  }

  lemma {:induction false} SameRows(a: Rows, b: Rows)
    requires forall k {:trigger RowAt(a, k)} :: RowAt(a, k) == RowAt(b, k)
    ensures a == b
  {
    forall k | k in a ensures k in b && a[k] == b[k] {
      assert RowAt(a, k) == RowAt(b, k);
    }
    forall k | k in b ensures k in a {
      assert RowAt(a, k) == RowAt(b, k);
    }
  }

  /** Replay converges: from any mixture of passed states it reaches the final rows. */
  lemma {:induction false} ReplayConverges(t: TableDef, recs: seq<Buffer>, rows: Rows, crashed: Rows)
    requires SuccessfulLog(t, recs, rows) && Mixture(t, recs, rows, crashed)
    ensures ReplayAll(t, recs, crashed) == ReplayAll(t, recs, rows)
  {
    var a, b := ReplayAll(t, recs, crashed), ReplayAll(t, recs, rows);
    forall k {:trigger RowAt(a, k)} ensures RowAt(a, k) == RowAt(b, k) {
      assert PassedThrough(t, recs, rows, k, RowAt(crashed, k));
      KeyConverges(t, recs, rows, crashed, k);
    }
    SameRows(a, b);
  }

  /** A crash during or after recovery is harmless: replaying again changes nothing. */
  lemma {:induction false} ReplayTwice(t: TableDef, recs: seq<Buffer>, rows: Rows, crashed: Rows)
    requires SuccessfulLog(t, recs, rows) && Mixture(t, recs, rows, crashed)
    ensures ReplayAll(t, recs, ReplayAll(t, recs, crashed)) == ReplayAll(t, recs, crashed)
  {
    ReplayConverges(t, recs, rows, crashed);
    var end := ReplayAll(t, recs, rows);
    assert recs[..|recs|] == recs;
    forall k {:trigger RowAt(end, k)} ensures PassedThrough(t, recs, rows, k, RowAt(end, k)) {
    }
    ReplayConverges(t, recs, rows, end);
  }

  /** Every state the table passed through is such a mixture, its first and its last included. */
  lemma {:induction false} HistoryStatesAreMixtures(t: TableDef, recs: seq<Buffer>, rows: Rows, i: nat)
    requires i <= |recs|
    ensures Mixture(t, recs, rows, ReplayAll(t, recs[..i], rows))
  {
    var crashed := ReplayAll(t, recs[..i], rows);
    forall k {:trigger RowAt(crashed, k)} ensures PassedThrough(t, recs, rows, k, RowAt(crashed, k)) {
    }
  }

  // ----- Exactly when replay converges

  ghost predicate Removed(t: TableDef, recs: seq<Buffer>, k: int) {
    exists i :: 0 <= i < |recs| && OpOf(t, recs[i]) == Some(Remove(k))
  }

  lemma {:induction false} RemovedBefore(t: TableDef, recs: seq<Buffer>, k: int)
    requires recs != []
    ensures Removed(t, recs, k) <==>
              Removed(t, recs[..|recs| - 1], k) || OpOf(t, recs[|recs| - 1]) == Some(Remove(k))
  {
    var init := recs[..|recs| - 1];
    assert forall i :: 0 <= i < |init| ==> init[i] == recs[i];
  }

  /** After a delete of the key every start state has been forgotten. */
  lemma {:induction false} RemovedConverges(t: TableDef, recs: seq<Buffer>, rows: Rows, crashed: Rows, k: int)
    requires Removed(t, recs, k)
    ensures RowAt(ReplayAll(t, recs, crashed), k) == RowAt(ReplayAll(t, recs, rows), k)
  {
    var init, rec := recs[..|recs| - 1], recs[|recs| - 1];
    RemovedBefore(t, recs, k);
    if OpOf(t, rec) != Some(Remove(k)) {
      RemovedConverges(t, init, rows, crashed, k);
      StepAt(t, rec, ReplayAll(t, init, crashed), ReplayAll(t, init, rows), k);
    }
  }

  lemma {:induction false} NeverRemovedStays(t: TableDef, recs: seq<Buffer>, crashed: Rows, k: int)
    requires !Removed(t, recs, k) && k in crashed
    ensures RowAt(ReplayAll(t, recs, crashed), k) == RowAt(crashed, k)
  {
    if recs != [] {
      RemovedBefore(t, recs, k);
      NeverRemovedStays(t, recs[..|recs| - 1], crashed, k);
    }
  }

  lemma {:induction false} ConvergedPassed(t: TableDef, recs: seq<Buffer>, rows: Rows, crashed: Rows, k: int)
    requires SuccessfulLog(t, recs, rows) && !Removed(t, recs, k)
    requires RowAt(ReplayAll(t, recs, crashed), k) == RowAt(ReplayAll(t, recs, rows), k)
    ensures PassedThrough(t, recs, rows, k, RowAt(crashed, k))
  {
    assert recs[..|recs|] == recs;
    if k in crashed {
      NeverRemovedStays(t, recs, crashed, k);
    } else if recs == [] {
    } else {
      var init, rec := recs[..|recs| - 1], recs[|recs| - 1];
      RemovedBefore(t, recs, k);
      assert recs[..|init|] == init;
      var op := OpOf(t, rec);
      if op.Some? && op.value.key == k {
        assert RowAt(ReplayAll(t, init, rows), k) == None;
      } else {
        ConvergedPassed(t, init, rows, crashed, k);
        var i :| 0 <= i <= |init| && RowAt(ReplayAll(t, init[..i], rows), k) == RowAt(crashed, k);
        assert recs[..i] == init[..i];
      }
    }
  }

  /** Replay reaches the final rows exactly when each key is in a state it passed through or is deleted by the log. */
  lemma {:induction false} ReplayConvergesIff(t: TableDef, recs: seq<Buffer>, rows: Rows, crashed: Rows)
    requires SuccessfulLog(t, recs, rows)
    ensures ReplayAll(t, recs, crashed) == ReplayAll(t, recs, rows) <==>
              forall k {:trigger RowAt(crashed, k)} ::
                PassedThrough(t, recs, rows, k, RowAt(crashed, k)) || Removed(t, recs, k)
  {
    var a, b := ReplayAll(t, recs, crashed), ReplayAll(t, recs, rows);
    if forall k {:trigger RowAt(crashed, k)} ::
         PassedThrough(t, recs, rows, k, RowAt(crashed, k)) || Removed(t, recs, k) {
      forall k {:trigger RowAt(a, k)} ensures RowAt(a, k) == RowAt(b, k) {
        assert PassedThrough(t, recs, rows, k, RowAt(crashed, k)) || Removed(t, recs, k);
        if Removed(t, recs, k) {
          RemovedConverges(t, recs, rows, crashed, k);
        } else {
          KeyConverges(t, recs, rows, crashed, k);
        }
      }
      SameRows(a, b);
    }
    if a == b {
      forall k {:trigger RowAt(crashed, k)}
        ensures PassedThrough(t, recs, rows, k, RowAt(crashed, k)) || Removed(t, recs, k)
      {
        if !Removed(t, recs, k) {
          ConvergedPassed(t, recs, rows, crashed, k);
        }
      }
    }
  }

  /** Such a state is needed: a row the key never had survives the replay of its insert. */
  lemma {:induction false} StrangeRowSurvives(t: TableDef, rec: Buffer, k: int, data: Buffer, crashed: Rows)
    requires OpOf(t, rec) == Some(Insert(k, data)) && k in crashed && crashed[k] != data
    ensures SuccessfulLog(t, [rec], map[])
    ensures ReplayAll(t, [rec], crashed) != ReplayAll(t, [rec], map[])
  {
    LogStep(t, [], rec, map[]);
    LogStep(t, [], rec, crashed);
    assert [] + [rec] == [rec];
    assert ReplayAll(t, [rec], crashed)[k] != ReplayAll(t, [rec], map[])[k];
  }
}
