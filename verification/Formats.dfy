/** The bytes of log records, pages and tuples, field by field, as plain arithmetic on the bytes. */
module Formats {
  import opened Storage
  import opened Bytes
  import opened Values
  import opened Predicate
  import Wal
  import Replay
  import SlottedPage
  import TupleCodec
  import Heap

  // ----- Numbers

  function Number2(b: Buffer, i: nat): nat
    requires i + 2 <= |b|
  {
    var low: int, high: int := b[i], b[i + 1];
    low + 0x100 * high
  }

  function Number4(b: Buffer, i: nat): nat
    requires i + 4 <= |b|
  {
    Number2(b, i) + 0x1_0000 * Number2(b, i + 2)
  }

  function Number8(b: Buffer, i: nat): nat
    requires i + 8 <= |b|
  {
    Number4(b, i) + 0x1_0000_0000 * Number4(b, i + 4)
  }

  lemma {:induction false} FromLETwo(s: Buffer)
    requires 2 <= |s|
    ensures FromLE(s) == Number2(s, 0) + 0x1_0000 * FromLE(s[2..])
  {
    assert s[1..][1..] == s[2..];
    assert FromLE(s[1..]) == s[1] + 256 * FromLE(s[2..]);
  }

  lemma {:induction false} FromLE2(b: Buffer, i: nat)
    requires i + 2 <= |b|
    ensures FromLE(b[i..i + 2]) == Number2(b, i)
  {
    FromLETwo(b[i..i + 2]);
    assert b[i..i + 2][2..] == [];
  }

  lemma {:induction false} FromLE4(b: Buffer, i: nat)
    requires i + 4 <= |b|
    ensures FromLE(b[i..i + 4]) == Number4(b, i)
  {
    FromLETwo(b[i..i + 4]);
    assert b[i..i + 4][2..] == b[i + 2..i + 4];
    FromLE2(b, i + 2);
  }

  lemma {:induction false} FromLE8(b: Buffer, i: nat)
    requires i + 8 <= |b|
    ensures FromLE(b[i..i + 8]) == Number8(b, i)
  {
    FromLETwo(b[i..i + 8]);
    assert b[i..i + 8][2..] == b[i + 2..i + 8];
    FromLETwo(b[i + 2..i + 8]);
    assert b[i + 2..i + 8][2..] == b[i + 4..i + 8];
    FromLE4(b, i + 4);
  }

  /** A field holds the number that was written into it. */
  lemma {:induction false} Field(b: Buffer, i: nat, n: nat, width: nat)
    requires i + width <= |b| && b[i..i + width] == ToLE(n, width) && n < Pow256(width)
    ensures width == 2 ==> Number2(b, i) == n
    ensures width == 4 ==> Number4(b, i) == n
    ensures width == 8 ==> Number8(b, i) == n
  {
    hide FromLE, ToLE, Pow256;
    LERoundTrip(n, width);
    Pow256Values();
    if width == 2 {
      FromLE2(b, i);
    } else if width == 4 {
      FromLE4(b, i);
    } else if width == 8 {
      FromLE8(b, i);
    }
  }

  // ----- The log

  /** A record in the log file: LSN, length of the payload, payload. */
  lemma {:induction false} LogRecordBytes(r: Wal.LogRecord)
    requires r.lsn < U64_END && |r.payload| < U32_END
    ensures var b := Wal.EncodeRecord(r);
            && |b| == 12 + |r.payload|
            && Number8(b, 0) == r.lsn && Number4(b, 8) == |r.payload| && b[12..] == r.payload
  {
    hide FromLE, ToLE, Pow256;
    Pow256Values();
    var b := Wal.EncodeRecord(r);
    Field(b, 0, r.lsn, 8);
    Field(b, 8, |r.payload|, 4);
  }

  /** The payload of an INSERT or DELETE record: code, length of the table name, name, tuple. */
  lemma {:induction false} PayloadBytes(op: Byte, name: Buffer, data: Buffer)
    requires |name| < U16_END
    ensures var b := Replay.Payload(op, name, data);
            && |b| == 3 + |name| + |data|
            && b[0] == op && Number2(b, 1) == |name| && b[3..3 + |name|] == name && b[3 + |name|..] == data
  {
    hide FromLE, ToLE, Pow256;
    Pow256Values();
    Field(Replay.Payload(op, name, data), 1, |name|, 2);
  }

  // ----- The heap page

  /** The header of a page: LSN, number of slots, end of the slots, start of the records. */
  lemma {:induction false} PageHeaderBytes(b: Buffer, recs: seq<SlottedPage.Record>)
    requires SlottedPage.Holds(b, recs)
    ensures Number8(b, 0) == SlottedPage.ReadHeader(b).lsn
    ensures Number2(b, 8) == |recs| && Number2(b, 10) == 16 + 4 * |recs|
    ensures Number2(b, 12) == |b| - SlottedPage.Used(recs)
  {
    hide FromLE, ToLE, Pow256, SlottedPage.SlotHolds;
    FromLE2(b, 8);
    FromLE2(b, 10);
    FromLE2(b, 12);
    FromLE8(b, 0);
  }

  /** Slot k holds where record k starts and how long it is; there stand its xmin, its xmax and its payload. */
  lemma {:induction false} RecordBytes(b: Buffer, recs: seq<SlottedPage.Record>, k: nat)
    requires SlottedPage.Holds(b, recs) && k < |recs|
    ensures var at, length := Number2(b, 16 + 4 * k), Number2(b, 18 + 4 * k);
            && length == 16 + |recs[k].payload| && 16 + 4 * |recs| <= at && at + length <= |b|
            && Number8(b, at) == recs[k].xmin && Number8(b, at + 8) == recs[k].xmax
            && b[at + 16..at + length] == recs[k].payload
  {
    hide FromLE, ToLE, Pow256, SlottedPage.Used;
    Pow256Values();
    assert SlottedPage.SlotHolds(b, recs, k);
    var off, length := SlottedPage.Offset(|b|, recs, k), SlottedPage.RecordLength(recs[k]);
    Field(b, 16 + 4 * k, off, 2);
    Field(b, 18 + 4 * k, length, 2);
    var record := b[off..off + length];
    assert b[off..off + 8] == record[..8] == ToLE(recs[k].xmin, 8);
    assert b[off + 8..off + 16] == record[8..16] == ToLE(recs[k].xmax, 8);
    assert b[off + 16..off + length] == record[16..] == recs[k].payload;
    Field(b, off, recs[k].xmin, 8);
    Field(b, off + 8, recs[k].xmax, 8);
  }

  /** Room for a tuple: 16 bytes of header, the tuple and a slot between the slots and the records. */
  lemma {:induction false} RoomOnBytes(t: Heap.TableDef, b: Buffer, recs: seq<SlottedPage.Record>, data: Buffer)
    requires SlottedPage.Holds(b, recs) && |b| == t.pageSize
    ensures 16 <= |b| && (Heap.HasRoom(t, recs, data) <==> Number2(b, 10) + 20 + |data| <= Number2(b, 12))
  {
    hide SlottedPage.Holds, Number2, Number8, SlottedPage.Used;
    HoldsHeader(b, recs);
    PageHeaderBytes(b, recs);
  }

  /** A record is live while its xmax is zero. */
  lemma {:induction false} LiveOnBytes(b: Buffer, recs: seq<SlottedPage.Record>, k: nat)
    requires SlottedPage.Holds(b, recs) && k < |recs|
    ensures var at := Number2(b, 16 + 4 * k);
            at + 16 <= |b| && (Heap.Live(recs[k]) <==> Number8(b, at + 8) == 0)
  {
    hide SlottedPage.Holds, Number2, Number8;
    HoldsHeader(b, recs);
    RecordBytes(b, recs, k);
  }

  lemma {:induction false} HoldsHeader(b: Buffer, recs: seq<SlottedPage.Record>)
    requires SlottedPage.Holds(b, recs)
    ensures 16 + 4 * |recs| <= |b|
  {
  }

  // ----- The tuple

  function Width(col: Column): nat {
    if col.dataType == BooleanType then 1 else 4
  }

  /** Where the slot of column i starts: behind the bitmap, one bit a column, and the slots before it. */
  function SlotStart(schema: Schema, i: nat): nat
    requires i <= |schema|
  {
    if i == 0 then (|schema| + 7) / 8 else SlotStart(schema, i - 1) + Width(schema[i - 1])
  }

  lemma {:induction false} SlotStartIs(schema: Schema, i: nat)
    requires i <= |schema|
    ensures SlotStart(schema, i) == TupleCodec.BitmapSize(|schema|) + TupleCodec.SlotsSize(schema, i)
  {
    if i > 0 {
      SlotStartIs(schema, i - 1);
    }
  }

  const BITS := [1, 2, 4, 8, 16, 32, 64, 128]

  lemma {:induction false} BitIs(b: nat, i: nat)
    requires i < 8
    ensures TupleCodec.Bit(b, i) <==> b / BITS[i] % 2 == 1
  {
    if i > 0 {
      BitIs(b / 2, i - 1);
      assert b / 2 / BITS[i - 1] == b / BITS[i];
    }
  }

  /** What a slot says of the value v of its column; a string pointer is given by its offset. */
  ghost predicate SlotSays(utf8: TupleCodec.Utf8, col: Column, v: Value, b: Buffer, at: nat, start: nat)
    requires at + Width(col) <= |b| && TupleCodec.TypeMatches(col, v)
  {
    match v
    case Null => forall k :: at <= k < at + Width(col) ==> b[k] == 0
    case Integer(n) => Number4(b, at) == if n < 0 then n + 0x1_0000_0000 else n
    case Boolean(t) => b[at] == if t then 1 else 0
    case Varchar(s) =>
      && (start < U16_END ==> Number2(b, at) == start)
      && (|utf8.encode(s)| < U16_END ==> Number2(b, at + 2) == |utf8.encode(s)|)
  }

  lemma {:induction false} SlotBytesSay(utf8: TupleCodec.Utf8, col: Column, v: Value, b: Buffer, at: nat, rel: nat,
                                        base: nat)
    requires TupleCodec.TypeMatches(col, v) && at + Width(col) <= |b|
    requires b[at..at + Width(col)] == TupleCodec.SlotBytes(utf8, col, v, rel, base)
    ensures SlotSays(utf8, col, v, b, at, base + rel)
  {
    hide FromLE, ToLE, Pow256;
    Pow256Values();
    var slot := b[at..at + Width(col)];
    match v
    case Null =>
      assert forall k :: at <= k < at + Width(col) ==> b[k] == slot[k - at];
    case Integer(n) => Field(b, at, TupleCodec.Unsigned(n), 4);
    case Boolean(_) => assert b[at] == slot[0];
    case Varchar(s) =>
      assert slot == ToLE(TupleCodec.StoredOffset(rel, base), 2) + ToLE(TupleCodec.FitU16(|utf8.encode(s)|), 2);
      PointerBytes(b, at, TupleCodec.StoredOffset(rel, base), TupleCodec.FitU16(|utf8.encode(s)|));
  }

  lemma {:induction false} PointerBytes(b: Buffer, at: nat, off: nat, length: nat)
    requires at + 4 <= |b| && b[at..at + 4] == ToLE(off, 2) + ToLE(length, 2) && off < U16_END && length < U16_END
    ensures Number2(b, at) == off && Number2(b, at + 2) == length
  {
    hide FromLE, ToLE, Pow256;
    Pow256Values();
    var slot := b[at..at + 4];
    assert b[at..at + 2] == slot[..2] == ToLE(off, 2);
    assert b[at + 2..at + 4] == slot[2..] == ToLE(length, 2);
    Field(b, at, off, 2);
    Field(b, at + 2, length, 2);
  }

  /**
   The tuple: a bit for every NULL, a slot for every column with the integer, the boolean, or the
   offset and length of the string, and behind the slots the strings in column order.
   */
  lemma {:induction false} ColumnBytes(utf8: TupleCodec.Utf8, schema: Schema, values: seq<Value>, i: nat)
    requires TupleCodec.Typed(schema, values) && i < |schema|
    ensures var b, at := TupleCodec.Encode(utf8, schema, values), SlotStart(schema, i);
            var start := SlotStart(schema, |schema|) + |TupleCodec.Strings(utf8, values, i)|;
            && TupleCodec.TypeMatches(schema[i], values[i])
            && (|schema| + 7) / 8 <= |b| && at + Width(schema[i]) <= |b|
            && (b[i / 8] / BITS[i % 8] % 2 == 1 <==> values[i] == Null)
            && SlotSays(utf8, schema[i], values[i], b, at, start)
            && (values[i].Varchar? ==>
                  var bytes := utf8.encode(values[i].s);
                  start + |bytes| <= |b| && b[start..start + |bytes|] == bytes)
  {
    hide TupleCodec.Encode, TupleCodec.Slots, TupleCodec.Strings, TupleCodec.NullBits, TupleCodec.SlotBytes,
         TupleCodec.Bit, SlotStart, SlotSays;
    TupleCodec.EncodedParts(utf8, schema, values, i);
    SlotStartIs(schema, i);
    SlotStartIs(schema, |schema|);
    assert TupleCodec.TypeMatches(schema[i], values[i]);
    var b, at := TupleCodec.Encode(utf8, schema, values), SlotStart(schema, i);
    BitIs(b[i / 8], i % 8);
    var rel, base := |TupleCodec.Strings(utf8, values, i)|, TupleCodec.Base(schema);
    SlotBytesSay(utf8, schema[i], values[i], b, at, rel, base);
  }

  /** What the bytes say of column i: NULL, an integer, a boolean or a string, or nothing readable. */
  function ColumnReads(utf8: TupleCodec.Utf8, schema: Schema, b: Buffer, i: nat): Option<Value>
    requires i < |schema| && (|schema| + 7) / 8 <= |b|
  {
    var at := SlotStart(schema, i);
    if b[i / 8] / BITS[i % 8] % 2 == 1 then Some(Null)
    else if at + Width(schema[i]) > |b| then None
    else match schema[i].dataType
      case IntegerType =>
        var n: int := Number4(b, at);
        Some(Integer(if n < 0x8000_0000 then n else n - 0x1_0000_0000))
      case BooleanType => Some(Boolean(b[at] != 0))
      case VarcharType =>
        var start, length := Number2(b, at), Number2(b, at + 2);
        if start + length > |b| then None
        else match utf8.decode(b[start..start + length])
          case None => None
          case Some(s) => Some(Varchar(s))
  }

  lemma {:induction false} ReadColumnIff(utf8: TupleCodec.Utf8, schema: Schema, b: Buffer, i: nat, v: Value)
    requires i < |schema| && (|schema| + 7) / 8 <= |b|
    ensures TupleCodec.ReadColumn(utf8, b, schema, i) == Ok(v) <==> ColumnReads(utf8, schema, b, i) == Some(v)
  {
    hide FromLE, ToLE, Pow256, TupleCodec.Bit, SlotStart, TupleCodec.SlotsSize;
    SlotStartIs(schema, i);
    BitIs(b[i / 8], i % 8);
    var at, size := SlotStart(schema, i), TupleCodec.BitmapSize(|schema|);
    assert b[..size][i / 8] == b[i / 8];
    if at + 4 <= |b| {
      FromLE4(b, at);
      FromLE2(b, at);
      FromLE2(b, at + 2);
    }
  }

  /** On any bytes: a tuple decodes to a row exactly when every column reads as its value. */
  lemma {:induction false} DecodeIff(utf8: TupleCodec.Utf8, schema: Schema, b: Buffer, row: seq<Value>)
    ensures TupleCodec.Decode(utf8, b, schema) == Ok(row) <==>
              && (|schema| + 7) / 8 <= |b| && |row| == |schema|
              && forall i: nat {:trigger row[i]} :: i < |schema| ==> ColumnReads(utf8, schema, b, i) == Some(row[i])
  {
    hide TupleCodec.ReadColumn, ColumnReads;
    if (|schema| + 7) / 8 <= |b| {
      TupleCodec.DecodedColumns(utf8, b, schema, 0, row);
      if |row| == |schema| {
        forall i: nat {:trigger row[i]} | i < |schema|
          ensures TupleCodec.ReadColumn(utf8, b, schema, i) == Ok(row[i]) <==>
                    ColumnReads(utf8, schema, b, i) == Some(row[i])
        {
          ReadColumnIff(utf8, schema, b, i, row[i]);
        }
        assert forall i: nat {:trigger row[i]} :: i < |schema| ==>
          TupleCodec.ReadColumn(utf8, b, schema, i) == TupleCodec.ReadColumn(utf8, b, schema, i);
      }
    }
  }
}
