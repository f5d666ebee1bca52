/**
 The write-ahead log: records wait in memory until a flush moves them to the log file, and a
 checkpoint empties the file. Reading the file back tolerates a torn tail.
 */
module Wal {
  import opened Storage
  import opened Bytes

  const U64_MAX: nat := 0xFFFF_FFFF_FFFF_FFFF

  lemma {:induction false} HasMember<T>(s: seq<T>)
    requires s != []
    ensures exists x :: x in s
  {
    assert s[0] in s;
  }

  datatype LogRecord = LogRecord(lsn: nat, payload: Buffer)

  /** 8 bytes of LSN and 4 of length precede every payload. */
  const RECORD_OVERHEAD: nat := 12

  function EncodeRecord(r: LogRecord): (b: Buffer)
    ensures |b| == RECORD_OVERHEAD + |r.payload|
  {
    ToLE(r.lsn, 8) + ToLE(|r.payload|, 4) + r.payload
  }

  function EncodeLog(rs: seq<LogRecord>): Buffer {
    if rs == [] then [] else EncodeLog(rs[..|rs| - 1]) + EncodeRecord(rs[|rs| - 1])
  }

  function EncodedLength(rs: seq<LogRecord>): nat {
    if rs == [] then 0 else EncodedLength(rs[..|rs| - 1]) + |rs[|rs| - 1].payload| + RECORD_OVERHEAD
  }

  function Payloads(rs: seq<LogRecord>): (r: seq<Buffer>)
    ensures |r| == |rs|
  {
    seq(|rs|, i requires 0 <= i < |rs| => rs[i].payload)
  }

  ghost predicate Writable(rs: seq<LogRecord>) {
    forall r :: r in rs ==> |r.payload| <= U32_MAX
  }

  lemma {:induction false} EncodeLogSize(rs: seq<LogRecord>)
    ensures |EncodeLog(rs)| == EncodedLength(rs)
  {
    if rs != [] {
      EncodeLogSize(rs[..|rs| - 1]);
    }
  }

  lemma {:induction false} EncodeLogAppend(rs: seq<LogRecord>, ts: seq<LogRecord>)
    ensures EncodeLog(rs + ts) == EncodeLog(rs) + EncodeLog(ts)
    ensures EncodedLength(rs + ts) == EncodedLength(rs) + EncodedLength(ts)
  {
    hide EncodeRecord;
    if ts == [] {
      assert rs + ts == rs;
    } else {
      var n := |ts| - 1;
      assert (rs + ts)[..|rs| + n] == rs + ts[..n];
      EncodeLogAppend(rs, ts[..n]);
    }
  }

  lemma {:induction false} EncodeLogFirst(rs: seq<LogRecord>)
    requires rs != []
    ensures EncodeLog(rs) == EncodeRecord(rs[0]) + EncodeLog(rs[1..])
  {
    var first := [rs[0]];
    assert first[..0] == [];
    assert rs == first + rs[1..];
    EncodeLogAppend(first, rs[1..]);
    assert EncodeLog(first) == EncodeRecord(rs[0]);
  }

  // ----- Reading the file back

  /** The payloads of the complete leading records of a byte string. */
  function ParseLog(bytes: Buffer): seq<Buffer> {
    if |bytes| < RECORD_OVERHEAD then []
    else
      var len := FromLE(bytes[8..12]);
      if |bytes| - RECORD_OVERHEAD < len then []
      else [bytes[12..12 + len]] + ParseLog(bytes[12 + len..])
  }

  /** Parsing a file that starts with one record, cut anywhere. */
  lemma {:induction false} ParseStep(r: LogRecord, rest: Buffer, cut: nat)
    requires |r.payload| <= U32_MAX && cut <= |EncodeRecord(r)| + |rest|
    ensures var bytes, size := (EncodeRecord(r) + rest)[..cut], RECORD_OVERHEAD + |r.payload|;
            ParseLog(bytes) == if cut < size then [] else [r.payload] + ParseLog(rest[..cut - size])
  {
    hide ToLE, FromLE, Pow256;
    var bytes, size := (EncodeRecord(r) + rest)[..cut], RECORD_OVERHEAD + |r.payload|;
    if cut >= RECORD_OVERHEAD {
      HeaderOf(r, rest, cut);
      if cut >= size {
        assert bytes[12..size] == r.payload;
        assert bytes[size..] == rest[..cut - size];
      }
    }
  }

  lemma {:induction false} HeaderOf(r: LogRecord, rest: Buffer, cut: nat)
    requires |r.payload| <= U32_MAX
    requires RECORD_OVERHEAD <= cut <= |EncodeRecord(r)| + |rest|
    ensures FromLE((EncodeRecord(r) + rest)[..cut][8..12]) == |r.payload|
  {
    hide ToLE, FromLE;
    LengthFits(|r.payload|);
    assert (EncodeRecord(r) + rest)[..cut][8..12] == ToLE(|r.payload|, 4);
  }

  lemma {:induction false} LengthFits(n: nat)
    requires n <= U32_MAX
    ensures FromLE(ToLE(n, 4)) == n
  {
    Pow256Values();
    LERoundTrip(n, 4);
  }

  /** On a file cut anywhere, the parse returns exactly the records that fit before the cut. */
  lemma {:induction false} TornTail(rs: seq<LogRecord>, cut: nat, whole: nat)
    requires Writable(rs) && cut <= |EncodeLog(rs)|
    requires whole <= |rs| && |EncodeLog(rs[..whole])| <= cut
    requires whole < |rs| ==> cut < |EncodeLog(rs[..whole + 1])|
    ensures ParseLog(EncodeLog(rs)[..cut]) == Payloads(rs[..whole])
    decreases |rs|
  {
    hide ParseLog, EncodeLog, EncodeRecord;
    NoRecords();
    if rs != [] {
      var r, rest := rs[0], rs[1..];
      EncodeLogFirst(rs);
      ParseStep(r, EncodeLog(rest), cut);
      if whole == 0 {
        EncodeLogFirst(rs[..1]);
        assert rs[..1][1..] == [] && rs[..0] == [];
      } else {
        EncodeLogFirst(rs[..whole]);
        assert rs[..whole][1..] == rest[..whole - 1];
        if whole < |rs| {
          EncodeLogFirst(rs[..whole + 1]);
          assert rs[..whole + 1][1..] == rest[..whole];
        }
        TornTail(rest, cut - RECORD_OVERHEAD - |r.payload|, whole - 1);
        assert Payloads(rs[..whole]) == [r.payload] + Payloads(rest[..whole - 1]);
      }
    }
  }

  /** How many leading records fit into the first `cut` bytes. */
  function Fitting(rs: seq<LogRecord>, cut: nat): (n: nat)
    ensures n <= |rs|
  {
    if EncodedLength(rs) <= cut then |rs| else
      FittingDecreases(rs, cut);
      Fitting(rs[..|rs| - 1], cut)
  }

  lemma {:induction false} FittingDecreases(rs: seq<LogRecord>, cut: nat)
    requires cut < EncodedLength(rs)
    ensures rs != []
  {
  }

  lemma {:induction false} FittingBounds(rs: seq<LogRecord>, cut: nat)
    ensures var n := Fitting(rs, cut);
            EncodedLength(rs[..n]) <= cut && (n < |rs| ==> cut < EncodedLength(rs[..n + 1]))
  {
    if EncodedLength(rs) <= cut {
      assert rs[..|rs|] == rs;
    } else {
      var init, n := rs[..|rs| - 1], Fitting(rs, cut);
      FittingBounds(init, cut);
      assert rs[..n] == init[..n];
      if n < |init| {
        assert rs[..n + 1] == init[..n + 1];
      } else {
        assert rs[..n + 1] == rs;
      }
    }
  }

  /** A log file that lost its end still yields every record written in full before the cut. */
  lemma {:induction false} ReadTornFile(rs: seq<LogRecord>, cut: nat)
    requires Writable(rs) && cut <= |EncodeLog(rs)|
    ensures ParseLog(EncodeLog(rs)[..cut]) == Payloads(rs[..Fitting(rs, cut)])
    ensures cut == |EncodeLog(rs)| ==> Fitting(rs, cut) == |rs|
  {
    hide EncodeLog, EncodedLength, ParseLog;
    var n := Fitting(rs, cut);
    FittingBounds(rs, cut);
    EncodeLogSize(rs);
    EncodeLogSize(rs[..n]);
    if n < |rs| {
      EncodeLogSize(rs[..n + 1]);
    }
    TornTail(rs, cut, n);
  }

  lemma {:induction false} NoRecords()
    ensures EncodeLog([]) == [] && ParseLog([]) == []
  {
  }

  // ----- The log manager

  /** The records of rs with an LSN of at most `lsn`, and those above it. */
  function UpTo(rs: seq<LogRecord>, lsn: nat): seq<LogRecord> {
    if rs == [] then []
    else if rs[|rs| - 1].lsn <= lsn then UpTo(rs[..|rs| - 1], lsn) + [rs[|rs| - 1]]
    else UpTo(rs[..|rs| - 1], lsn)
  }

  function After(rs: seq<LogRecord>, lsn: nat): seq<LogRecord> {
    if rs == [] then []
    else if rs[|rs| - 1].lsn <= lsn then After(rs[..|rs| - 1], lsn)
    else After(rs[..|rs| - 1], lsn) + [rs[|rs| - 1]]
  }

  ghost predicate Ascending(rs: seq<LogRecord>) {
    forall i, j :: 0 <= i < j < |rs| ==> rs[i].lsn < rs[j].lsn
  }

  lemma {:induction false} UpToMembers(rs: seq<LogRecord>, lsn: nat)
    ensures forall r :: r in UpTo(rs, lsn) <==> r in rs && r.lsn <= lsn
    ensures forall r :: r in After(rs, lsn) <==> r in rs && r.lsn > lsn
  {
    if rs != [] {
      var n := |rs| - 1;
      UpToMembers(rs[..n], lsn);
      assert rs == rs[..n] + [rs[n]];
    }
  }

  /** In an ascending list the two parts are a prefix and the rest. */
  lemma {:induction false} UpToSplits(rs: seq<LogRecord>, lsn: nat)
    requires Ascending(rs)
    ensures UpTo(rs, lsn) + After(rs, lsn) == rs
  {
    hide UpTo, After;
    if rs == [] {
      SplitNothing(lsn);
    } else if rs[|rs| - 1].lsn <= lsn {
      AscendingBelow(rs, lsn);
      AllUpTo(rs, lsn);
      assert rs + [] == rs;
    } else {
      UpToSplits(rs[..|rs| - 1], lsn);
      SplitKeepsLast(rs, lsn);
    }
  }

  lemma {:induction false} SplitNothing(lsn: nat)
    ensures UpTo([], lsn) == [] && After([], lsn) == []
  {
  }

  lemma {:induction false} AscendingBelow(rs: seq<LogRecord>, lsn: nat)
    requires Ascending(rs) && rs != [] && rs[|rs| - 1].lsn <= lsn
    ensures forall r :: r in rs ==> r.lsn <= lsn
  {
    forall r | r in rs
      ensures r.lsn <= lsn
    {
      var i :| 0 <= i < |rs| && rs[i] == r;
      assert i < |rs| - 1 ==> rs[i].lsn < rs[|rs| - 1].lsn;
    }
  }

  lemma {:induction false} SplitKeepsLast(rs: seq<LogRecord>, lsn: nat)
    requires rs != [] && rs[|rs| - 1].lsn > lsn
    requires var init := rs[..|rs| - 1]; UpTo(init, lsn) + After(init, lsn) == init
    ensures UpTo(rs, lsn) + After(rs, lsn) == rs
  {
    var n := |rs| - 1;
    var upTo, after := UpTo(rs[..n], lsn), After(rs[..n], lsn);
    assert UpTo(rs, lsn) == upTo + [] == upTo;
    assert After(rs, lsn) == after + [rs[n]];
    assert upTo + (after + [rs[n]]) == (upTo + after) + [rs[n]] == rs;
  }

  lemma {:induction false} AllUpTo(rs: seq<LogRecord>, lsn: nat)
    requires forall r :: r in rs ==> r.lsn <= lsn
    ensures UpTo(rs, lsn) == rs && After(rs, lsn) == []
  {
    if rs != [] {
      var n := |rs| - 1;
      AllUpTo(rs[..n], lsn);
      assert rs == rs[..n] + [rs[n]];
      assert rs[n] in rs;
    }
  }

  /** Moving the records up to an LSN behind the file's own keeps the bytes, the order and the size. */
  lemma {:induction false} FlushSplit(written: seq<LogRecord>, buffer: seq<LogRecord>, lsn: nat)
    requires Ascending(buffer)
    ensures var moved, kept := UpTo(buffer, lsn), After(buffer, lsn);
            && (written + moved) + kept == written + buffer
            && EncodeLog(written + moved) == EncodeLog(written) + EncodeLog(moved)
            && |EncodeLog(moved)| + EncodedLength(kept) == EncodedLength(buffer)
            && (forall r :: r in kept ==> r.lsn > lsn && r in buffer)
            && (forall r :: r in buffer && r.lsn <= lsn ==> r in moved)
  {
    hide EncodeLog, EncodedLength;
    var moved, kept := UpTo(buffer, lsn), After(buffer, lsn);
    UpToMembers(buffer, lsn);
    UpToSplits(buffer, lsn);
    EncodeLogAppend(written, moved);
    EncodeLogAppend(moved, kept);
    EncodeLogSize(moved);
    assert (written + moved) + kept == written + (moved + kept);
  }

  /** One step of the walk through the file. */
  lemma {:induction false} ParseAt(file: Buffer, pos: nat)
    requires pos <= |file|
    ensures |file| - pos < RECORD_OVERHEAD ==> ParseLog(file[pos..]) == []
    ensures |file| - pos >= RECORD_OVERHEAD ==>
              var len := FromLE(file[pos + 8..pos + 12]);
              ParseLog(file[pos..]) ==
                if |file| - pos - 12 < len then []
                else [file[pos + 12..pos + 12 + len]] + ParseLog(file[pos + 12 + len..])
  {
    hide FromLE;
    var tail := file[pos..];
    if |tail| >= RECORD_OVERHEAD {
      assert file[pos + 8..pos + 12] == tail[8..12];
      var len := FromLE(tail[8..12]);
      if |tail| - 12 >= len {
        assert file[pos + 12..pos + 12 + len] == tail[12..12 + len];
        assert file[pos + 12 + len..] == tail[12 + len..];
      }
    }
  }

  // ----- Going on behind what the file holds

  /** The bytes behind the last complete record: a torn header or a torn payload, or nothing. */
  function Unread(bytes: Buffer): (r: Buffer)
    ensures |r| < RECORD_OVERHEAD || |r| - RECORD_OVERHEAD < FromLE(r[8..12])
  {
    if |bytes| < RECORD_OVERHEAD then bytes
    else
      var len := FromLE(bytes[8..12]);
      if |bytes| - RECORD_OVERHEAD < len then bytes else Unread(bytes[12 + len..])
  }

  /** The first record of a file, if it is complete. */
  lemma {:induction false} ReadFirst(file: Buffer)
    ensures if |file| >= RECORD_OVERHEAD && |file| - RECORD_OVERHEAD >= FromLE(file[8..12]) then
              var len := FromLE(file[8..12]);
              && ParseLog(file) == [file[12..12 + len]] + ParseLog(file[12 + len..])
              && Unread(file) == Unread(file[12 + len..])
            else ParseLog(file) == [] && Unread(file) == file
  {
    hide FromLE;
  }

  /** The complete records of a file read back whatever follows; what it left unread joins what follows. */
  lemma {:induction false} ParseThrough(base: Buffer, rest: Buffer)
    ensures ParseLog(base + rest) == ParseLog(base) + ParseLog(Unread(base) + rest)
    decreases |base|
  {
    hide FromLE, ParseLog, Unread;
    ReadFirst(base);
    if |base| >= RECORD_OVERHEAD {
      var len := FromLE(base[8..12]);
      if |base| - RECORD_OVERHEAD >= len {
        var first, tail, file := base[12..12 + len], base[12 + len..], base + rest;
        ParseThrough(tail, rest);
        assert file[8..12] == base[8..12] && file[12..12 + len] == first && file[12 + len..] == tail + rest;
        ReadFirst(file);
        assert [first] + (ParseLog(tail) + ParseLog(Unread(tail) + rest))
            == ([first] + ParseLog(tail)) + ParseLog(Unread(tail) + rest);
      }
    }
  }

  lemma {:induction false} WholeLogReads(rs: seq<LogRecord>)
    requires Writable(rs)
    ensures ParseLog(EncodeLog(rs)) == Payloads(rs)
  {
    hide EncodeLog, ParseLog;
    ReadTornFile(rs, |EncodeLog(rs)|);
    assert EncodeLog(rs)[..|EncodeLog(rs)|] == EncodeLog(rs) && rs[..|rs|] == rs;
  }

  /** A log written in full leaves nothing unread. */
  lemma {:induction false} WholeLogLeavesNothing(rs: seq<LogRecord>)
    requires Writable(rs)
    ensures Unread(EncodeLog(rs)) == []
  {
    hide EncodeRecord, FromLE, EncodeLog;
    if rs == [] {
      NoRecords();
    } else {
      var r, tail := rs[0], rs[1..];
      EncodeLogFirst(rs);
      WholeLogLeavesNothing(tail);
      var file, size := EncodeLog(rs), |EncodeRecord(r)|;
      assert r in rs;
      HeaderOf(r, EncodeLog(tail), |file|);
      assert file[..|file|] == file;
      assert file[size..] == EncodeLog(tail);
    }
  }

  /** What is written behind the file reads back behind what the file held. */
  ghost predicate ReadsOn(base: Buffer, later: seq<LogRecord>) {
    ParseLog(base + EncodeLog(later)) == ParseLog(base) + Payloads(later)
  }

  lemma {:induction false} UntornReadsOn(base: Buffer, later: seq<LogRecord>)
    requires Unread(base) == [] && Writable(later)
    ensures ReadsOn(base, later)
  {
    hide ParseLog, EncodeLog;
    ParseThrough(base, EncodeLog(later));
    assert [] + EncodeLog(later) == EncodeLog(later);
    WholeLogReads(later);
  }

  /** The record that a log opened on the file writes first. */
  function FirstRecord(payload: Buffer): LogRecord {
    LogRecord(1, payload)
  }

  lemma {:induction false} FirstRecordBytes(payload: Buffer)
    requires |payload| < 256
    ensures EncodeLog([FirstRecord(payload)]) == [1, 0, 0, 0, 0, 0, 0, 0, |payload|, 0, 0, 0] + payload
  {
    var one := [FirstRecord(payload)];
    assert one[..0] == [] && EncodeLog(one) == [] + EncodeRecord(one[0]);
    ZeroLE(7);
    ZeroLE(3);
    assert ToLE(1, 8) == [1] + ToLE(0, 7) == [1, 0, 0, 0, 0, 0, 0, 0];
    assert ToLE(|payload|, 4) == [|payload|] + ToLE(0, 3) == [|payload|, 0, 0, 0];
  }

  lemma {:induction false} ZeroLE(width: nat)
    ensures ToLE(0, width) == seq(width, _ => 0)
  {
    if width > 0 {
      ZeroLE(width - 1);
    }
  }

  lemma {:induction false} LengthField(b: Buffer)
    requires |b| == 4
    ensures FromLE(b) == b[0] as int + 256 * (b[1] as int + 256 * (b[2] as int + 256 * b[3] as int))
  {
    var b1, b2, b3 := b[1..], b[2..], b[3..];
    assert b3[1..] == [] && b2[1..] == b3 && b1[1..] == b2;
    assert FromLE(b3) == b3[0];
    assert FromLE(b2) == b2[0] + 256 * FromLE(b3);
    assert FromLE(b1) == b1[0] + 256 * FromLE(b2);
  }

  /** Behind a torn end, the first record a reopened log writes does not read back, with one of two payloads. */
  lemma {:induction false} TornLosesFirst(base: Buffer) returns (payload: Buffer)
    requires Unread(base) != []
    ensures |payload| <= 2 && !ReadsOn(base, [FirstRecord(payload)])
  {
    hide FromLE, ToLE, EncodeLog, Unread;
    var u := Unread(base);
    payload := if |u| < RECORD_OVERHEAD then [0, 0] else [];
    var one := [FirstRecord(payload)];
    ParseThrough(base, EncodeLog(one));
    FirstRecordBytes(payload);
    TornFirst(u, payload);
    assert Payloads(one) == [payload];
    var held, found := ParseLog(base), ParseLog(u + EncodeLog(one));
    assert (held + found)[|held|..] == found && (held + [payload])[|held|..] == [payload];
  }

  /** The bytes of that record complete the torn length field to another length, or the torn payload. */
  lemma {:induction false} TornFirst(u: Buffer, payload: Buffer)
    requires u != [] && payload == if |u| < RECORD_OVERHEAD then [0, 0] else []
    requires |u| >= RECORD_OVERHEAD ==> |u| - RECORD_OVERHEAD < FromLE(u[8..12])
    ensures ParseLog(u + ([1, 0, 0, 0, 0, 0, 0, 0, |payload|, 0, 0, 0] + payload)) != [payload]
  {
    hide FromLE;
    var first: Buffer := [1, 0, 0, 0, 0, 0, 0, 0, |payload|, 0, 0, 0] + payload;
    var file := u + first;
    var field := file[8..12];
    if |u| >= RECORD_OVERHEAD {
      assert field == u[8..12];
    } else {
      LengthField(field);
      assert first[0] == 1 && forall i :: 1 <= i < 8 ==> first[i] == 0;
      assert |u| <= 8 ==> field[0] == first[8 - |u|];
      assert |u| >= 9 ==> field[|u| - 8] == first[0];
    }
    assert FromLE(field) != |payload|;
    if ParseLog(file) != [] {
      assert |ParseLog(file)[0]| == FromLE(field);
    }
  }

  /**
   A log can go on behind a file exactly when the file ends with a complete record: then
   everything written later reads back, and otherwise already the first record of the reopened
   log can be lost. The bytes left unread are known when the file is opened.
   */
  lemma {:induction false} ReadsOnIff(base: Buffer)
    ensures (forall later :: Writable(later) ==> ReadsOn(base, later)) <==> Unread(base) == []
    ensures (forall payload :: |payload| <= U32_MAX ==> ReadsOn(base, [FirstRecord(payload)])) <==> Unread(base) == []
  {
    hide ReadsOn, Unread;
    if Unread(base) == [] {
      forall later | Writable(later) ensures ReadsOn(base, later) {
        UntornReadsOn(base, later);
      }
      forall payload: Buffer | |payload| <= U32_MAX ensures ReadsOn(base, [FirstRecord(payload)]) {
        UntornReadsOn(base, [FirstRecord(payload)]);
      }
    } else {
      var payload := TornLosesFirst(base);
      assert Writable([FirstRecord(payload)]);
    }
  }

  /**
   As long as the new bytes fit in the payload a torn header announced, nothing written later
   can be read back at all.
   */
  lemma {:induction false} TornTailSwallows(rs: seq<LogRecord>, torn: LogRecord, cut: nat, later: seq<LogRecord>)
    requires Writable(rs) && |torn.payload| <= U32_MAX
    requires RECORD_OVERHEAD <= cut < |EncodeRecord(torn)| && cut + |EncodeLog(later)| < |EncodeRecord(torn)|
    ensures ParseLog(EncodeLog(rs) + (EncodeRecord(torn)[..cut] + EncodeLog(later))) == Payloads(rs)
  {
    hide EncodeLog;
    var file := EncodeRecord(torn)[..cut] + EncodeLog(later);
    LengthFits(|torn.payload|);
    assert file[8..12] == ToLE(|torn.payload|, 4);
    assert ParseLog(file) == [];
    WholeLogReads(rs);
    WholeLogLeavesNothing(rs);
    ParseThrough(EncodeLog(rs), file);
    assert [] + file == file;
  }

  /** Two torn files: a header without its 20 bytes swallows the next record, one without its byte garbles it. */
  lemma {:induction false} TornFiles()
    ensures var torn, next := EncodeRecord(LogRecord(7, seq(20, _ => 0)))[..12], FirstRecord([]);
            Unread(torn) == torn && ParseLog(torn + EncodeLog([next])) == []
    ensures var torn, next := EncodeRecord(LogRecord(7, [0]))[..12], FirstRecord([]);
            Unread(torn) == torn && ParseLog(torn + EncodeLog([next])) == [[1]]
  {
    hide ToLE, FromLE;
    var long, short, next := LogRecord(7, seq(20, _ => 0)), LogRecord(7, [0]), FirstRecord([]);
    LengthFits(20);
    LengthFits(1);
    var a, b := EncodeRecord(long)[..12], EncodeRecord(short)[..12];
    assert a[8..12] == ToLE(20, 4) && b[8..12] == ToLE(1, 4);
    FirstRecordBytes([]);
    var fileA, fileB := a + EncodeLog([next]), b + EncodeLog([next]);
    assert fileA[8..12] == a[8..12] && fileB[8..12] == b[8..12];
    assert EncodeLog([next])[0] == 1 && fileB[12..13] == [1];
    assert |fileB[13..]| == 11;
  }

  class DiskLogManager {
    var file: Buffer
    var flushedLsn: nat
    var nextLsn: nat
    var logBuffer: seq<LogRecord>

    /** The bytes the file held when this log was opened, and the records written behind them. */
    ghost var base: Buffer
    ghost var written: seq<LogRecord>

    /** Everything appended since the file was last emptied, in order. */
    ghost function History(): seq<LogRecord>
      reads this
    {
      written + logBuffer
    }

    ghost predicate Valid()
      reads this
    {
      && file == base + EncodeLog(written)
      && Ascending(History()) && Writable(History())
      && (forall r :: r in History() ==> r.lsn < nextLsn)
      && (forall r :: r in logBuffer ==> flushedLsn < r.lsn)
      && flushedLsn < nextLsn <= U64_MAX + 1
    }

    constructor (file: Buffer)
      ensures Valid() && this.file == file && base == file && History() == [] && nextLsn == 1
    {
      this.file, flushedLsn, nextLsn, logBuffer := file, 0, 1, [];
      base, written := file, [];
    }

    /** Records get consecutive LSNs and wait in memory. */
    method Append(payload: Buffer) returns (lsn: nat)
      requires Valid() && |payload| <= U32_MAX && nextLsn <= U64_MAX
      modifies this`nextLsn, this`logBuffer
      ensures Valid()
      ensures lsn == old(nextLsn) && nextLsn == old(nextLsn) + 1
      ensures logBuffer == old(logBuffer) + [LogRecord(lsn, payload)]
      ensures History() == old(History()) + [LogRecord(lsn, payload)]
    {
      hide EncodeLog;
      lsn := nextLsn;
      nextLsn := nextLsn + 1;
      logBuffer := logBuffer + [LogRecord(lsn, payload)];
      assert History() == old(History()) + [LogRecord(lsn, payload)];
    }

    /** flush_up_to: moves the records with an LSN of at most `lsn` to the file, in order. */
    method FlushUpTo(lsn: nat)
      requires Valid()
      modifies this`file, this`flushedLsn, this`logBuffer, this`written
      ensures Valid() && History() == old(History()) && base == old(base)
      ensures forall r :: r in logBuffer ==> r.lsn > lsn && r in old(logBuffer)
      ensures |old(written)| <= |written| && nextLsn == old(nextLsn)
      ensures forall r :: r in old(logBuffer) && r.lsn <= lsn ==> r in written
      ensures |file| + EncodedLength(logBuffer) == old(|file| + EncodedLength(logBuffer))
    {
      hide EncodeLog, EncodedLength, Ascending, UpTo, After, Writable;
      if lsn > flushedLsn {
        ghost var moved := UpTo(logBuffer, lsn);
        BufferAscending();
        FlushSplit(written, logBuffer, lsn);
        var bytes, retained, newFlushed := Drain(lsn);
        written := written + moved;
        logBuffer := retained;
        assert History() == old(History());
        if bytes != [] {
          file := file + bytes;
          flushedLsn := newFlushed;
        } else {
          NothingMoved(moved);
        }
      }
    }

    lemma {:induction false} BufferAscending()
      requires Valid()
      ensures Ascending(logBuffer) && Writable(logBuffer)
    {
      assert forall r :: r in logBuffer ==> r in History();
      assert forall i :: 0 <= i < |logBuffer| ==> logBuffer[i] == History()[|written| + i];
    }

    /** A file opened with nothing left unread reads back completely. */
    lemma {:induction false} WholeFileReads()
      requires Valid() && Unread(base) == []
      ensures ParseLog(file) == ParseLog(base) + Payloads(written)
    {
      hide EncodeLog, ParseLog, Unread;
      assert Writable(written) by {
        assert forall r :: r in written ==> r in History();
      }
      UntornReadsOn(base, written);
    }

    /** Flushing up to the highest LSN empties the buffer. */
    lemma {:induction false} NothingBuffered()
      requires Valid() && forall r :: r in logBuffer ==> r.lsn > U64_MAX
      ensures logBuffer == []
    {
      BufferedWereIssued();
      if logBuffer != [] {
        HasMember(logBuffer);
      }
    }

    lemma {:induction false} BufferedWereIssued()
      requires Valid()
      ensures forall r :: r in logBuffer ==> r.lsn <= U64_MAX
    {
      forall r | r in logBuffer ensures r.lsn <= U64_MAX {
        assert r in History();
      }
    }

    lemma {:induction false} NothingMoved(moved: seq<LogRecord>)
      requires EncodeLog(moved) == []
      ensures moved == []
    {
    }

    /** The loop over the buffer: the bytes to write, the records to keep, the highest LSN written. */
    method Drain(lsn: nat) returns (bytes: Buffer, retained: seq<LogRecord>, newFlushed: nat)
      requires Valid() && lsn > flushedLsn
      ensures bytes == EncodeLog(UpTo(logBuffer, lsn)) && retained == After(logBuffer, lsn)
      ensures flushedLsn <= newFlushed <= lsn && newFlushed < nextLsn
    {
      hide EncodeRecord, Ascending;
      bytes, retained, newFlushed := [], [], flushedLsn;
      for i := 0 to |logBuffer|
        invariant bytes == EncodeLog(UpTo(logBuffer[..i], lsn)) && retained == After(logBuffer[..i], lsn)
        invariant flushedLsn <= newFlushed <= lsn && newFlushed < nextLsn
      {
        var r := logBuffer[i];
        assert r in History();
        assert logBuffer[..i + 1][..i] == logBuffer[..i] && logBuffer[..i + 1][i] == r;
        ghost var before := UpTo(logBuffer[..i], lsn);
        assert before + [] == before;
        if r.lsn <= lsn {
          assert (before + [r])[..|before|] == before && (before + [r])[|before|] == r;
          bytes := bytes + EncodeRecord(r);
          if r.lsn > newFlushed {
            newFlushed := r.lsn;
          }
        } else {
          retained := retained + [r];
        }
      }
      assert logBuffer[..|logBuffer|] == logBuffer;
    }

    /** checkpoint: empties the file; records still in memory stay. */
    method Checkpoint()
      requires Valid()
      modifies this`file, this`base, this`written
      ensures Valid() && file == [] && base == [] && History() == logBuffer
    {
      hide Ascending, Writable, EncodeLog;
      BufferAscending();
      NoRecords();
      file, base, written := [], [], [];
      assert History() == logBuffer;
    }

    /** log_size: file bytes plus what the buffered records will take. */
    method LogSize() returns (size: nat)
      requires Valid()
      ensures size == |base| + EncodedLength(History())
    {
      hide EncodeRecord;
      size := 0;
      for i := 0 to |logBuffer|
        invariant size == EncodedLength(logBuffer[..i])
      {
        size := size + |logBuffer[i].payload| + RECORD_OVERHEAD;
        assert logBuffer[..i + 1][..i] == logBuffer[..i];
      }
      assert logBuffer[..|logBuffer|] == logBuffer;
      size := size + |file|;
      EncodeLogSize(written);
      EncodeLogAppend(written, logBuffer);
    }

    /** read_all_logs: walks the file until a header or a payload is cut short. */
    method ReadAllLogs() returns (records: seq<Buffer>)
      ensures records == ParseLog(file)
    {
      hide ParseLog, FromLE;
      assert file[0..] == file;
      records := [];
      var pos := 0;
      while true
        invariant pos <= |file| && records + ParseLog(file[pos..]) == ParseLog(file)
        decreases |file| - pos
      {
        ParseAt(file, pos);
        if |file| - pos < 8 {
          break;
        }
        if |file| - pos - 8 < 4 {
          break;
        }
        var len := FromLE(file[pos + 8..pos + 12]);
        if |file| - pos - 12 < len {
          break;
        }
        ghost var before, rest := records, ParseLog(file[pos + 12 + len..]);
        records := records + [file[pos + 12..pos + 12 + len]];
        assert records + rest == before + ([file[pos + 12..pos + 12 + len]] + rest);
        pos := pos + 12 + len;
      }
    }
  }
}
