/**
 The slotted heap page as bytes. A header, a slot directory growing up, and records growing
 down; the bytes refine a list of records.
 */
module SlottedPage {
  import opened Storage
  import opened Sequences
  import opened Bytes

  const PAGE_HEADER_SIZE: nat := 16
  const SLOT_SIZE: nat := 4
  const TUPLE_HEADER_SIZE: nat := 16

  datatype Header = Header(lsn: nat, slots: nat, lower: nat, upper: nat, flags: nat)

  datatype Record = Record(xmin: nat, xmax: nat, payload: Buffer)

  // ----- Layout

  function U16At(b: Buffer, i: nat): nat
    requires i + 2 <= |b|
  {
    FromLE(b[i..i + 2])
  }

  function U64At(b: Buffer, i: nat): nat
    requires i + 8 <= |b|
  {
    FromLE(b[i..i + 8])
  }

  function HeaderBytes(h: Header): (r: Buffer)
    ensures |r| == PAGE_HEADER_SIZE
  {
    ToLE(h.lsn, 8) + ToLE(h.slots, 2) + ToLE(h.lower, 2) + ToLE(h.upper, 2) + ToLE(h.flags, 2)
  }

  function ReadHeader(b: Buffer): Header
    requires PAGE_HEADER_SIZE <= |b|
  {
    Header(U64At(b, 0), U16At(b, 8), U16At(b, 10), U16At(b, 12), U16At(b, 14))
  }

  predicate HeaderFits(h: Header) {
    h.lsn < U64_END && h.slots < U16_END && h.lower < U16_END && h.upper < U16_END && h.flags < U16_END
  }

  function TupleHeaderBytes(xmin: nat, xmax: nat): (r: Buffer)
    ensures |r| == TUPLE_HEADER_SIZE
  {
    ToLE(xmin, 8) + ToLE(xmax, 8)
  }

  function RecordBytes(r: Record): Buffer {
    TupleHeaderBytes(r.xmin, r.xmax) + r.payload
  }

  function RecordLength(r: Record): nat {
    TUPLE_HEADER_SIZE + |r.payload|
  }

  /** The bytes taken by the records. */
  function Used(recs: seq<Record>): nat {
    if recs == [] then 0 else Used(recs[..|recs| - 1]) + RecordLength(recs[|recs| - 1])
  }

  /** Where record k starts on a page of the given size. */
  function Offset(size: nat, recs: seq<Record>, k: nat): int
    requires k < |recs|
  {
    size - Used(recs[..k + 1])
  }

  predicate RecordFits(r: Record) {
    r.xmin < U64_END && r.xmax < U64_END
  }

  // ----- Refinement

  ghost predicate SlotHolds(b: Buffer, recs: seq<Record>, k: nat)
    requires k < |recs|
  {
    var off := Offset(|b|, recs, k);
    && RecordFits(recs[k])
    && PAGE_HEADER_SIZE + SLOT_SIZE * |recs| <= off && off + RecordLength(recs[k]) <= |b|
    && b[16 + 4 * k..18 + 4 * k] == ToLE(off, 2)
    && b[18 + 4 * k..20 + 4 * k] == ToLE(RecordLength(recs[k]), 2)
    && b[off..off + RecordLength(recs[k])] == RecordBytes(recs[k])
  }

  /** The page holds exactly this list of records. */
  ghost predicate Holds(b: Buffer, recs: seq<Record>) {
    && PAGE_HEADER_SIZE + SLOT_SIZE * |recs| + Used(recs) <= |b| < U16_END
    && var h := ReadHeader(b);
    && h.slots == |recs|
    && h.lower == PAGE_HEADER_SIZE + SLOT_SIZE * |recs|
    && h.upper == |b| - Used(recs)
    && forall k {:trigger SlotHolds(b, recs, k)} :: 0 <= k < |recs| ==> SlotHolds(b, recs, k)
  }

  lemma {:induction false} HeaderRoundTrip(b: Buffer, h: Header)
    requires PAGE_HEADER_SIZE <= |b| && b[..PAGE_HEADER_SIZE] == HeaderBytes(h) && HeaderFits(h)
    ensures ReadHeader(b) == h
  {
    Pow256Values();
    var p := b[..16];
    assert b[0..8] == p[0..8] == ToLE(h.lsn, 8);
    assert b[8..10] == p[8..10] == ToLE(h.slots, 2);
    assert b[10..12] == p[10..12] == ToLE(h.lower, 2);
    assert b[12..14] == p[12..14] == ToLE(h.upper, 2);
    assert b[14..16] == p[14..16] == ToLE(h.flags, 2);
    LERoundTrip(h.lsn, 8);
    LERoundTrip(h.slots, 2);
    LERoundTrip(h.lower, 2);
    LERoundTrip(h.upper, 2);
    LERoundTrip(h.flags, 2);
  }

  lemma {:induction false} HeaderIsBounded(b: Buffer)
    requires PAGE_HEADER_SIZE <= |b|
    ensures HeaderFits(ReadHeader(b))
  {
    Pow256Values();
    FromLEBound(b[0..8]);
    FromLEBound(b[8..10]);
    FromLEBound(b[10..12]);
    FromLEBound(b[12..14]);
    FromLEBound(b[14..16]);
  }

  lemma {:induction false} UsedAppend(recs: seq<Record>, r: Record)
    ensures Used(recs + [r]) == Used(recs) + RecordLength(r)
  {
    assert (recs + [r])[..|recs|] == recs;
  }

  /** Records tile the space above `upper`: each ends where the one before it starts. */
  lemma {:induction false} SlotsTile(b: Buffer, recs: seq<Record>, k: nat)
    requires Holds(b, recs) && k < |recs|
    ensures Offset(|b|, recs, k) + RecordLength(recs[k]) == if k == 0 then |b| else Offset(|b|, recs, k - 1)
    ensures k == |recs| - 1 ==> Offset(|b|, recs, k) == ReadHeader(b).upper
  {
    var upTo := recs[..k + 1];
    assert upTo[..k] == recs[..k] && upTo[k] == recs[k];
    assert k == |recs| - 1 ==> upTo == recs;
  }

  lemma {:induction false} UsedMonotone(recs: seq<Record>, i: nat, j: nat)
    requires i <= j <= |recs|
    ensures Used(recs[..i]) <= Used(recs[..j])
    ensures i < j ==> Used(recs[..i]) + RecordLength(recs[j - 1]) <= Used(recs[..j])
    decreases j
  {
    if i < j {
      UsedMonotone(recs, i, j - 1);
      assert recs[..j][..j - 1] == recs[..j - 1];
    }
  }

  // ----- Reading

  /** get_record: out-of-range slots and slots that leave the page give nothing. */
  function GetRecord(b: Buffer, slot: nat): Option<Record>
    requires PAGE_HEADER_SIZE <= |b| && PAGE_HEADER_SIZE + SLOT_SIZE * ReadHeader(b).slots <= |b|
  {
    if slot >= ReadHeader(b).slots then None
    else
      var offset, length := U16At(b, 16 + 4 * slot), U16At(b, 18 + 4 * slot);
      if length == 0 then None
      else
        var headerEnd, end := offset + TUPLE_HEADER_SIZE, offset + length;
        if end > |b| || headerEnd > end then None
        else Some(Record(U64At(b, offset), U64At(b, offset + 8), b[headerEnd..end]))
  }

  /** The slot lies on the page, as get_record_from_bytes takes for granted. */
  predicate SlotInBounds(b: Buffer, slot: nat)
    requires PAGE_HEADER_SIZE <= |b| && PAGE_HEADER_SIZE + SLOT_SIZE * ReadHeader(b).slots <= |b|
  {
    slot < ReadHeader(b).slots ==>
      var offset, length := U16At(b, 16 + 4 * slot), U16At(b, 18 + 4 * slot);
      length == 0 || (offset + length <= |b| && TUPLE_HEADER_SIZE <= length)
  }

  /** get_record_from_bytes, the readers' version: deleted records are invisible. */
  function GetRecordFromBytes(b: Buffer, slot: nat): Option<Record>
    requires PAGE_HEADER_SIZE <= |b| && PAGE_HEADER_SIZE + SLOT_SIZE * ReadHeader(b).slots <= |b|
    requires SlotInBounds(b, slot)
  {
    if slot >= ReadHeader(b).slots then None
    else
      var offset, length := U16At(b, 16 + 4 * slot), U16At(b, 18 + 4 * slot);
      if length == 0 then None
      else
        var xmin, xmax := U64At(b, offset), U64At(b, offset + 8);
        if xmax != 0 then None
        else Some(Record(xmin, xmax, b[offset + TUPLE_HEADER_SIZE..offset + length]))
  }

  /** Reading back the bytes of one record. */
  lemma {:induction false} RecordReads(bytes: Buffer, r: Record)
    requires RecordFits(r) && bytes == RecordBytes(r)
    ensures FromLE(bytes[0..8]) == r.xmin && FromLE(bytes[8..16]) == r.xmax && bytes[16..] == r.payload
  {
    Pow256Values();
    assert bytes[0..8] == ToLE(r.xmin, 8) && bytes[8..16] == ToLE(r.xmax, 8);
    LERoundTrip(r.xmin, 8);
    LERoundTrip(r.xmax, 8);
  }

  lemma {:induction false} SubSlice(b: Buffer, lo: nat, hi: nat, i: nat, j: nat)
    requires i <= j && lo + j <= hi <= |b|
    ensures b[lo..hi][i..j] == b[lo + i..lo + j]
  {
    var s, t := b[lo..hi][i..j], b[lo + i..lo + j];
    assert forall k :: 0 <= k < j - i ==> s[k] == b[lo + i + k] == t[k];
  }

  lemma {:induction false} SlotReads(b: Buffer, recs: seq<Record>, k: nat)
    requires Holds(b, recs) && k < |recs|
    ensures U16At(b, 16 + 4 * k) == Offset(|b|, recs, k)
    ensures U16At(b, 18 + 4 * k) == RecordLength(recs[k])
    ensures var off := Offset(|b|, recs, k);
            && 0 <= off && off + RecordLength(recs[k]) <= |b|
            && U64At(b, off) == recs[k].xmin && U64At(b, off + 8) == recs[k].xmax
            && b[off + TUPLE_HEADER_SIZE..off + RecordLength(recs[k])] == recs[k].payload
  {
    hide ToLE, FromLE, Pow256, Used, RecordBytes, ReadHeader;
    assert SlotHolds(b, recs, k);
    Pow256Values();
    var r, off := recs[k], Offset(|b|, recs, k);
    LERoundTrip(off, 2);
    LERoundTrip(RecordLength(r), 2);
    var bytes := b[off..off + RecordLength(r)];
    RecordReads(bytes, r);
    SubSlice(b, off, off + RecordLength(r), 0, 8);
    SubSlice(b, off, off + RecordLength(r), 8, 16);
    SubSlice(b, off, off + RecordLength(r), 16, RecordLength(r));
    assert off + 8 + 8 == off + 16;
  }

  /** Reading a slot returns the record of the list, and the readers' version hides deleted ones. */
  lemma {:induction false} GetReadsList(b: Buffer, recs: seq<Record>, slot: nat)
    requires Holds(b, recs)
    ensures GetRecord(b, slot) == if slot < |recs| then Some(recs[slot]) else None
    ensures SlotInBounds(b, slot)
    ensures GetRecordFromBytes(b, slot) == if slot < |recs| && recs[slot].xmax == 0 then Some(recs[slot]) else None
  {
    if slot < |recs| {
      SlotReads(b, recs, slot);
    }
  }

  /** The bytes determine the list. */
  lemma {:induction false} HoldsUnique(b: Buffer, a: seq<Record>, c: seq<Record>)
    requires Holds(b, a) && Holds(b, c)
    ensures a == c
  {
    forall k | 0 <= k < |a| ensures a[k] == c[k] {
      GetReadsList(b, a, k);
      GetReadsList(b, c, k);
    }
  }

  // ----- Writing

  lemma {:induction false} CopyFromSlices(b: Buffer, at: nat, src: Buffer, i: nat, j: nat)
    requires at + |src| <= |b| && i <= j <= |b|
    ensures CopyFrom(b, at, src)[at..at + |src|] == src
    ensures j <= at || at + |src| <= i ==> CopyFrom(b, at, src)[i..j] == b[i..j]
  {
    var c := CopyFrom(b, at, src);
    if j <= at || at + |src| <= i {
      assert forall k :: i <= k < j ==> c[k] == b[k];
    }
  }

  /** insert_record compares the free space with the record, its header and one slot. */
  predicate HasSpace(b: Buffer, length: nat)
    requires PAGE_HEADER_SIZE <= |b|
  {
    ReadHeader(b).upper - ReadHeader(b).lower >= TUPLE_HEADER_SIZE + length + SLOT_SIZE
  }

  /** The four writes of insert_record. */
  function Inserted(b: Buffer, payload: Buffer, xmin: nat): (r: Buffer)
    requires PAGE_HEADER_SIZE <= |b| && PAGE_HEADER_SIZE <= ReadHeader(b).lower && ReadHeader(b).upper <= |b|
    requires HasSpace(b, |payload|)
    requires PAGE_HEADER_SIZE + SLOT_SIZE * ReadHeader(b).slots == ReadHeader(b).lower
    ensures |r| == |b|
  {
    var h := ReadHeader(b);
    var total := TUPLE_HEADER_SIZE + |payload|;
    var off := h.upper - total;
    var b1 := CopyFrom(b, off, TupleHeaderBytes(xmin, 0));
    var b2 := CopyFrom(b1, off + TUPLE_HEADER_SIZE, payload);
    var b3 := CopyFrom(b2, 0, HeaderBytes(Header(h.lsn, h.slots + 1, h.lower + SLOT_SIZE, off, h.flags)));
    var b4 := CopyFrom(b3, PAGE_HEADER_SIZE + SLOT_SIZE * h.slots, ToLE(off, 2));
    CopyFrom(b4, PAGE_HEADER_SIZE + SLOT_SIZE * h.slots + 2, ToLE(total, 2))
  }

  /** What the writes leave where: the new record, its slot, the header, and everything else untouched. */
  lemma {:induction false} InsertedSlices(b: Buffer, payload: Buffer, xmin: nat, i: nat, j: nat)
    requires PAGE_HEADER_SIZE <= |b| && PAGE_HEADER_SIZE <= ReadHeader(b).lower && ReadHeader(b).upper <= |b|
    requires HasSpace(b, |payload|)
    requires PAGE_HEADER_SIZE + SLOT_SIZE * ReadHeader(b).slots == ReadHeader(b).lower
    requires i <= j <= |b|
    ensures var h, r := ReadHeader(b), Inserted(b, payload, xmin);
            var total := TUPLE_HEADER_SIZE + |payload|;
            var off := h.upper - total;
            && r[..16] == HeaderBytes(Header(h.lsn, h.slots + 1, h.lower + SLOT_SIZE, off, h.flags))
            && r[h.lower..h.lower + 2] == ToLE(off, 2) && r[h.lower + 2..h.lower + 4] == ToLE(total, 2)
            && r[off..off + 16] == TupleHeaderBytes(xmin, 0) && r[off + 16..off + total] == payload
            && ((16 <= i && j <= h.lower) || h.upper <= i ==> r[i..j] == b[i..j])
  {
    hide ReadHeader, HeaderBytes, TupleHeaderBytes, ToLE, CopyFrom;
    var h := ReadHeader(b);
    var total := TUPLE_HEADER_SIZE + |payload|;
    var off := h.upper - total;
    var th := TupleHeaderBytes(xmin, 0);
    var hd := HeaderBytes(Header(h.lsn, h.slots + 1, h.lower + SLOT_SIZE, off, h.flags));
    var b1 := CopyFrom(b, off, th);
    var b2 := CopyFrom(b1, off + 16, payload);
    var b3 := CopyFrom(b2, 0, hd);
    var b4 := CopyFrom(b3, h.lower, ToLE(off, 2));
    var b5 := CopyFrom(b4, h.lower + 2, ToLE(total, 2));
    // the header
    CopyFromSlices(b2, 0, hd, 0, 0);
    CopyFromSlices(b3, h.lower, ToLE(off, 2), 0, 16);
    CopyFromSlices(b4, h.lower + 2, ToLE(total, 2), 0, 16);
    assert b3[0..16] == b3[..16] && b5[0..16] == b5[..16];
    // the slot
    CopyFromSlices(b4, h.lower + 2, ToLE(total, 2), h.lower, h.lower + 2);
    // the record
    CopyFromSlices(b1, off + 16, payload, off, off + 16);
    CopyFromSlices(b2, 0, hd, off, off + 16);
    CopyFromSlices(b3, h.lower, ToLE(off, 2), off, off + 16);
    CopyFromSlices(b4, h.lower + 2, ToLE(total, 2), off, off + 16);
    CopyFromSlices(b2, 0, hd, off + 16, off + total);
    CopyFromSlices(b3, h.lower, ToLE(off, 2), off + 16, off + total);
    CopyFromSlices(b4, h.lower + 2, ToLE(total, 2), off + 16, off + total);
    // the rest
    CopyFromSlices(b, off, th, i, j);
    CopyFromSlices(b1, off + 16, payload, i, j);
    CopyFromSlices(b2, 0, hd, i, j);
    CopyFromSlices(b3, h.lower, ToLE(off, 2), i, j);
    CopyFromSlices(b4, h.lower + 2, ToLE(total, 2), i, j);
  }

  /** A slot other than those written keeps its record. */
  lemma {:induction false} SlotKept(b: Buffer, c: Buffer, recs: seq<Record>, more: seq<Record>, k: nat)
    requires k < |recs| && SlotHolds(b, recs, k) && |c| == |b|
    requires recs[..k + 1] == (recs + more)[..k + 1]
    requires PAGE_HEADER_SIZE + SLOT_SIZE * |recs + more| <= Offset(|b|, recs, k)
    requires c[16 + 4 * k..20 + 4 * k] == b[16 + 4 * k..20 + 4 * k]
    requires var off := Offset(|b|, recs, k);
             c[off..off + RecordLength(recs[k])] == b[off..off + RecordLength(recs[k])]
    ensures SlotHolds(c, recs + more, k)
  {
    hide ToLE, RecordBytes, Used;
    SubSlice(b, 16 + 4 * k, 20 + 4 * k, 0, 2);
    SubSlice(b, 16 + 4 * k, 20 + 4 * k, 2, 4);
    SubSlice(c, 16 + 4 * k, 20 + 4 * k, 0, 2);
    SubSlice(c, 16 + 4 * k, 20 + 4 * k, 2, 4);
  }

  /** insert_record appends to the list; every other record stays byte-identical. */
  lemma {:induction false} InsertHolds(b: Buffer, recs: seq<Record>, payload: Buffer, xmin: nat)
    requires Holds(b, recs) && HasSpace(b, |payload|) && xmin < U64_END
    ensures ReadHeader(b).lower == PAGE_HEADER_SIZE + SLOT_SIZE * ReadHeader(b).slots
    ensures Holds(Inserted(b, payload, xmin), recs + [Record(xmin, 0, payload)])
    ensures ReadHeader(Inserted(b, payload, xmin)).lsn == ReadHeader(b).lsn
  {
    hide ReadHeader, Inserted, Used, SlotHolds;
    var c, r := Inserted(b, payload, xmin), Record(xmin, 0, payload);
    var all := recs + [r];
    InsertedHeader(b, recs, payload, xmin);
    forall k {:trigger SlotHolds(c, all, k)} | 0 <= k < |all| ensures SlotHolds(c, all, k) {
      if k < |recs| {
        InsertKeepsSlot(b, recs, payload, xmin, k);
      } else {
        InsertWritesSlot(b, recs, payload, xmin);
      }
    }
  }

  lemma {:induction false} InsertedHeader(b: Buffer, recs: seq<Record>, payload: Buffer, xmin: nat)
    requires Holds(b, recs) && HasSpace(b, |payload|)
    ensures var h, c := ReadHeader(b), ReadHeader(Inserted(b, payload, xmin));
            && c == Header(h.lsn, h.slots + 1, h.lower + SLOT_SIZE, h.upper - (TUPLE_HEADER_SIZE + |payload|), h.flags)
            && PAGE_HEADER_SIZE + SLOT_SIZE * (|recs| + 1) + Used(recs + [Record(xmin, 0, payload)]) <= |b|
            && Used(recs + [Record(xmin, 0, payload)]) == Used(recs) + TUPLE_HEADER_SIZE + |payload|
  {
    hide ReadHeader, Inserted, Used, HeaderBytes, TupleHeaderBytes, ToLE, FromLE, SlotHolds;
    var h := ReadHeader(b);
    InsertedSlices(b, payload, xmin, 0, 0);
    HeaderIsBounded(b);
    UsedAppend(recs, Record(xmin, 0, payload));
    var upper := h.upper - (TUPLE_HEADER_SIZE + |payload|);
    HeaderRoundTrip(Inserted(b, payload, xmin), Header(h.lsn, h.slots + 1, h.lower + SLOT_SIZE, upper, h.flags));
  }

  lemma {:induction false} InsertKeepsSlot(b: Buffer, recs: seq<Record>, payload: Buffer, xmin: nat, k: nat)
    requires Holds(b, recs) && HasSpace(b, |payload|) && k < |recs|
    ensures SlotHolds(Inserted(b, payload, xmin), recs + [Record(xmin, 0, payload)], k)
  {
    hide ReadHeader, Inserted, Used, HeaderBytes, TupleHeaderBytes, ToLE, FromLE, RecordBytes;
    assert SlotHolds(b, recs, k);
    var off := Offset(|b|, recs, k);
    var more := [Record(xmin, 0, payload)];
    UsedMonotone(recs, k + 1, |recs|);
    assert recs[..|recs|] == recs;
    assert recs[..k + 1] == (recs + more)[..k + 1];
    InsertedSlices(b, payload, xmin, 16 + 4 * k, 20 + 4 * k);
    InsertedSlices(b, payload, xmin, off, off + RecordLength(recs[k]));
    SlotKept(b, Inserted(b, payload, xmin), recs, more, k);
  }

  lemma {:induction false} InsertWritesSlot(b: Buffer, recs: seq<Record>, payload: Buffer, xmin: nat)
    requires Holds(b, recs) && HasSpace(b, |payload|) && xmin < U64_END
    ensures SlotHolds(Inserted(b, payload, xmin), recs + [Record(xmin, 0, payload)], |recs|)
  {
    hide ReadHeader, Inserted, Used, HeaderBytes, TupleHeaderBytes, ToLE, FromLE;
    var r := Record(xmin, 0, payload);
    var all, c := recs + [r], Inserted(b, payload, xmin);
    InsertedHeader(b, recs, payload, xmin);
    InsertedSlices(b, payload, xmin, 0, 0);
    assert all[..|recs| + 1] == all;
    var off := Offset(|b|, all, |recs|);
    assert off == ReadHeader(b).upper - (TUPLE_HEADER_SIZE + |payload|);
    var bytes := c[off..off + RecordLength(r)];
    SubSlice(c, off, off + RecordLength(r), 0, 16);
    SubSlice(c, off, off + RecordLength(r), 16, RecordLength(r));
    assert bytes == bytes[0..16] + bytes[16..RecordLength(r)];
  }

  /** mark_deleted rewrites one tuple header. */
  function Marked(b: Buffer, recs: seq<Record>, k: nat, xmax: nat): (r: Buffer)
    requires k < |recs| && 0 <= Offset(|b|, recs, k) <= |b| - TUPLE_HEADER_SIZE
    ensures |r| == |b|
  {
    CopyFrom(b, Offset(|b|, recs, k), TupleHeaderBytes(recs[k].xmin, xmax))
  }

  lemma {:induction false} UsedSameLengths(a: seq<Record>, b: seq<Record>)
    requires |a| == |b| && forall i :: 0 <= i < |a| ==> RecordLength(a[i]) == RecordLength(b[i])
    ensures Used(a) == Used(b)
  {
    if a != [] {
      UsedSameLengths(a[..|a| - 1], b[..|b| - 1]);
    }
  }

  /** Marking changes only the xmax of its record. */
  lemma {:induction false} MarkHolds(b: Buffer, recs: seq<Record>, k: nat, xmax: nat)
    requires Holds(b, recs) && k < |recs| && xmax < U64_END
    ensures SlotHolds(b, recs, k)
    ensures Holds(Marked(b, recs, k, xmax), recs[k := recs[k].(xmax := xmax)])
    ensures ReadHeader(Marked(b, recs, k, xmax)) == ReadHeader(b)
  {
    hide ReadHeader, RecordBytes, TupleHeaderBytes, ToLE, CopyFrom, Used;
    assert SlotHolds(b, recs, k);
    var c, all := Marked(b, recs, k, xmax), recs[k := recs[k].(xmax := xmax)];
    UsedSameLengths(recs, all);
    CopyFromSlices(b, Offset(|b|, recs, k), TupleHeaderBytes(recs[k].xmin, xmax), 0, 16);
    SameHeader(b, c);
    forall j {:trigger SlotHolds(c, all, j)} | 0 <= j < |all| ensures SlotHolds(c, all, j) {
      assert SlotHolds(b, recs, j);
      MarkSlot(b, recs, k, xmax, j);
    }
  }

  lemma {:induction false} SameHeader(b: Buffer, c: Buffer)
    requires 16 <= |b| == |c| && c[0..16] == b[0..16]
    ensures ReadHeader(c) == ReadHeader(b)
  {
    hide FromLE;
    SubSlice(b, 0, 16, 0, 8);
    SubSlice(b, 0, 16, 8, 10);
    SubSlice(b, 0, 16, 10, 12);
    SubSlice(b, 0, 16, 12, 14);
    SubSlice(b, 0, 16, 14, 16);
    SubSlice(c, 0, 16, 0, 8);
    SubSlice(c, 0, 16, 8, 10);
    SubSlice(c, 0, 16, 10, 12);
    SubSlice(c, 0, 16, 12, 14);
    SubSlice(c, 0, 16, 14, 16);
  }

  lemma {:induction false} MarkSlot(b: Buffer, recs: seq<Record>, k: nat, xmax: nat, j: nat)
    requires k < |recs| && SlotHolds(b, recs, k) && xmax < U64_END && j < |recs| && SlotHolds(b, recs, j)
    ensures SlotHolds(Marked(b, recs, k, xmax), recs[k := recs[k].(xmax := xmax)], j)
  {
    hide ToLE, CopyFrom, Used, FromLE, Pow256, TupleHeaderBytes;
    var c, all := Marked(b, recs, k, xmax), recs[k := recs[k].(xmax := xmax)];
    var at, th := Offset(|b|, recs, k), TupleHeaderBytes(recs[k].xmin, xmax);
    var off, len := Offset(|b|, recs, j), RecordLength(recs[j]);
    UsedSameLengths(recs[..j + 1], all[..j + 1]);
    CopyFromSlices(b, at, th, 16 + 4 * j, 18 + 4 * j);
    CopyFromSlices(b, at, th, 18 + 4 * j, 20 + 4 * j);
    if j == k {
      CopyFromSlices(b, at, th, off + 16, off + len);
      SubSlice(c, off, off + len, 0, 16);
      SubSlice(c, off, off + len, 16, len);
      SubSlice(b, off, off + len, 16, len);
      var bytes := c[off..off + len];
      assert bytes == bytes[0..16] + bytes[16..len];
      assert RecordBytes(recs[k])[16..len] == recs[k].payload;
    } else {
      RecordsDisjoint(recs, j, k);
      CopyFromSlices(b, at, th, off, off + len);
    }
  }

  lemma {:induction false} RecordsDisjoint(recs: seq<Record>, j: nat, k: nat)
    requires j < |recs| && k < |recs| && j != k
    ensures j < k ==> Used(recs[..j + 1]) + RecordLength(recs[k]) <= Used(recs[..k + 1])
    ensures k < j ==> Used(recs[..k + 1]) + RecordLength(recs[j]) <= Used(recs[..j + 1])
  {
    if j < k {
      UsedMonotone(recs, j + 1, k + 1);
    } else {
      UsedMonotone(recs, k + 1, j + 1);
    }
  }

  /** The LSN is the first eight bytes of the page. */
  lemma {:induction false} LsnIff(b: Buffer, lsn: nat)
    requires PAGE_HEADER_SIZE <= |b| && lsn < U64_END
    ensures ReadHeader(b).lsn == lsn <==> b[..8] == ToLE(lsn, 8)
  {
    Pow256Values();
    LERoundTrip(lsn, 8);
    assert b[0..8] == b[..8];
    LEBytesRoundTrip(b[..8]);
  }

  lemma {:induction false} HeaderBytesOf(b: Buffer)
    requires PAGE_HEADER_SIZE <= |b|
    ensures HeaderBytes(ReadHeader(b)) == b[..PAGE_HEADER_SIZE]
  {
    hide ToLE, FromLE;
    LEBytesRoundTrip(b[0..8]);
    LEBytesRoundTrip(b[8..10]);
    LEBytesRoundTrip(b[10..12]);
    LEBytesRoundTrip(b[12..14]);
    LEBytesRoundTrip(b[14..16]);
  }

  /** set_lsn rewrites the whole header; only the LSN changes. */
  lemma {:induction false} RestampBytes(b: Buffer, lsn: nat)
    requires PAGE_HEADER_SIZE <= |b|
    ensures CopyFrom(b, 0, HeaderBytes(ReadHeader(b).(lsn := lsn))) == ToLE(lsn, 8) + b[8..]
  {
    hide ToLE, FromLE;
    var h := ReadHeader(b);
    HeaderBytesOf(b);
    assert HeaderBytes(h.(lsn := lsn))[8..] == HeaderBytes(h)[8..] == b[..16][8..];
    var c := CopyFrom(b, 0, HeaderBytes(h.(lsn := lsn)));
    forall i | 0 <= i < |b| ensures c[i] == (ToLE(lsn, 8) + b[8..])[i] {
      if 8 <= i < 16 {
        assert HeaderBytes(h.(lsn := lsn))[8..][i - 8] == b[..16][8..][i - 8];
      }
    }
  }

  /** Rewriting the header with another LSN keeps every record. */
  lemma {:induction false} RestampHolds(b: Buffer, recs: seq<Record>, lsn: nat)
    requires Holds(b, recs) && lsn < U64_END
    ensures var c := CopyFrom(b, 0, HeaderBytes(ReadHeader(b).(lsn := lsn)));
            Holds(c, recs) && ReadHeader(c) == ReadHeader(b).(lsn := lsn)
  {
    hide ReadHeader, HeaderBytes, ToLE, FromLE, CopyFrom, Used, RecordBytes;
    var h := ReadHeader(b).(lsn := lsn);
    var hd := HeaderBytes(h);
    var c := CopyFrom(b, 0, hd);
    HeaderIsBounded(b);
    CopyFromSlices(b, 0, hd, 0, 0);
    assert c[0..16] == c[..16];
    HeaderRoundTrip(c, h);
    forall k {:trigger SlotHolds(c, recs, k)} | 0 <= k < |recs| ensures SlotHolds(c, recs, k) {
      assert SlotHolds(b, recs, k);
      var off := Offset(|b|, recs, k);
      CopyFromSlices(b, 0, hd, 16 + 4 * k, 18 + 4 * k);
      CopyFromSlices(b, 0, hd, 18 + 4 * k, 20 + 4 * k);
      CopyFromSlices(b, 0, hd, off, off + RecordLength(recs[k]));
    }
  }

  function EmptyHeader(size: nat): Header {
    Header(0, 0, PAGE_HEADER_SIZE, size, 0)
  }

  lemma {:induction false} InitHolds(b: Buffer)
    requires PAGE_HEADER_SIZE <= |b| < U16_END
    ensures var c := CopyFrom(b, 0, HeaderBytes(EmptyHeader(|b|)));
            Holds(c, []) && ReadHeader(c).lsn == 0
  {
    var hd := HeaderBytes(EmptyHeader(|b|));
    CopyFromSlices(b, 0, hd, 0, 0);
    var c := CopyFrom(b, 0, hd);
    assert c[0..16] == c[..16];
    HeaderRoundTrip(c, EmptyHeader(|b|));
  }

  /** The room left for a record, its header and its slot. */
  function FreeSpace(size: nat, recs: seq<Record>): int {
    size - PAGE_HEADER_SIZE - SLOT_SIZE * |recs| - Used(recs)
  }

  class SlottedPage {
    const data: array<Byte>
    ghost var records: seq<Record>

    ghost predicate Valid()
      reads this, data
    {
      Holds(data[..], records)
    }

    constructor (size: nat)
      requires PAGE_HEADER_SIZE <= size < U16_END
      ensures Valid() && fresh(data) && data.Length == size && records == []
    {
      data := new Byte[size](i => 0);
      records := [];
      new;
      Init();
    }

    /** `copy_from_slice` into the page. */
    method Write(at: nat, src: Buffer)
      requires at + |src| <= data.Length
      modifies data
      ensures data[..] == CopyFrom(old(data[..]), at, src)
    {
      ghost var was := data[..];
      for i := 0 to |src|
        invariant data[..] == CopyFrom(was, at, src[..i])
      {
        data[at + i] := src[i];
        assert data[..] == CopyFrom(was, at, src[..i])[at + i := src[i]];
      }
      assert src[..|src|] == src;
    }

    /** Whatever the bytes were, the page is empty afterwards. */
    method Init()
      requires PAGE_HEADER_SIZE <= data.Length < U16_END
      modifies this`records, data
      ensures Valid() && records == [] && ReadHeader(data[..]).lsn == 0
    {
      InitHolds(data[..]);
      Write(0, HeaderBytes(EmptyHeader(data.Length)));
      records := [];
    }

    method SetLsn(lsn: nat)
      requires Valid() && lsn < U64_END
      modifies data
      ensures Valid() && ReadHeader(data[..]).lsn == lsn
      ensures data[..] == ToLE(lsn, 8) + old(data[8..])
    {
      RestampHolds(data[..], records, lsn);
      RestampBytes(data[..], lsn);
      Write(0, HeaderBytes(ReadHeader(data[..]).(lsn := lsn)));
    }

    method InsertRecord(payload: Buffer, xmin: nat) returns (slot: Option<nat>)
      requires Valid() && xmin < U64_END && TUPLE_HEADER_SIZE + |payload| + SLOT_SIZE < U16_END
      modifies this`records, data
      ensures Valid() && ReadHeader(data[..]).lsn == old(ReadHeader(data[..]).lsn)
      ensures slot.Some? <==> old(FreeSpace(data.Length, records)) >= TUPLE_HEADER_SIZE + |payload| + SLOT_SIZE
      ensures slot.Some? ==> slot.value == |old(records)| && records == old(records) + [Record(xmin, 0, payload)]
      ensures slot.None? ==> records == old(records) && data[..] == old(data[..])
    {
      hide ReadHeader, Used, CopyFrom, HeaderBytes, TupleHeaderBytes, ToLE, FromLE, SlotHolds;
      var b := data[..];
      var h := ReadHeader(b);
      if h.upper - h.lower < TUPLE_HEADER_SIZE + |payload| + SLOT_SIZE {
        return None;
      }
      InsertHolds(b, records, payload, xmin);
      var total := TUPLE_HEADER_SIZE + |payload|;
      var off := h.upper - total;
      Write(off, TupleHeaderBytes(xmin, 0));
      Write(off + TUPLE_HEADER_SIZE, payload);
      Write(0, HeaderBytes(Header(h.lsn, h.slots + 1, h.lower + SLOT_SIZE, off, h.flags)));
      Write(PAGE_HEADER_SIZE + SLOT_SIZE * h.slots, ToLE(off, 2));
      Write(PAGE_HEADER_SIZE + SLOT_SIZE * h.slots + 2, ToLE(total, 2));
      records := records + [Record(xmin, 0, payload)];
      slot := Some(h.slots);
    }

    method Get(slot: nat) returns (r: Option<Record>)
      requires Valid()
      ensures r == if slot < |records| then Some(records[slot]) else None
    {
      GetReadsList(data[..], records, slot);
      r := GetRecord(data[..], slot);
    }

    method MarkDeleted(slot: nat, xmax: nat) returns (ok: bool)
      requires Valid() && xmax < U64_END
      modifies this`records, data
      ensures Valid() && ReadHeader(data[..]) == old(ReadHeader(data[..]))
      ensures ok <==> slot < |old(records)|
      ensures records == if ok then old(records)[slot := old(records)[slot].(xmax := xmax)] else old(records)
      ensures !ok ==> data[..] == old(data[..])
    {
      hide ReadHeader, Used, Marked, SlotHolds;
      var b := data[..];
      if slot >= ReadHeader(b).slots {
        return false;
      }
      SlotReads(b, records, slot);
      MarkHolds(b, records, slot, xmax);
      var offset, length := U16At(b, 16 + 4 * slot), U16At(b, 18 + 4 * slot);
      if length == 0 {
        return false;
      }
      MarkedIs(b, records, slot, xmax);
      Write(offset, TupleHeaderBytes(U64At(b, offset), xmax));
      records := records[slot := records[slot].(xmax := xmax)];
      ok := true;
    }
  }

  lemma {:induction false} MarkedIs(b: Buffer, recs: seq<Record>, k: nat, xmax: nat)
    requires Holds(b, recs) && k < |recs|
    requires 0 <= Offset(|b|, recs, k) <= |b| - TUPLE_HEADER_SIZE
    ensures Marked(b, recs, k, xmax) == CopyFrom(b, Offset(|b|, recs, k), TupleHeaderBytes(recs[k].xmin, xmax))
  {
  }
}
