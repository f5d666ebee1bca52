/**
 Replay over a heap and an index that need not agree, as when only some of their pages reached
 the disk before a crash: what every record does, and exactly which keys the log repairs.
 */
module Torn {
  import opened Storage
  import opened Bytes
  import opened SlottedPage
  import opened Heap
  import opened Replay

  // ----- The replay loop on any stored state

  /** mark_deleted on the record an index entry names. */
  function Erased(t: TableDef, pages: Pages, c: Ctid): Pages {
    if c.page.fileId == t.fileId && c.page.pageNum < |pages| && c.slot < |pages[c.page.pageNum]|
    then MarkAt(pages, c.page.pageNum, c.slot)
    else pages
  }

  /** The replay loop makes a first page before it puts a tuple into a heap without pages. */
  function Started(pages: Pages): Pages {
    if pages == [] then [[]] else pages
  }

  function Placed(t: TableDef, pages: Pages, data: Buffer): Pages {
    Appended(t, Started(pages), data)
  }

  function PlacedAt(t: TableDef, pages: Pages, data: Buffer): Ctid {
    AppendedAt(t, Started(pages), data)
  }

  /** For a tuple that fits this is what INSERT does; another one leaves two empty pages behind. */
  lemma {:induction false} PlacedIsAppended(t: TableDef, pages: Pages, data: Buffer)
    requires PAGE_HEADER_SIZE <= t.pageSize
    ensures Fits(t, data) || pages != [] ==>
              && Placed(t, pages, data) == Appended(t, pages, data)
              && PlacedAt(t, pages, data) == AppendedAt(t, pages, data)
    ensures !Fits(t, data) && pages == [] ==>
              Placed(t, pages, data) == [[], []] && PlacedAt(t, pages, data) == CtidOf(t, 1, 0)
  {
    var none: seq<Record> := [];
    assert none + [Record(1, 0, data)] == [Record(1, 0, data)];
  }

  /** What one iteration of the replay loop does to heap and index, whether or not they agree. */
  function StoredStep(t: TableDef, rec: Buffer, pages: Pages, contents: map<int, Ctid>): (Pages, map<int, Ctid>) {
    match OpOf(t, rec)
    case Some(Insert(k, data)) =>
      if k in contents then (pages, contents)
      else (Placed(t, pages, data), contents[k := PlacedAt(t, pages, data)])
    case Some(Remove(k)) => if k in contents then (Erased(t, pages, contents[k]), contents - {k}) else (pages, contents)
    case None => (pages, contents)
  }

  function StoredAll(t: TableDef, recs: seq<Buffer>, pages: Pages, contents: map<int, Ctid>): (Pages, map<int, Ctid>) {
    if recs == [] then (pages, contents)
    else
      var before := StoredAll(t, recs[..|recs| - 1], pages, contents);
      StoredStep(t, recs[|recs| - 1], before.0, before.1)
  }

  /** The loop counts the records that found something to do. */
  predicate Applies(t: TableDef, rec: Buffer, contents: map<int, Ctid>) {
    match OpOf(t, rec)
    case Some(Insert(k, _)) => k !in contents
    case Some(Remove(k)) => k in contents
    case None => false
  }

  /** An insert recorded in the log fits on a page of the table. */
  predicate InsertFits(t: TableDef, rec: Buffer) {
    match OpOf(t, rec)
    case Some(Insert(_, data)) => Fits(t, data)
    case _ => true
  }

  lemma {:induction false} StoredAllStep(t: TableDef, recs: seq<Buffer>, i: nat, pages: Pages, contents: map<int, Ctid>)
    requires i < |recs|
    ensures StoredAll(t, recs[..0], pages, contents) == (pages, contents)
    ensures var before := StoredAll(t, recs[..i], pages, contents);
            StoredAll(t, recs[..i + 1], pages, contents) == StoredStep(t, recs[i], before.0, before.1)
  {
    assert recs[..i + 1][..i] == recs[..i];
  }

  /** Heap and index after the loop are those of this table's own records. */
  lemma {:induction false} OwnRecordsStored(t: TableDef, recs: seq<Buffer>, pages: Pages, contents: map<int, Ctid>)
    requires 0 < |t.name| < U16_END
    ensures StoredAll(t, recs, pages, contents) == StoredAll(t, RecordsOf(t.name, recs), pages, contents)
  {
    hide NamesTable, OpOf;
    if recs != [] {
      var init, last := recs[..|recs| - 1], recs[|recs| - 1];
      var own := RecordsOf(t.name, init);
      OwnRecordsStored(t, init, pages, contents);
      if NamesTable(last, t.name) {
        assert (own + [last])[..|own|] == own;
      } else {
        StrangersAskNothing(t, last);
        assert RecordsOf(t.name, recs) == own;
      }
    }
  }

  /** A stored table: the pages of its heap, the entries of its index, and the rows meant. */
  datatype Stand = Stand(pages: Pages, entries: map<int, Ctid>, rows: Rows)

  /**
   What replaying the record (op, name, data) must do: code 0 with this table's name and a tuple
   with a fresh key adds the tuple and its entry, code 1 with a present key takes the entry and
   marks the record it names; anything else leaves everything alone.
   */
  ghost predicate Replayed(t: TableDef, op: Byte, name: Buffer, data: Buffer, before: Stand, after: Stand,
                           applied: bool)
  {
    var key := KeyOf(t, data);
    if name != t.name || op > 1 || key.None? then after == before && !applied
    else
      var k: int := key.value;
      && (applied <==> if op == 0 then k !in before.entries else k in before.entries)
      && (!applied ==> after.pages == before.pages && after.entries == before.entries)
      && (applied && op == 0 ==>
            && after.pages == Placed(t, before.pages, data)
            && after.entries == before.entries[k := PlacedAt(t, before.pages, data)])
      && (applied && op == 1 ==>
            && after.pages == Erased(t, before.pages, before.entries[k])
            && after.entries == before.entries - {k})
      && after.rows == if op == 1 then before.rows - {k}
                       else if k in before.rows then before.rows else before.rows[k := data]
  }

  ghost function StandAfter(t: TableDef, rec: Buffer, before: Stand): Stand {
    var stored := StoredStep(t, rec, before.pages, before.entries);
    Stand(stored.0, stored.1, Step(t, rec, before.rows))
  }

  lemma {:induction false} StepIsReplayed(t: TableDef, op: Byte, name: Buffer, data: Buffer, before: Stand)
    requires 0 < |name| < U16_END
    ensures var rec := Payload(op, name, data);
            Replayed(t, op, name, data, before, StandAfter(t, rec, before), Applies(t, rec, before.entries))
  {
    hide Parse, Payload, KeyOf, Placed, PlacedAt, Erased;
    ParseRoundTrip(op, name, data);
  }

  /** One step, read off the bytes of the record: what they spell out, or nothing. */
  ghost predicate ReplaysBytes(t: TableDef, rec: Buffer, before: Stand, after: Stand, applied: bool) {
    && (forall op, name, data {:trigger Payload(op, name, data)} ::
          0 < |name| < U16_END && rec == Payload(op, name, data) ==>
            Replayed(t, op, name, data, before, after, applied))
    && (0 < |t.name| < U16_END && !NamesTable(rec, t.name) ==> after == before && !applied)
  }

  lemma {:induction false} StepReplaysBytes(t: TableDef, rec: Buffer, before: Stand)
    ensures ReplaysBytes(t, rec, before, StandAfter(t, rec, before), Applies(t, rec, before.entries))
  {
    hide Replayed, Payload, NamesTable, OpOf;
    forall op, name, data {:trigger Payload(op, name, data)} | 0 < |name| < U16_END && rec == Payload(op, name, data)
      ensures Replayed(t, op, name, data, before, StandAfter(t, rec, before), Applies(t, rec, before.entries))
    {
      StepIsReplayed(t, op, name, data, before);
    }
    if 0 < |t.name| < U16_END && !NamesTable(rec, t.name) {
      StrangersAskNothing(t, rec);
    }
  }

  /** A record of another table, of another code or without a readable key changes nothing. */
  lemma {:induction false} OthersChangeNothing(t: TableDef, rec: Buffer, before: Stand, after: Stand, applied: bool)
    requires ReplaysBytes(t, rec, before, after, applied)
    ensures forall op, name, data {:trigger Payload(op, name, data)} ::
              0 < |name| < U16_END && rec == Payload(op, name, data) ==>
                (name != t.name || op > 1 || KeyOf(t, data).None? ==> after == before && !applied)
  {
    hide Payload, KeyOf;
  }

  /** Over a heap and an index that agree, the loop does to the rows what the record asks of the map. */
  lemma {:induction false} StepKeepsAgreement(t: TableDef, rec: Buffer, pages: Pages, contents: map<int, Ctid>)
    requires Agrees(t, pages, contents) && InsertFits(t, rec)
    requires PagesFit(t, pages) && PAGE_HEADER_SIZE <= t.pageSize
    ensures var after := StoredStep(t, rec, pages, contents);
            && PagesFit(t, after.0) && Agrees(t, after.0, after.1)
            && TableMap(t, after.0, after.1) == Step(t, rec, TableMap(t, pages, contents))
  {
    hide Parse, KeyOf, PagesFit, Agrees;
    match OpOf(t, rec)
    case None =>
    case Some(Insert(k, data)) =>
      InsertOp(t, rec, k, data);
      if k !in contents {
        PlacedIsAppended(t, pages, data);
        InsertMap(t, pages, contents, data, k);
        AppendedFits(t, pages, data);
      }
    case Some(Remove(k)) =>
      if k in contents {
        RemoveKeepsAgreement(t, pages, contents, k);
      } else {
        assert TableMap(t, pages, contents) - {k} == TableMap(t, pages, contents);
      }
  }

  lemma {:induction false} InsertOp(t: TableDef, rec: Buffer, k: int, data: Buffer)
    requires OpOf(t, rec) == Some(Insert(k, data))
    ensures KeyOf(t, data).Some? && KeyOf(t, data).value == k
  {
  }

  lemma {:induction false} RemoveKeepsAgreement(t: TableDef, pages: Pages, contents: map<int, Ctid>, k: int)
    requires Agrees(t, pages, contents) && PagesFit(t, pages) && k in contents
    ensures var after := Erased(t, pages, contents[k]);
            && PagesFit(t, after) && Agrees(t, after, contents - {k})
            && TableMap(t, after, contents - {k}) == TableMap(t, pages, contents) - {k}
  {
    hide PagesFit, KeyOf;
    assert Leads(t, pages, contents, k);
    var p, s := contents[k].page.pageNum, contents[k].slot;
    MarkAgrees(t, pages, contents, p, s);
    MarkFits(t, pages, p, s);
  }

  // ----- One key

  ghost predicate LiveKeyAt(t: TableDef, pages: Pages, p: nat, s: nat, k: int) {
    LiveAt(pages, p, s) && KeyOf(t, pages[p][s].payload) == Some(k)
  }

  /** The entry of k names the record at (p, s). */
  predicate Names(t: TableDef, contents: map<int, Ctid>, k: int, p: nat, s: nat) {
    k in contents && contents[k] == CtidOf(t, p, s)
  }

  /** No live row with key k lies beside the one its entry names. */
  ghost predicate Strayless(t: TableDef, pages: Pages, contents: map<int, Ctid>, k: int) {
    forall p: nat, s: nat {:trigger LiveKeyAt(t, pages, p, s, k)} ::
      LiveKeyAt(t, pages, p, s, k) ==> Names(t, contents, k, p, s)
  }

  /** An entry of k leads to its row, and every live row with key k is the one the entry names. */
  ghost predicate KeyAgrees(t: TableDef, pages: Pages, contents: map<int, Ctid>, k: int) {
    (k in contents ==> Leads(t, pages, contents, k)) && Strayless(t, pages, contents, k)
  }

  ghost predicate AllKeyed(t: TableDef, pages: Pages) {
    forall p: nat, s: nat {:trigger LiveAt(pages, p, s)} :: LiveAt(pages, p, s) ==> KeyOf(t, pages[p][s].payload).Some?
  }

  /** Heap and index agree exactly when they agree on every key and every live row has one. */
  lemma {:induction false} AgreesIffKeys(t: TableDef, pages: Pages, contents: map<int, Ctid>)
    ensures Agrees(t, pages, contents) <==>
              && AllKeyed(t, pages)
              && forall k {:trigger KeyAgrees(t, pages, contents, k)} :: KeyAgrees(t, pages, contents, k)
  {
    if Agrees(t, pages, contents) {
      forall p: nat, s: nat {:trigger LiveAt(pages, p, s)} | LiveAt(pages, p, s)
        ensures KeyOf(t, pages[p][s].payload).Some?
      {
        assert Indexed(t, pages, contents, p, s);
      }
      forall k {:trigger KeyAgrees(t, pages, contents, k)} ensures KeyAgrees(t, pages, contents, k) {
        assert k in contents ==> contents[k] == contents[k];
        forall p: nat, s: nat {:trigger LiveKeyAt(t, pages, p, s, k)} | LiveKeyAt(t, pages, p, s, k)
          ensures Names(t, contents, k, p, s)
        {
          assert Indexed(t, pages, contents, p, s);
        }
      }
    }
    if AllKeyed(t, pages) && forall k {:trigger KeyAgrees(t, pages, contents, k)} :: KeyAgrees(t, pages, contents, k) {
      forall p: nat, s: nat {:trigger LiveAt(pages, p, s)} | LiveAt(pages, p, s)
        ensures Indexed(t, pages, contents, p, s)
      {
        var k := KeyOf(t, pages[p][s].payload).value;
        assert KeyAgrees(t, pages, contents, k) && LiveKeyAt(t, pages, p, s, k);
      }
      forall k {:trigger contents[k]} | k in contents ensures Leads(t, pages, contents, k) {
        assert KeyAgrees(t, pages, contents, k);
      }
    }
  }

  /** Where the live rows with key k are after a tuple is appended. */
  lemma {:induction false} PlacedKey(t: TableDef, pages: Pages, data: Buffer, k: int, p: nat, s: nat)
    ensures var after, c := Placed(t, pages, data), PlacedAt(t, pages, data);
            && (LiveKeyAt(t, after, p, s, k) <==>
                  LiveKeyAt(t, pages, p, s, k) || (Fits(t, data) && c == CtidOf(t, p, s) && KeyOf(t, data) == Some(k)))
            && (LiveKeyAt(t, pages, p, s, k) ==> c != CtidOf(t, p, s))
  {
    hide KeyOf, Appended, AppendedAt, Fits;
    AppendedLive(t, Started(pages), data, p, s);
  }

  /** Replaying an insert repairs nothing: its key agrees afterwards exactly when it did before, if the tuple fits. */
  lemma {:induction false} InsertKeyIff(t: TableDef, rec: Buffer, pages: Pages, contents: map<int, Ctid>,
                                        k: int, data: Buffer)
    requires OpOf(t, rec) == Some(Insert(k, data))
    ensures var after := StoredStep(t, rec, pages, contents);
            && (Strayless(t, after.0, after.1, k) <==> Strayless(t, pages, contents, k))
            && (KeyAgrees(t, after.0, after.1, k) <==>
                  KeyAgrees(t, pages, contents, k) && (k in contents || Fits(t, data)))
  {
    InsertOp(t, rec, k, data);
    hide Parse, KeyOf, OpOf, Placed, PlacedAt;
    if k !in contents {
      var after, c := Placed(t, pages, data), PlacedAt(t, pages, data);
      var contents' := contents[k := c];
      PlacedInHeap(t, pages, data);
      PlacedKey(t, pages, data, k, c.page.pageNum, c.slot);
      if Strayless(t, pages, contents, k) {
        forall p: nat, s: nat {:trigger LiveKeyAt(t, after, p, s, k)} | LiveKeyAt(t, after, p, s, k)
          ensures Names(t, contents', k, p, s)
        {
          PlacedKey(t, pages, data, k, p, s);
        }
      }
      if Strayless(t, after, contents', k) {
        forall p: nat, s: nat {:trigger LiveKeyAt(t, pages, p, s, k)} | LiveKeyAt(t, pages, p, s, k)
          ensures Names(t, contents, k, p, s)
        {
          PlacedKey(t, pages, data, k, p, s);
        }
      }
    }
  }

  lemma {:induction false} PlacedInHeap(t: TableDef, pages: Pages, data: Buffer)
    ensures var c := PlacedAt(t, pages, data);
            c == CtidOf(t, c.page.pageNum, c.slot)
  {
  }

  /** Where the live rows with key k are after a record is marked. */
  lemma {:induction false} ErasedKey(t: TableDef, pages: Pages, c: Ctid, k: int, p: nat, s: nat)
    ensures LiveKeyAt(t, Erased(t, pages, c), p, s, k) <==> LiveKeyAt(t, pages, p, s, k) && c != CtidOf(t, p, s)
  {
    hide KeyOf;
  }

  /** Replaying a delete repairs its key exactly when the entry names every live row with that key. */
  lemma {:induction false} RemoveKeyIff(t: TableDef, rec: Buffer, pages: Pages, contents: map<int, Ctid>, k: int)
    requires OpOf(t, rec) == Some(Remove(k))
    ensures var after := StoredStep(t, rec, pages, contents);
            && (Strayless(t, after.0, after.1, k) <==> Strayless(t, pages, contents, k))
            && (KeyAgrees(t, after.0, after.1, k) <==> Strayless(t, pages, contents, k))
  {
    hide KeyOf, OpOf, Erased, LiveKeyAt;
    if k in contents {
      var after, contents' := Erased(t, pages, contents[k]), contents - {k};
      if Strayless(t, pages, contents, k) {
        forall p: nat, s: nat {:trigger LiveKeyAt(t, after, p, s, k)} ensures !LiveKeyAt(t, after, p, s, k) {
          ErasedKey(t, pages, contents[k], k, p, s);
        }
      }
      if Strayless(t, after, contents', k) {
        forall p: nat, s: nat {:trigger LiveKeyAt(t, pages, p, s, k)} | LiveKeyAt(t, pages, p, s, k)
          ensures Names(t, contents, k, p, s)
        {
          ErasedKey(t, pages, contents[k], k, p, s);
        }
      }
    }
  }

  // ----- The other keys

  /** The record deletes key j != k through an entry that names a live row with key k. */
  ghost predicate Hits(t: TableDef, rec: Buffer, pages: Pages, contents: map<int, Ctid>, k: int) {
    match OpOf(t, rec)
    case Some(Remove(j)) =>
      j != k && exists p: nat, s: nat :: Names(t, contents, j, p, s) && LiveKeyAt(t, pages, p, s, k)
    case _ => false
  }

  predicate Concerns(t: TableDef, rec: Buffer, k: int) {
    OpOf(t, rec).Some? && OpOf(t, rec).value.key == k
  }

  /** Live rows and entry of a key are left alone by a record that neither concerns nor hits it. */
  lemma {:induction false} OtherKeyStays(t: TableDef, rec: Buffer, pages: Pages, contents: map<int, Ctid>,
                                         k: int, p: nat, s: nat)
    requires !Concerns(t, rec, k) && !Hits(t, rec, pages, contents, k)
    ensures var after := StoredStep(t, rec, pages, contents);
            && (LiveKeyAt(t, after.0, p, s, k) <==> LiveKeyAt(t, pages, p, s, k))
            && (k in after.1 <==> k in contents) && (k in contents ==> after.1[k] == contents[k])
  {
    match OpOf(t, rec)
    case None =>
    case Some(Insert(j, data)) =>
      InsertOp(t, rec, j, data);
      PlacedKey(t, pages, data, k, p, s);
    case Some(Remove(j)) =>
      if j in contents {
        ErasedKey(t, pages, contents[j], k, p, s);
        assert Names(t, contents, j, p, s) <==> contents[j] == CtidOf(t, p, s);
      }
  }

  lemma {:induction false} LeadsIsLive(t: TableDef, pages: Pages, contents: map<int, Ctid>, k: int)
    requires k in contents
    ensures var c := contents[k];
            Leads(t, pages, contents, k) <==>
              c.page.fileId == t.fileId && LiveKeyAt(t, pages, c.page.pageNum, c.slot, k)
  {
  }

  /** Such a record changes nothing about the agreement on the key. */
  lemma {:induction false} OtherKeyIff(t: TableDef, rec: Buffer, pages: Pages, contents: map<int, Ctid>, k: int)
    requires !Concerns(t, rec, k) && !Hits(t, rec, pages, contents, k)
    ensures var after := StoredStep(t, rec, pages, contents);
            && (Strayless(t, after.0, after.1, k) <==> Strayless(t, pages, contents, k))
            && (KeyAgrees(t, after.0, after.1, k) <==> KeyAgrees(t, pages, contents, k))
  {
    hide LiveKeyAt, StoredStep, Leads, Hits, Concerns;
    var after := StoredStep(t, rec, pages, contents);
    forall p: nat, s: nat
      ensures LiveKeyAt(t, after.0, p, s, k) <==> LiveKeyAt(t, pages, p, s, k)
      ensures Names(t, after.1, k, p, s) <==> Names(t, contents, k, p, s)
    {
      OtherKeyStays(t, rec, pages, contents, k, p, s);
    }
    OtherKeyStays(t, rec, pages, contents, k, 0, 0);
    if k in contents {
      LeadsIsLive(t, pages, contents, k);
      LeadsIsLive(t, after.0, after.1, k);
    }
  }

  /** The live rows with key k other than the one at (p, s) are the one its entry names. */
  ghost predicate StraylessBut(t: TableDef, pages: Pages, contents: map<int, Ctid>, k: int, p: nat, s: nat) {
    forall q: nat, u: nat {:trigger LiveKeyAt(t, pages, q, u, k)} ::
      LiveKeyAt(t, pages, q, u, k) && (q != p || u != s) ==> Names(t, contents, k, q, u)
  }

  /**
   A delete through an entry that names another key's row takes that row away: that key agrees
   afterwards exactly when the row was its only stray.
   */
  lemma {:induction false} HitKeyIff(t: TableDef, rec: Buffer, pages: Pages, contents: map<int, Ctid>,
                                     k: int, j: int, p: nat, s: nat)
    requires OpOf(t, rec) == Some(Remove(j)) && j != k && Names(t, contents, j, p, s) && LiveKeyAt(t, pages, p, s, k)
    ensures var after := StoredStep(t, rec, pages, contents);
            KeyAgrees(t, after.0, after.1, k) <==>
              && !Names(t, contents, k, p, s) && StraylessBut(t, pages, contents, k, p, s)
              && (k in contents ==> Leads(t, pages, contents, k))
  {
    hide LiveKeyAt, Erased, Leads, OpOf;
    var after, contents' := Erased(t, pages, contents[j]), contents - {j};
    forall q: nat, u: nat
      ensures LiveKeyAt(t, after, q, u, k) <==> LiveKeyAt(t, pages, q, u, k) && (q != p || u != s)
      ensures Names(t, contents', k, q, u) <==> Names(t, contents, k, q, u)
    {
      ErasedKey(t, pages, contents[j], k, q, u);
    }
    if k in contents {
      LeadsIsLive(t, pages, contents, k);
      LeadsIsLive(t, after, contents', k);
    }
  }

  /** Such a delete breaks a key that agreed. */
  lemma {:induction false} HitBreaks(t: TableDef, rec: Buffer, pages: Pages, contents: map<int, Ctid>, k: int)
    requires Hits(t, rec, pages, contents, k) && KeyAgrees(t, pages, contents, k)
    ensures var after := StoredStep(t, rec, pages, contents);
            !KeyAgrees(t, after.0, after.1, k)
  {
    hide LiveKeyAt, StoredStep, Leads;
    var j := OpOf(t, rec).value.key;
    var p: nat, s: nat :| Names(t, contents, j, p, s) && LiveKeyAt(t, pages, p, s, k);
    HitKeyIff(t, rec, pages, contents, k, j, p, s);
  }

  // ----- The whole log

  /** No record hits the key on the way, and every insert that adds it fits on a page. */
  ghost predicate Spared(t: TableDef, recs: seq<Buffer>, pages: Pages, contents: map<int, Ctid>, k: int) {
    recs == [] ||
    var init, rec := recs[..|recs| - 1], recs[|recs| - 1];
    var before := StoredAll(t, init, pages, contents);
    && Spared(t, init, pages, contents, k)
    && !Hits(t, rec, before.0, before.1, k)
    && (Concerns(t, rec, k) && k !in before.1 ==> InsertFits(t, rec))
  }

  /**
   Which torn keys the log repairs: a live row beside the one the entry names stays for ever; an
   entry that does not lead to its row is repaired exactly when the log deletes the key.
   */
  lemma {:induction false} ReplayRepairsIff(t: TableDef, recs: seq<Buffer>, pages: Pages, contents: map<int, Ctid>,
                                            k: int)
    requires Spared(t, recs, pages, contents, k)
    ensures var end := StoredAll(t, recs, pages, contents);
            && (Strayless(t, end.0, end.1, k) <==> Strayless(t, pages, contents, k))
            && (KeyAgrees(t, end.0, end.1, k) <==>
                  Strayless(t, pages, contents, k) && (KeyAgrees(t, pages, contents, k) || Removed(t, recs, k)))
  {
    hide Strayless, StoredStep, Hits, Parse, KeyOf, Leads;
    if recs == [] {
      AgreeingIsStrayless(t, pages, contents, k);
    } else {
      var init, rec := recs[..|recs| - 1], recs[|recs| - 1];
      var before := StoredAll(t, init, pages, contents);
      ReplayRepairsIff(t, init, pages, contents, k);
      RemovedBefore(t, recs, k);
      AgreeingIsStrayless(t, pages, contents, k);
      if Concerns(t, rec, k) {
        match OpOf(t, rec).value
        case Insert(_, data) => InsertKeyIff(t, rec, before.0, before.1, k, data);
        case Remove(_) => RemoveKeyIff(t, rec, before.0, before.1, k);
      } else {
        OtherKeyIff(t, rec, before.0, before.1, k);
      }
    }
  }

  lemma {:induction false} AgreeingIsStrayless(t: TableDef, pages: Pages, contents: map<int, Ctid>, k: int)
    ensures KeyAgrees(t, pages, contents, k) ==> Strayless(t, pages, contents, k)
  {
  }

  lemma {:induction false} StepKeepsKeyed(t: TableDef, rec: Buffer, pages: Pages, contents: map<int, Ctid>)
    requires AllKeyed(t, pages)
    ensures AllKeyed(t, StoredStep(t, rec, pages, contents).0)
  {
    hide Parse, KeyOf;
    match OpOf(t, rec)
    case None =>
    case Some(Insert(k, data)) =>
      InsertOp(t, rec, k, data);
      var after := Placed(t, pages, data);
      forall p: nat, s: nat {:trigger LiveAt(after, p, s)} | LiveAt(after, p, s)
        ensures KeyOf(t, after[p][s].payload).Some?
      {
        AppendedLive(t, Started(pages), data, p, s);
      }
    case Some(Remove(k)) =>
      if k in contents {
        var after := Erased(t, pages, contents[k]);
        forall p: nat, s: nat {:trigger LiveAt(after, p, s)} | LiveAt(after, p, s)
          ensures KeyOf(t, after[p][s].payload).Some?
        {
          assert LiveAt(pages, p, s);
        }
      }
  }

  lemma {:induction false} ReplayKeepsKeyed(t: TableDef, recs: seq<Buffer>, pages: Pages, contents: map<int, Ctid>)
    requires AllKeyed(t, pages)
    ensures AllKeyed(t, StoredAll(t, recs, pages, contents).0)
  {
    hide AllKeyed, StoredStep;
    if recs != [] {
      var init := recs[..|recs| - 1];
      var before := StoredAll(t, init, pages, contents);
      ReplayKeepsKeyed(t, init, pages, contents);
      StepKeepsKeyed(t, recs[|recs| - 1], before.0, before.1);
    }
  }

  // ----- Entries that can be trusted before the log is replayed

  predicate SlotExists(pages: Pages, p: nat, s: nat) {
    p < |pages| && s < |pages[p]|
  }

  /** The entry of j names a slot of this heap, and no live row of another key lies there. */
  ghost predicate EntrySettled(t: TableDef, pages: Pages, contents: map<int, Ctid>, j: int)
    requires j in contents
  {
    var c := contents[j];
    c.page.fileId == t.fileId ==>
      && SlotExists(pages, c.page.pageNum, c.slot)
      && forall k {:trigger LiveKeyAt(t, pages, c.page.pageNum, c.slot, k)} ::
           LiveKeyAt(t, pages, c.page.pageNum, c.slot, k) ==> k == j
  }

  ghost predicate Settled(t: TableDef, pages: Pages, contents: map<int, Ctid>) {
    forall j {:trigger contents[j]} :: j in contents ==> EntrySettled(t, pages, contents, j)
  }

  predicate AllFit(t: TableDef, recs: seq<Buffer>) {
    forall i :: 0 <= i < |recs| ==> InsertFits(t, recs[i])
  }

  /** Where appending leaves the slots there were. */
  lemma {:induction false} PlacedSlots(t: TableDef, pages: Pages, data: Buffer, p: nat, s: nat)
    ensures SlotExists(pages, p, s) ==>
              SlotExists(Placed(t, pages, data), p, s) && PlacedAt(t, pages, data) != CtidOf(t, p, s)
    ensures Fits(t, data) ==>
              var c := PlacedAt(t, pages, data);
              SlotExists(Placed(t, pages, data), c.page.pageNum, c.slot)
  {
  }

  lemma {:induction false} SettledStep(t: TableDef, rec: Buffer, pages: Pages, contents: map<int, Ctid>)
    requires Settled(t, pages, contents) && InsertFits(t, rec)
    ensures var after := StoredStep(t, rec, pages, contents);
            Settled(t, after.0, after.1)
  {
    hide Parse, KeyOf, OpOf, Placed, PlacedAt, Erased, LiveKeyAt, Fits, SlotExists;
    var after := StoredStep(t, rec, pages, contents);
    forall j {:trigger after.1[j]} | j in after.1 ensures EntrySettled(t, after.0, after.1, j) {
      match OpOf(t, rec)
      case None => assert contents[j] == contents[j];
      case Some(Insert(k, data)) => SettledInsert(t, rec, pages, contents, k, data, j);
      case Some(Remove(k)) => SettledRemove(t, rec, pages, contents, k, j);
    }
  }

  lemma {:induction false} SettledInsert(t: TableDef, rec: Buffer, pages: Pages, contents: map<int, Ctid>,
                                         k: int, data: Buffer, j: int)
    requires Settled(t, pages, contents) && OpOf(t, rec) == Some(Insert(k, data)) && Fits(t, data)
    requires j in StoredStep(t, rec, pages, contents).1
    ensures var after := StoredStep(t, rec, pages, contents);
            EntrySettled(t, after.0, after.1, j)
  {
    InsertOp(t, rec, k, data);
    hide Parse, KeyOf, OpOf, Placed, PlacedAt, LiveKeyAt, Fits, SlotExists;
    assert j in contents ==> contents[j] == contents[j];
    if k !in contents {
      var after, c := Placed(t, pages, data), if j == k then PlacedAt(t, pages, data) else contents[j];
      PlacedInHeap(t, pages, data);
      if c.page.fileId == t.fileId {
        var p, s := c.page.pageNum, c.slot;
        PlacedSlots(t, pages, data, p, s);
        forall i {:trigger LiveKeyAt(t, after, p, s, i)} | LiveKeyAt(t, after, p, s, i) ensures i == j {
          PlacedKey(t, pages, data, i, p, s);
          FreshSlot(t, pages, data, p, s, i);
        }
      }
    }
  }

  /** Before the append no row, live or dead, is at the place of the new one. */
  lemma {:induction false} FreshSlot(t: TableDef, pages: Pages, data: Buffer, p: nat, s: nat, k: int)
    ensures LiveKeyAt(t, pages, p, s, k) ==> SlotExists(pages, p, s)
  {
    hide KeyOf;
  }

  lemma {:induction false} SettledRemove(t: TableDef, rec: Buffer, pages: Pages, contents: map<int, Ctid>,
                                         k: int, j: int)
    requires Settled(t, pages, contents) && OpOf(t, rec) == Some(Remove(k))
    requires j in StoredStep(t, rec, pages, contents).1
    ensures var after := StoredStep(t, rec, pages, contents);
            EntrySettled(t, after.0, after.1, j)
  {
    hide KeyOf, OpOf, LiveKeyAt;
    var c := contents[j];
    assert EntrySettled(t, pages, contents, j);
    if k in contents && c.page.fileId == t.fileId {
      var p, s, after := c.page.pageNum, c.slot, Erased(t, pages, contents[k]);
      forall i {:trigger LiveKeyAt(t, after, p, s, i)} | LiveKeyAt(t, after, p, s, i) ensures i == j {
        ErasedKey(t, pages, contents[k], i, p, s);
      }
    }
  }

  lemma {:induction false} SettledNoHit(t: TableDef, rec: Buffer, pages: Pages, contents: map<int, Ctid>, k: int)
    requires Settled(t, pages, contents)
    ensures !Hits(t, rec, pages, contents, k)
  {
    hide KeyOf, OpOf, LiveKeyAt;
  }

  /** From settled entries no delete of the log hits another key. */
  lemma {:induction false} SettledSpares(t: TableDef, recs: seq<Buffer>, pages: Pages, contents: map<int, Ctid>, k: int)
    requires Settled(t, pages, contents) && AllFit(t, recs)
    ensures Spared(t, recs, pages, contents, k)
    ensures var end := StoredAll(t, recs, pages, contents);
            Settled(t, end.0, end.1)
  {
    hide Settled, StoredStep, Hits, InsertFits, Concerns;
    if recs != [] {
      var n := |recs| - 1;
      var before := StoredAll(t, recs[..n], pages, contents);
      assert forall i :: 0 <= i < n ==> recs[..n][i] == recs[i];
      SettledSpares(t, recs[..n], pages, contents, k);
      SettledNoHit(t, recs[n], before.0, before.1, k);
      SettledStep(t, recs[n], before.0, before.1);
    }
  }

  /**
   Over readable rows, settled entries and inserts that fit, the log brings heap and index to
   agreement exactly when no row is a stray and every key that disagrees is deleted by it.
   */
  lemma {:induction false} ReplayRestoresAgreementIff(t: TableDef, recs: seq<Buffer>, pages: Pages,
                                                      contents: map<int, Ctid>)
    requires AllKeyed(t, pages) && Settled(t, pages, contents) && AllFit(t, recs)
    ensures var end := StoredAll(t, recs, pages, contents);
            Agrees(t, end.0, end.1) <==>
              forall k :: Strayless(t, pages, contents, k) && (KeyAgrees(t, pages, contents, k) || Removed(t, recs, k))
  {
    hide AllKeyed, Strayless, KeyAgrees, Removed, Spared, Agrees, StoredAll, Settled, AllFit;
    var end := StoredAll(t, recs, pages, contents);
    ReplayKeepsKeyed(t, recs, pages, contents);
    AgreesIffKeys(t, end.0, end.1);
    forall k
      ensures KeyAgrees(t, end.0, end.1, k) <==>
                Strayless(t, pages, contents, k) && (KeyAgrees(t, pages, contents, k) || Removed(t, recs, k))
    {
      SettledSpares(t, recs, pages, contents, k);
      ReplayRepairsIff(t, recs, pages, contents, k);
    }
  }

  /**
   An unsettled entry of j that names the next free slot, as when the index reached the disk
   before the heap: the row of the next insert comes to lie under it.
   */
  lemma {:induction false} AppendAdopts(t: TableDef, rec: Buffer, pages: Pages, contents: map<int, Ctid>,
                                        j: int, k: int, data: Buffer)
    requires OpOf(t, rec) == Some(Insert(k, data)) && Fits(t, data) && j != k
    requires k !in contents && j in contents && contents[j] == PlacedAt(t, pages, data)
    ensures var after, c := StoredStep(t, rec, pages, contents), contents[j];
            && LiveKeyAt(t, after.0, c.page.pageNum, c.slot, k)
            && Names(t, after.1, j, c.page.pageNum, c.slot) && Names(t, after.1, k, c.page.pageNum, c.slot)
  {
    InsertOp(t, rec, k, data);
    hide Parse, KeyOf, OpOf, Placed, PlacedAt, Fits;
    var c := contents[j];
    PlacedInHeap(t, pages, data);
    PlacedKey(t, pages, data, k, c.page.pageNum, c.slot);
  }

  /** If the log then deletes j, the row of k is gone and the entry of k leads nowhere. */
  lemma {:induction false} AdoptedRowIsLost(t: TableDef, insert: Buffer, delete: Buffer, pages: Pages,
                                            contents: map<int, Ctid>, j: int, k: int, data: Buffer)
    requires OpOf(t, insert) == Some(Insert(k, data)) && Fits(t, data) && OpOf(t, delete) == Some(Remove(j)) && j != k
    requires k !in contents && j in contents && contents[j] == PlacedAt(t, pages, data)
    ensures var end := StoredAll(t, [insert, delete], pages, contents);
            k in end.1 && !KeyAgrees(t, end.0, end.1, k)
  {
    hide OpOf, StoredStep, LiveKeyAt, Placed, PlacedAt, Fits, Leads;
    var log := [insert, delete];
    StoredAllStep(t, log, 0, pages, contents);
    StoredAllStep(t, log, 1, pages, contents);
    assert log[..2] == log;
    var mid, c := StoredStep(t, insert, pages, contents), contents[j];
    AppendAdopts(t, insert, pages, contents, j, k, data);
    HitKeyIff(t, delete, mid.0, mid.1, k, j, c.page.pageNum, c.slot);
    KeepsEntry(t, delete, mid.0, mid.1, j, k);
  }

  lemma {:induction false} KeepsEntry(t: TableDef, rec: Buffer, pages: Pages, contents: map<int, Ctid>, j: int, k: int)
    requires OpOf(t, rec) == Some(Remove(j)) && k in contents && j != k
    ensures k in StoredStep(t, rec, pages, contents).1
  {
  }

  // ----- What goes wrong otherwise

  /** If the index reached the disk and the heap did not, replaying the insert does not bring the row back. */
  lemma {:induction false} IndexAheadLosesRow(t: TableDef, rec: Buffer, pages: Pages, contents: map<int, Ctid>,
                                              k: int, data: Buffer)
    requires OpOf(t, rec) == Some(Insert(k, data))
    requires k in contents && forall p: nat, s: nat :: !LiveKeyAt(t, pages, p, s, k)
    ensures var after := StoredStep(t, rec, pages, contents);
            !KeyAgrees(t, after.0, after.1, k) && forall p: nat, s: nat :: !LiveKeyAt(t, after.0, p, s, k)
  {
    LeadsIsLive(t, pages, contents, k);
  }

  /** If the heap reached the disk and the index did not, replaying the insert stores the row twice. */
  lemma {:induction false} HeapAheadDuplicatesRow(t: TableDef, rec: Buffer, pages: Pages, contents: map<int, Ctid>,
                                                  k: int, data: Buffer, p: nat, s: nat)
    requires OpOf(t, rec) == Some(Insert(k, data)) && Fits(t, data)
    requires k !in contents && LiveKeyAt(t, pages, p, s, k)
    ensures var after := StoredStep(t, rec, pages, contents).0;
            LiveKeyAt(t, after, p, s, k) &&
            exists q: nat, u: nat :: (q != p || u != s) && LiveKeyAt(t, after, q, u, k)
  {
    InsertOp(t, rec, k, data);
    var c := PlacedAt(t, pages, data);
    PlacedInHeap(t, pages, data);
    PlacedKey(t, pages, data, k, p, s);
    PlacedKey(t, pages, data, k, c.page.pageNum, c.slot);
    assert LiveKeyAt(t, StoredStep(t, rec, pages, contents).0, c.page.pageNum, c.slot, k);
  }

  /** With the heap ahead of a delete of the key, replaying the delete leaves the row alive. */
  lemma {:induction false} HeapAheadKeepsRow(t: TableDef, rec: Buffer, pages: Pages, contents: map<int, Ctid>,
                                             k: int, p: nat, s: nat)
    requires OpOf(t, rec) == Some(Remove(k)) && LiveKeyAt(t, pages, p, s, k) && !Names(t, contents, k, p, s)
    ensures LiveKeyAt(t, StoredStep(t, rec, pages, contents).0, p, s, k)
  {
    if k in contents {
      ErasedKey(t, pages, contents[k], k, p, s);
    }
  }
}
