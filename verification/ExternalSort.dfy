/**
 The external merge sort executor: runs spilled to files as length-prefixed records, read
 back one tuple at a time, and merged by a scan for the least head.
 */
module ExternalSort {
  import opened Storage
  import opened Bytes
  import opened Values
  import opened StableSort
  import opened RunMerge

  datatype SortError = ReadFailed

  // ----- The run file format

  function EncodeTuple(t: Buffer): Buffer {
    ToLE(|t|, 4) + t
  }

  function EncodeRun(ts: seq<Buffer>): Buffer {
    if ts == [] then [] else EncodeTuple(ts[0]) + EncodeRun(ts[1..])
  }

  /** The length prefix can hold the size of every tuple. */
  ghost predicate Storable(ts: seq<Buffer>) {
    forall t :: t in ts ==> |t| <= U32_MAX
  }

  lemma {:induction false} EmptyRun()
    ensures EncodeRun([]) == []
  {
  }

  lemma {:induction false} EncodeRunAppend(ts: seq<Buffer>, t: Buffer)
    ensures EncodeRun(ts + [t]) == EncodeRun(ts) + EncodeTuple(t)
  {
    if ts == [] {
      assert [t][1..] == [];
    } else {
      assert (ts + [t])[1..] == ts[1..] + [t];
      EncodeRunAppend(ts[1..], t);
    }
  }

  /** A run file with a read position and the tuple last read from it. */
  datatype Cursor = Cursor(file: Buffer, pos: nat, head: Option<Buffer>)

  /** ts are the tuples the cursor has yet to hand out. */
  ghost predicate CursorAt(c: Cursor, ts: seq<Buffer>) {
    && c.pos <= |c.file| && Storable(ts)
    && match c.head
       case None => ts == []
       case Some(t) => ts != [] && ts[0] == t && c.file[c.pos..] == EncodeRun(ts[1..])
  }

  ghost predicate CursorsAt(cs: seq<Cursor>, pending: Runs) {
    |cs| == |pending| && forall i {:trigger pending[i]} :: 0 <= i < |cs| ==> CursorAt(cs[i], pending[i])
  }

  /** read_tuple: a short length prefix ends the run, a short body is an error. */
  method ReadTuple(file: Buffer, pos: nat) returns (r: Result<Option<Buffer>, SortError>, pos': nat)
    requires pos <= |file|
    ensures pos <= pos' <= |file|
    ensures forall ts :: Storable(ts) && file[pos..] == EncodeRun(ts) ==>
              if ts == [] then r == Ok(None)
              else r == Ok(Some(ts[0])) && file[pos'..] == EncodeRun(ts[1..])
  {
    hide EncodeRun, Storable, FromLE;
    ghost var tail := file[pos..];
    if |file| - pos < 4 {
      forall ts | Storable(ts) && tail == EncodeRun(ts)
        ensures ts == []
      {
        ShortTail(tail, ts);
      }
      return Ok(None), pos;
    }
    var len := FromLE(file[pos..pos + 4]);
    forall ts | Storable(ts) && tail == EncodeRun(ts)
      ensures ts != [] && len == |ts[0]| && |tail| >= 4 + len
      ensures tail[4..4 + len] == ts[0] && tail[4 + len..] == EncodeRun(ts[1..])
    {
      DecodeHead(tail, ts);
      assert tail[..4] == file[pos..pos + 4];
    }
    if |file| - pos - 4 < len {
      return Err(ReadFailed), |file|;
    }
    assert file[pos + 4..pos + 4 + len] == tail[4..4 + len];
    assert file[pos + 4 + len..] == tail[4 + len..];
    return Ok(Some(file[pos + 4..pos + 4 + len])), pos + 4 + len;
  }

  lemma {:induction false} ShortTail(tail: Buffer, ts: seq<Buffer>)
    requires tail == EncodeRun(ts) && |tail| < 4
    ensures ts == []
  {
  }

  lemma {:induction false} DecodeHead(tail: Buffer, ts: seq<Buffer>)
    requires Storable(ts) && tail == EncodeRun(ts) && |tail| >= 4
    ensures ts != [] && FromLE(tail[..4]) == |ts[0]| && |tail| >= 4 + |ts[0]|
    ensures tail[4..4 + |ts[0]|] == ts[0] && tail[4 + |ts[0]|..] == EncodeRun(ts[1..])
  {
    var t := ts[0];
    Pow256Values();
    LERoundTrip(|t|, 4);
    assert tail == ToLE(|t|, 4) + t + EncodeRun(ts[1..]);
    assert tail[..4] == ToLE(|t|, 4);
  }

  // ----- What a finished sort returns

  /** The buffer is spilled when it reaches the chunk size; it always holds a tuple by then. */
  function ChunkLength(chunkSize: nat): nat {
    if chunkSize == 0 then 1 else chunkSize
  }

  /** Chunks of the given length, of which only the last may be shorter. */
  ghost predicate EvenCut(chunks: Runs, length: nat) {
    && (forall i :: 0 <= i < |chunks| - 1 ==> |chunks[i]| == length)
    && (chunks != [] ==> 0 < |chunks[|chunks| - 1]| <= length)
  }

  /** The output is the merge of the input's chunks of this length, each sorted. */
  ghost predicate Planned(key: KeyOf, length: nat, input: seq<Buffer>, output: seq<Buffer>) {
    exists chunks: Runs ::
      Flatten(chunks) == input && EvenCut(chunks, length) && output == MergeRuns(key, SortEach(key, chunks))
  }

  lemma {:induction false} PlannedBy(key: KeyOf, length: nat, chunks: Runs)
    requires EvenCut(chunks, length)
    ensures Planned(key, length, Flatten(chunks), MergeRuns(key, SortEach(key, chunks)))
  {
  }

  /** There is one cut of a list into chunks of one length, and so one output. */
  lemma {:induction false} CutUnique(a: Runs, b: Runs, length: nat)
    requires EvenCut(a, length) && EvenCut(b, length) && Flatten(a) == Flatten(b)
    ensures a == b
  {
    if a == [] {
      NonEmptyCut(b, length);
    } else {
      NonEmptyCut(a, length);
      NonEmptyCut(b, length);
      FirstChunk(a, length);
      FirstChunk(b, length);
      CutUnique(a[1..], b[1..], length);
      assert a == [a[0]] + a[1..] && b == [b[0]] + b[1..];
    }
  }

  lemma {:induction false} NonEmptyCut(chunks: Runs, length: nat)
    requires EvenCut(chunks, length)
    ensures chunks == [] <==> Flatten(chunks) == []
  {
  }

  /** The first chunk is the first `length` tuples, or all of them. */
  lemma {:induction false} FirstChunk(chunks: Runs, length: nat)
    requires EvenCut(chunks, length) && chunks != []
    ensures var all, n := Flatten(chunks), |chunks[0]|;
            && n <= |all| && n == (if |all| <= length then |all| else length)
            && chunks[0] == all[..n] && Flatten(chunks[1..]) == all[n..] && EvenCut(chunks[1..], length)
  {
    FlattenAt(chunks, 0);
    assert chunks[..0] == [] && Flatten([]) == [];
    var tail := chunks[1..];
    assert Flatten(chunks) == chunks[0] + Flatten(tail);
    assert forall i :: 0 <= i < |tail| ==> tail[i] == chunks[i + 1];
    NonEmptyCut(tail, length);
  }

  lemma {:induction false} PlannedUnique(key: KeyOf, length: nat, input: seq<Buffer>,
                                         one: seq<Buffer>, other: seq<Buffer>)
    requires Planned(key, length, input, one) && Planned(key, length, input, other)
    ensures one == other
  {
    var a: Runs :| Flatten(a) == input && EvenCut(a, length) && one == MergeRuns(key, SortEach(key, a));
    var b: Runs :| Flatten(b) == input && EvenCut(b, length) && other == MergeRuns(key, SortEach(key, b));
    CutUnique(a, b, length);
  }

  lemma {:induction false} OneChunk(key: KeyOf, length: nat, input: seq<Buffer>)
    requires |input| <= length
    ensures Planned(key, length, input, Sort(key, input))
  {
    if input == [] {
      var none: Runs := [];
      assert Flatten(none) == [] && SortEach(key, none) == [] && MergeRuns(key, none) == [];
    } else {
      var chunks: Runs := [input];
      assert chunks[..0] == [];
      assert Flatten(chunks) == input;
      assert SortEach(key, chunks) == [Sort(key, input)];
      MergeOne(key, Sort(key, input));
    }
  }

  lemma {:induction false} MergeOne(key: KeyOf, run: seq<Buffer>)
    ensures MergeRuns(key, [run]) == run
    decreases |run|
  {
    var runs: Runs := [run];
    assert runs[..0] == [];
    assert BestRun(key, []) == None;
    if run != [] {
      assert Advance(runs, 0) == [run[1..]];
      MergeOne(key, run[1..]);
    }
  }

  /** Any chunk length gives the one stable sort, whenever the comparison is an order. */
  lemma {:induction false} PlannedIsSort(key: KeyOf, length: nat, input: seq<Buffer>, output: seq<Buffer>)
    requires Planned(key, length, input, output) && Consistent(key, input)
    ensures output == Sort(key, input) && IsStableSort(key, input, output)
  {
    var chunks: Runs :|
      Flatten(chunks) == input && EvenCut(chunks, length) && output == MergeRuns(key, SortEach(key, chunks));
    ChunkedSort(key, chunks);
    SortIsStable(key, input);
  }

  // ----- The executor

  class ExternalMergeSort {
    const key: KeyOf
    const chunkSize: nat
    /** What the child executor returns, and how much of it has been pulled. */
    const input: seq<Buffer>
    var pulled: nat

    var runs: seq<Buffer>
    var active: seq<Cursor>
    var inMemory: Option<seq<Buffer>>
    var initialized: bool

    ghost var pending: Runs
    ghost var emitted: seq<Buffer>

    ghost function Remaining(): seq<Buffer>
      reads this
    {
      if inMemory.Some? then inMemory.value else MergeRuns(key, pending)
    }

    ghost predicate Valid()
      reads this
    {
      && Storable(input)
      && (!initialized ==> pulled == 0 && runs == [] && active == [] && inMemory == None && emitted == [])
      && (initialized ==> Planned(key, ChunkLength(chunkSize), input, emitted + Remaining()))
      && (initialized && inMemory.None? ==> CursorsAt(active, pending))
    }

    constructor (input: seq<Buffer>, key: KeyOf, chunkSize: nat)
      requires Storable(input)
      ensures Valid() && !initialized && emitted == []
      ensures this.input == input && this.key == key && this.chunkSize == chunkSize
    {
      this.input, this.key, this.chunkSize := input, key, chunkSize;
      pulled, runs, active, inMemory, initialized := 0, [], [], None, false;
      pending, emitted := [], [];
    }

    /** Run i holds chunk i, sorted. */
    ghost predicate Spilled(chunks: Runs)
      reads this`runs
    {
      |runs| == |chunks| && forall i :: 0 <= i < |chunks| ==> runs[i] == EncodeRun(Sort(key, chunks[i]))
    }

    method Init()
      requires Valid() && !initialized
      modifies this
      ensures Valid() && initialized && emitted == []
    {
      hide MergeRuns, SortEach, Flatten, Sort, EncodeRun, Planned, CursorsAt, Storable;
      var buffer;
      ghost var chunks;
      buffer, chunks := FillRuns();
      if runs == [] {
        EmptyFlatten();
        assert chunks == [] && buffer == input;
        OneChunk(key, ChunkLength(chunkSize), input);
        inMemory := Some(Sort(key, buffer));
      } else {
        StartMerge(buffer, chunks);
      }
      initialized := true;
      assert emitted + Remaining() == Remaining();
    }

    /** Spills what is left in the buffer and opens every run. */
    method StartMerge(buffer: seq<Buffer>, ghost chunks: Runs)
      requires Storable(input) && active == []
      requires Spilled(chunks) && Flatten(chunks) + buffer == input && |buffer| < ChunkLength(chunkSize)
      requires forall i :: 0 <= i < |chunks| ==> |chunks[i]| == ChunkLength(chunkSize)
      modifies this`runs, this`active, this`pending
      ensures Planned(key, ChunkLength(chunkSize), input, MergeRuns(key, pending)) && CursorsAt(active, pending)
    {
      hide MergeRuns, SortEach, Flatten, Sort, EncodeRun, Planned, CursorsAt, Storable;
      ghost var all := chunks;
      CutClosed(chunks, buffer, ChunkLength(chunkSize));
      if buffer != [] {
        SpillChunk(buffer, chunks);
        all := chunks + [buffer];
      }
      assert Flatten(all) == input;
      pending := SortEach(key, all);
      OpenRuns(all);
      PlannedBy(key, ChunkLength(chunkSize), all);
    }

    /** Pulls the whole input, spilling a sorted run whenever the buffer reaches the chunk size. */
    method FillRuns() returns (buffer: seq<Buffer>, ghost chunks: Runs)
      requires pulled == 0 && runs == []
      modifies this`pulled, this`runs
      ensures Spilled(chunks) && Flatten(chunks) + buffer == input
      ensures forall i :: 0 <= i < |chunks| ==> |chunks[i]| == ChunkLength(chunkSize)
      ensures |buffer| < ChunkLength(chunkSize)
    {
      hide MergeRuns, SortEach, Flatten, Sort, EncodeRun;
      buffer, chunks := [], [];
      EmptyFlatten();
      while pulled < |input|
        invariant pulled <= |input|
        invariant Flatten(chunks) + buffer == input[..pulled]
        invariant Spilled(chunks) && |buffer| < ChunkLength(chunkSize)
        invariant forall i :: 0 <= i < |chunks| ==> |chunks[i]| == ChunkLength(chunkSize)
        decreases |input| - pulled
      {
        buffer := buffer + [input[pulled]];
        pulled := pulled + 1;
        if |buffer| >= chunkSize {
          SpillChunk(buffer, chunks);
          chunks := chunks + [buffer];
          buffer := [];
        }
      }
    }

    lemma {:induction false} CutClosed(chunks: Runs, buffer: seq<Buffer>, length: nat)
      requires (forall i :: 0 <= i < |chunks| ==> |chunks[i]| == length) && |buffer| < length
      ensures EvenCut(if buffer == [] then chunks else chunks + [buffer], length)
    {
    }

    lemma {:induction false} EmptyFlatten()
      ensures Flatten([]) == []
    {
    }

    method SpillChunk(buffer: seq<Buffer>, ghost chunks: Runs)
      requires Spilled(chunks)
      modifies this`runs
      ensures Spilled(chunks + [buffer]) && runs != []
      ensures Flatten(chunks + [buffer]) == Flatten(chunks) + buffer
    {
      Spill(Sort(key, buffer));
      assert (chunks + [buffer])[..|chunks|] == chunks;
    }

    method Spill(sorted: seq<Buffer>)
      modifies this`runs
      ensures runs == old(runs) + [EncodeRun(sorted)]
    {
      hide EncodeRun, ToLE;
      var file: Buffer := [];
      assert file == EncodeRun(sorted[..0]) by {
        EmptyRun();
      }
      for i := 0 to |sorted|
        invariant file == EncodeRun(sorted[..i])
        invariant runs == old(runs)
      {
        EncodeRunAppend(sorted[..i], sorted[i]);
        assert sorted[..i + 1] == sorted[..i] + [sorted[i]];
        assert file + EncodeTuple(sorted[i]) == file + ToLE(|sorted[i]|, 4) + sorted[i];
        file := file + ToLE(|sorted[i]|, 4) + sorted[i];
      }
      assert sorted[..|sorted|] == sorted;
      runs := runs + [file];
    }

    /** Reads the first tuple of every run. */
    method OpenRuns(ghost chunks: Runs)
      requires Storable(input) && Flatten(chunks) == input && Spilled(chunks)
      requires active == []
      modifies this`runs, this`active
      ensures CursorsAt(active, SortEach(key, chunks))
    {
      hide MergeRuns, Flatten, Sort, EncodeRun, CursorAt, Storable;
      var files := runs;
      runs := [];
      ghost var sorted := SortEach(key, chunks);
      for i := 0 to |files|
        invariant CursorsAt(active, sorted[..i])
      {
        SortedChunkStorable(chunks, i);
        var c := OpenRun(files[i], sorted[i]);
        active := active + [c];
      }
      assert sorted[..|files|] == sorted;
    }

    method OpenRun(file: Buffer, ghost ts: seq<Buffer>) returns (c: Cursor)
      requires Storable(ts) && file == EncodeRun(ts)
      ensures CursorAt(c, ts)
    {
      hide EncodeRun, Storable;
      var r, pos := ReadTuple(file, 0);
      assert file[0..] == file;
      c := Cursor(file, pos, r.value);
    }

    lemma {:induction false} SortedChunkStorable(chunks: Runs, i: nat)
      requires Storable(Flatten(chunks)) && i < |chunks|
      ensures Storable(SortEach(key, chunks)[i])
    {
      SameMembers(Sort(key, chunks[i]), chunks[i]);
      forall t | t in chunks[i]
        ensures t in Flatten(chunks)
      {
        FlattenMember(chunks, i, t);
      }
    }

    method Next() returns (r: Result<Option<Buffer>, SortError>)
      requires Valid()
      modifies this
      ensures Valid() && initialized && r.Ok?
      ensures r.value.Some? ==> emitted == old(emitted) + [r.value.value]
      ensures r.value.Some? && old(initialized) ==> |Remaining()| < old(|Remaining()|)
      ensures r.value.None? ==> emitted == old(emitted) && Remaining() == []
    {
      hide MergeRuns, CursorsAt, Planned, Storable;
      if !initialized {
        Init();
      }
      if inMemory.Some? {
        r := NextInMemory();
        return;
      }
      r := NextMerged();
    }

    method NextMerged() returns (r: Result<Option<Buffer>, SortError>)
      requires Valid() && initialized && inMemory.None?
      modifies this`active, this`pending, this`emitted
      ensures Valid() && r.Ok?
      ensures r.value.Some? ==>
                emitted == old(emitted) + [r.value.value] && |Remaining()| < old(|Remaining()|)
      ensures r.value.None? ==> emitted == old(emitted) && Remaining() == []
    {
      hide MergeRuns, CursorsAt, Planned, Storable;
      ghost var before := MergeRuns(key, pending);
      r := NextFromRuns();
      if r.value.Some? {
        emitted := emitted + [r.value.value];
        assert emitted + MergeRuns(key, pending) == old(emitted) + before;
      }
    }

    method NextInMemory() returns (r: Result<Option<Buffer>, SortError>)
      requires Valid() && initialized && inMemory.Some?
      modifies this`inMemory, this`emitted
      ensures Valid() && r.Ok?
      ensures r.value.Some? ==>
                emitted == old(emitted) + [r.value.value] && |Remaining()| < old(|Remaining()|)
      ensures r.value.None? ==> emitted == old(emitted) && Remaining() == []
    {
      hide MergeRuns, CursorsAt, Planned;
      var rest := inMemory.value;
      if rest == [] {
        return Ok(None);
      }
      inMemory := Some(rest[1..]);
      emitted := emitted + [rest[0]];
      assert emitted + rest[1..] == old(emitted) + rest;
      return Ok(Some(rest[0]));
    }

    /** One step of the merge: hand out the best head and read its successor. */
    method NextFromRuns() returns (r: Result<Option<Buffer>, SortError>)
      requires CursorsAt(active, pending)
      modifies this`active, this`pending
      ensures CursorsAt(active, pending) && r.Ok?
      ensures r.value.Some? ==> old(MergeRuns(key, pending)) == [r.value.value] + MergeRuns(key, pending)
      ensures r.value.None? ==> pending == old(pending) && MergeRuns(key, pending) == []
    {
      hide EncodeRun, Storable, Less, Flatten;
      var best := FindBest();
      if best.None? {
        return Ok(None);
      }
      var b := best.value;
      var c := active[b];
      assert CursorAt(c, pending[b]);
      var next, pos := ReadNext(c, pending[b]);
      active := active[b := Cursor(c.file, pos, next.value)];
      pending := Advance(pending, b);
      return Ok(c.head);
    }

    method ReadNext(c: Cursor, ghost ts: seq<Buffer>) returns (next: Result<Option<Buffer>, SortError>, pos: nat)
      requires CursorAt(c, ts) && ts != []
      ensures next.Ok? && CursorAt(Cursor(c.file, pos, next.value), ts[1..])
    {
      hide EncodeRun;
      assert Storable(ts[1..]);
      next, pos := ReadTuple(c.file, c.pos);
    }

    lemma {:induction false} HeadIs(i: nat)
      requires CursorsAt(active, pending) && i < |active|
      ensures active[i].head == if pending[i] == [] then None else Some(pending[i][0])
    {
      assert CursorAt(active[i], pending[i]);
    }

    lemma {:induction false} BestStep(i: nat)
      requires i < |pending|
      ensures var best := BestRun(key, pending[..i]);
              BestRun(key, pending[..i + 1]) ==
                if pending[i] == [] then best
                else if best.None? || Less(key, pending[i][0], pending[best.value][0]) then Some(i)
                else best
    {
      assert pending[..i + 1][..i] == pending[..i] && pending[..i + 1][i] == pending[i];
    }

    lemma {:induction false} NoRuns()
      ensures BestRun(key, pending[..0]) == None
    {
    }

    /** The scan of the active runs: a later head wins only when it is strictly less. */
    method FindBest() returns (best: Option<nat>)
      requires CursorsAt(active, pending)
      ensures best == BestRun(key, pending)
    {
      hide BestRun, CursorAt, Less;
      NoRuns();
      best := None;
      for i := 0 to |active|
        invariant best == BestRun(key, pending[..i])
      {
        BestStep(i);
        HeadIs(i);
        if active[i].head.Some? {
          if best.Some? {
            HeadIs(best.value);
            if Less(key, active[i].head.value, active[best.value].head.value) {
              best := Some(i);
            }
          } else {
            best := Some(i);
          }
        }
      }
      assert pending[..|active|] == pending;
    }

    /** Pulling until the end: the merge of the sorted chunks, and for every chunk size the one stable sort. */
    method Drain() returns (output: seq<Buffer>)
      requires Valid() && !initialized
      modifies this
      ensures Planned(key, ChunkLength(chunkSize), input, output)
      ensures Consistent(key, input) ==> output == Sort(key, input) && IsStableSort(key, input, output)
      ensures Consistent(key, input) ==> KeysAscend(key, output)
    {
      output := [];
      var r := Next();
      while r.value.Some?
        invariant Valid() && initialized && r.Ok?
        invariant r.value.Some? ==> emitted == output + [r.value.value]
        invariant r.value.None? ==> emitted == output && Remaining() == []
        decreases |Remaining()|, r.value.Some?
      {
        output := output + [r.value.value];
        r := Next();
      }
      assert emitted + Remaining() == output;
      if Consistent(key, input) {
        PlannedIsSort(key, ChunkLength(chunkSize), input, output);
        SortedIsAscending(key, output);
      }
    }
  }

  // ----- Where the comparison is not an order

  // There `sort_by` promises no particular result. What follows reads it as the insertion sort of
  // `Sort`, which keeps a list that has no descent between neighbours.

  /** c ties with two tuples that do not tie with each other: a NULL, or a value of another type. */
  ghost predicate Ambiguous(key: KeyOf, a: Buffer, c: Buffer, b: Buffer) {
    Less(key, b, a) && Tied(key, a, c) && Tied(key, b, c)
  }

  /**
   Whenever the comparison is not an order on dom, some input from dom comes out differently
   for chunk sizes 3 and 1.
   */
  lemma {:induction false} InconsistentDependsOnChunks(key: KeyOf, dom: seq<Buffer>)
      returns (input: seq<Buffer>, one: seq<Buffer>, other: seq<Buffer>)
    requires !Consistent(key, dom)
    ensures Within(input, dom)
    ensures Planned(key, 3, input, one) && Planned(key, 1, input, other) && one != other
  {
    hide Planned;
    var b, a, c :| a in dom && b in dom && c in dom && Less(key, b, a) && !Less(key, b, c) && !Less(key, c, a);
    assert Ambiguous(key, a, c, b) by {
      if key(c).Some? && SameType(key(b).value, key(c).value) {
        ValueLessCotransitive(key(b).value, key(a).value, key(c).value);
      }
    }
    input, one, other := [a, c, b], [a, c, b], [b, a, c];
    AmbiguousInput(key, a, c, b);
    LessAsymmetric(key, a, a);
  }

  /** Sorted in one chunk an ambiguous list stays put; in chunks of one tuple it does not. */
  lemma {:induction false} AmbiguousInput(key: KeyOf, a: Buffer, c: Buffer, b: Buffer)
    requires Ambiguous(key, a, c, b)
    ensures Planned(key, 3, [a, c, b], [a, c, b]) && Planned(key, 1, [a, c, b], [b, a, c])
  {
    hide MergeRuns, Sort, SortEach, Flatten, Planned;
    SortAmbiguous(key, a, c, b);
    OneChunk(key, 3, [a, c, b]);
    var chunks: Runs := [[a], [c], [b]];
    FlattenThree([a], [c], [b]);
    assert [a] + [c] + [b] == [a, c, b];
    SortSingles(key, chunks);
    MergeAmbiguous(key, a, c, b);
    PlannedBy(key, 1, chunks);
  }

  lemma {:induction false} FlattenThree(a: seq<Buffer>, b: seq<Buffer>, c: seq<Buffer>)
    ensures Flatten([a, b, c]) == a + b + c
  {
    var one: Runs, two: Runs, three: Runs := [a], [a, b], [a, b, c];
    assert one[..0] == [] && two[..1] == one && three[..2] == two;
    assert Flatten(one) == a && Flatten(two) == a + b;
  }

  lemma {:induction false} SortOne(key: KeyOf, x: Buffer)
    ensures Sort(key, [x]) == [x]
  {
    assert [x][1..] == [];
  }

  lemma {:induction false} SortSingles(key: KeyOf, chunks: Runs)
    requires forall i :: 0 <= i < |chunks| ==> |chunks[i]| == 1
    ensures SortEach(key, chunks) == chunks
  {
    forall i | 0 <= i < |chunks|
      ensures Sort(key, chunks[i]) == chunks[i]
    {
      SortOne(key, chunks[i][0]);
      assert chunks[i] == [chunks[i][0]];
    }
  }

  lemma {:induction false} SortAmbiguous(key: KeyOf, a: Buffer, c: Buffer, b: Buffer)
    requires Ambiguous(key, a, c, b)
    ensures Sort(key, [a, c, b]) == [a, c, b]
  {
    SortOne(key, b);
    assert [a, c, b][1..] == [c, b] && [c, b][1..] == [b];
    assert Sort(key, [c, b]) == [c, b];
  }

  lemma {:induction false} MergeAmbiguous(key: KeyOf, a: Buffer, c: Buffer, b: Buffer)
    requires Ambiguous(key, a, c, b)
    ensures MergeRuns(key, [[a], [c], [b]]) == [b, a, c]
  {
    var r0: Runs, r1: Runs, r2: Runs, r3: Runs :=
      [[a], [c], [b]], [[a], [c], []], [[], [c], []], [[], [], []];
    BestOfThree(key, r0);
    BestOfThree(key, r1);
    BestOfThree(key, r2);
    BestOfThree(key, r3);
    assert [a][1..] == [] && [c][1..] == [] && [b][1..] == [];
    assert Advance(r0, 2) == r1 && Advance(r1, 0) == r2 && Advance(r2, 1) == r3;
    assert MergeRuns(key, r3) == [];
    assert MergeRuns(key, r2) == [c] + MergeRuns(key, r3);
    assert MergeRuns(key, r1) == [a] + MergeRuns(key, r2);
    assert MergeRuns(key, r0) == [b] + MergeRuns(key, r1);
  }

  /** The scan of three runs, unrolled. */
  lemma {:induction false} BestOfThree(key: KeyOf, runs: Runs)
    requires |runs| == 3
    ensures var first := if runs[0] == [] then None else Some(0);
            var second := if runs[1] == [] then first
                          else if first.None? || Less(key, runs[1][0], runs[0][0]) then Some(1) else first;
            BestRun(key, runs) ==
              if runs[2] == [] then second
              else if second.None? || Less(key, runs[2][0], runs[second.value][0]) then Some(2) else second
  {
    assert runs[..2][..1][..0] == [];
    assert BestRun(key, runs[..2][..1]) == if runs[0] == [] then None else Some(0);
  }
}
