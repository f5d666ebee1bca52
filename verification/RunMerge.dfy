/**
 Cutting a list into chunks, sorting each chunk, and merging the sorted runs by repeatedly
 taking the least head, the lowest run first among heads that tie.
 */
module RunMerge {
  import opened Storage
  import opened Bytes
  import opened StableSort

  type Runs = seq<seq<Buffer>>

  function Flatten(runs: Runs): seq<Buffer> {
    if runs == [] then [] else Flatten(runs[..|runs| - 1]) + runs[|runs| - 1]
  }

  /** The run whose head comes out next. */
  function BestRun(key: KeyOf, runs: Runs): (r: Option<nat>)
    ensures r.Some? ==> r.value < |runs| && runs[r.value] != []
    ensures r.None? ==> forall i :: 0 <= i < |runs| ==> runs[i] == []
  {
    if runs == [] then None else
      var n := |runs| - 1;
      var best := BestRun(key, runs[..n]);
      if runs[n] == [] then
        assert best.None? ==> forall i :: 0 <= i < n ==> runs[i] == runs[..n][i];
        best
      else if best.None? || Less(key, runs[n][0], runs[best.value][0]) then Some(n)
      else best
  }

  function Advance(runs: Runs, b: nat): (r: Runs)
    requires b < |runs| && runs[b] != []
    ensures |r| == |runs|
  {
    runs[b := runs[b][1..]]
  }

  function MergeRuns(key: KeyOf, runs: Runs): seq<Buffer>
    decreases |Flatten(runs)|
  {
    match BestRun(key, runs)
    case None => []
    case Some(b) =>
      FlattenAdvance(runs, b);
      [runs[b][0]] + MergeRuns(key, Advance(runs, b))
  }

  lemma {:induction false} FlattenAt(runs: Runs, b: nat)
    requires b < |runs|
    ensures Flatten(runs) == Flatten(runs[..b]) + runs[b] + Flatten(runs[b + 1..])
  {
    var n := |runs| - 1;
    if b < n {
      FlattenAt(runs[..n], b);
      assert runs[..n][..b] == runs[..b];
      assert runs[b + 1..][..n - b - 1] == runs[..n][b + 1..];
      assert runs[b + 1..][n - b - 1] == runs[n];
    } else {
      assert runs[b + 1..] == [];
    }
  }

  lemma {:induction false} FlattenAdvance(runs: Runs, b: nat)
    requires b < |runs| && runs[b] != []
    ensures Flatten(Advance(runs, b)) == Flatten(runs[..b]) + runs[b][1..] + Flatten(runs[b + 1..])
    ensures |Flatten(Advance(runs, b))| < |Flatten(runs)|
    ensures multiset(Flatten(runs)) == multiset{runs[b][0]} + multiset(Flatten(Advance(runs, b)))
  {
    FlattenAt(runs, b);
    var r := Advance(runs, b);
    FlattenAt(r, b);
    assert r[..b] == runs[..b] && r[b + 1..] == runs[b + 1..];
    assert runs[b] == [runs[b][0]] + runs[b][1..];
  }

  lemma {:induction false} FlattenMember(runs: Runs, b: nat, x: Buffer)
    requires b < |runs| && x in runs[b]
    ensures x in Flatten(runs)
  {
    FlattenAt(runs, b);
  }

  lemma {:induction false} FlattenSource(runs: Runs, x: Buffer) returns (b: nat)
    requires x in Flatten(runs)
    ensures b < |runs| && x in runs[b]
  {
    var n := |runs| - 1;
    if x in runs[n] {
      b := n;
    } else {
      b := FlattenSource(runs[..n], x);
    }
  }

  ghost predicate RunsSorted(key: KeyOf, runs: Runs) {
    forall i :: 0 <= i < |runs| ==> Sorted(key, runs[i])
  }

  ghost predicate RunsWithin(runs: Runs, dom: seq<Buffer>) {
    forall i :: 0 <= i < |runs| ==> Within(runs[i], dom)
  }

  // ----- The chosen head

  /** The chosen head precedes every head strictly on its left, and is below none on its right. */
  ghost predicate Chosen(key: KeyOf, runs: Runs, b: nat)
    requires b < |runs| && runs[b] != []
  {
    && (forall i :: 0 <= i < b && runs[i] != [] ==> Less(key, runs[b][0], runs[i][0]))
    && (forall i :: b < i < |runs| && runs[i] != [] ==> !Less(key, runs[i][0], runs[b][0]))
  }

  lemma {:induction false} BestIsChosen(key: KeyOf, dom: seq<Buffer>, runs: Runs)
    requires Consistent(key, dom) && RunsWithin(runs, dom)
    ensures var best := BestRun(key, runs); best.Some? ==> Chosen(key, runs, best.value)
  {
    if runs != [] {
      var n := |runs| - 1;
      var init := runs[..n];
      BestIsChosen(key, dom, init);
      var before, best := BestRun(key, init), BestRun(key, runs);
      if best == Some(n) && before.Some? {
        var h, j := runs[n][0], before.value;
        forall i | 0 <= i < n && runs[i] != []
          ensures Less(key, h, runs[i][0])
        {
          assert runs[i] == init[i];
          assert runs[i][0] in dom && h in dom && runs[j][0] in dom;
          LessAsymmetric(key, runs[j][0], runs[i][0]);
        }
      } else if best.Some? {
        assert before == best || before.None?;
        assert forall i :: 0 <= i < n ==> runs[i] == init[i];
      }
    }
  }

  /** Every tuple of a run is at or after its head. */
  lemma {:induction false} HeadFirst(key: KeyOf, run: seq<Buffer>, x: Buffer)
    requires Sorted(key, run) && x in run
    ensures !Less(key, x, run[0])
  {
    var i :| 0 <= i < |run| && run[i] == x;
    LessAsymmetric(key, x, x);
  }

  /** Nothing in the runs is below the chosen head, and nothing left of it ties with it. */
  lemma {:induction false} ChosenIsLeast(key: KeyOf, dom: seq<Buffer>, runs: Runs, b: nat, i: nat, x: Buffer)
    requires Consistent(key, dom) && RunsWithin(runs, dom) && RunsSorted(key, runs)
    requires b < |runs| && runs[b] != [] && Chosen(key, runs, b)
    requires i < |runs| && x in runs[i]
    ensures !Less(key, x, runs[b][0])
    ensures i < b ==> Less(key, runs[b][0], x)
  {
    HeadFirst(key, runs[i], x);
    var h, g := runs[b][0], runs[i][0];
    assert x in dom && h in dom && g in dom;
    if i < b {
      LessAsymmetric(key, h, x);
    } else {
      assert Less(key, x, h) ==> Less(key, x, g) || Less(key, g, h);
    }
  }

  // ----- Merging is the stable sort

  lemma {:induction false} AdvanceKeeps(key: KeyOf, dom: seq<Buffer>, runs: Runs, b: nat)
    requires RunsWithin(runs, dom) && RunsSorted(key, runs) && b < |runs| && runs[b] != []
    ensures RunsWithin(Advance(runs, b), dom) && RunsSorted(key, Advance(runs, b))
  {
  }

  lemma {:induction false} MergePermutes(key: KeyOf, runs: Runs)
    ensures multiset(MergeRuns(key, runs)) == multiset(Flatten(runs))
    decreases |Flatten(runs)|
  {
    var best := BestRun(key, runs);
    if best.Some? {
      FlattenAdvance(runs, best.value);
      MergePermutes(key, Advance(runs, best.value));
    } else {
      AllEmpty(runs);
    }
  }

  lemma {:induction false} AllEmpty(runs: Runs)
    requires forall i :: 0 <= i < |runs| ==> runs[i] == []
    ensures Flatten(runs) == []
  {
    if runs != [] {
      AllEmpty(runs[..|runs| - 1]);
    }
  }

  lemma {:induction false} MergeSorts(key: KeyOf, dom: seq<Buffer>, runs: Runs)
    requires Consistent(key, dom) && RunsWithin(runs, dom) && RunsSorted(key, runs)
    ensures Sorted(key, MergeRuns(key, runs))
    decreases |Flatten(runs)|
  {
    var best := BestRun(key, runs);
    if best.Some? {
      var b := best.value;
      FlattenAdvance(runs, b);
      AdvanceKeeps(key, dom, runs, b);
      BestIsChosen(key, dom, runs);
      MergeSorts(key, dom, Advance(runs, b));
      MergePermutes(key, Advance(runs, b));
      SameMembers(MergeRuns(key, Advance(runs, b)), Flatten(Advance(runs, b)));
      RestNotBelow(key, dom, runs, b);
      SortedCons(key, runs[b][0], MergeRuns(key, Advance(runs, b)));
    }
  }

  lemma {:induction false} SortedCons(key: KeyOf, h: Buffer, rest: seq<Buffer>)
    requires Sorted(key, rest) && forall x :: x in rest ==> !Less(key, x, h)
    ensures Sorted(key, [h] + rest)
  {
  }

  lemma {:induction false} RestNotBelow(key: KeyOf, dom: seq<Buffer>, runs: Runs, b: nat)
    requires Consistent(key, dom) && RunsWithin(runs, dom) && RunsSorted(key, runs)
    requires b < |runs| && runs[b] != [] && Chosen(key, runs, b)
    ensures forall x :: x in Flatten(Advance(runs, b)) ==> !Less(key, x, runs[b][0])
  {
    forall x | x in Flatten(Advance(runs, b))
      ensures !Less(key, x, runs[b][0])
    {
      var i := FlattenSource(Advance(runs, b), x);
      assert x in runs[i];
      ChosenIsLeast(key, dom, runs, b, i, x);
    }
  }

  /** Taking the chosen head first keeps the order of tied tuples. */
  lemma {:induction false} ChosenKeepsTies(key: KeyOf, dom: seq<Buffer>, runs: Runs, b: nat, x: Buffer)
    requires Consistent(key, dom) && RunsWithin(runs, dom) && RunsSorted(key, runs) && x in dom
    requires b < |runs| && runs[b] != [] && Chosen(key, runs, b)
    ensures TiedWith(key, x, Flatten(runs))
         == TiedWith(key, x, [runs[b][0]]) + TiedWith(key, x, Flatten(Advance(runs, b)))
  {
    hide *;
    var h := runs[b][0];
    var left, mid, right := Flatten(runs[..b]), runs[b][1..], Flatten(runs[b + 1..]);
    FlattenAt(runs, b);
    FlattenAdvance(runs, b);
    if Tied(key, x, h) {
      NoTieOnTheLeft(key, dom, runs, b, x);
    }
    HeadMovesFirst(key, x, left, h, mid + right);
    assert runs[b] == [h] + mid;
    assert left + ([h] + (mid + right)) == left + runs[b] + right;
    assert left + (mid + right) == left + mid + right;
  }

  lemma {:induction false} HeadMovesFirst(key: KeyOf, x: Buffer, left: seq<Buffer>, h: Buffer, tail: seq<Buffer>)
    requires Tied(key, x, h) ==> TiedWith(key, x, left) == []
    ensures TiedWith(key, x, left + ([h] + tail)) == TiedWith(key, x, [h]) + TiedWith(key, x, left + tail)
  {
    TiedWithAppend(key, x, left, [h] + tail);
    TiedWithAppend(key, x, [h], tail);
    TiedWithAppend(key, x, left, tail);
  }

  lemma {:induction false} NoTieOnTheLeft(key: KeyOf, dom: seq<Buffer>, runs: Runs, b: nat, x: Buffer)
    requires Consistent(key, dom) && RunsWithin(runs, dom) && RunsSorted(key, runs) && x in dom
    requires b < |runs| && runs[b] != [] && Chosen(key, runs, b) && Tied(key, x, runs[b][0])
    ensures TiedWith(key, x, Flatten(runs[..b])) == []
  {
    var left, h := Flatten(runs[..b]), runs[b][0];
    forall y | y in left
      ensures !Tied(key, x, y)
    {
      var i := FlattenSource(runs[..b], y);
      assert y in runs[i];
      ChosenIsLeast(key, dom, runs, b, i, y);
      assert y in dom && h in dom;
      assert Less(key, h, x) || Less(key, x, y);
    }
    TiedWithNone(key, x, left);
  }

  lemma {:induction false} MergeKeepsTies(key: KeyOf, dom: seq<Buffer>, runs: Runs, x: Buffer)
    requires Consistent(key, dom) && RunsWithin(runs, dom) && RunsSorted(key, runs) && x in dom
    ensures TiedWith(key, x, MergeRuns(key, runs)) == TiedWith(key, x, Flatten(runs))
    decreases |Flatten(runs)|
  {
    var best := BestRun(key, runs);
    if best.Some? {
      var b := best.value;
      FlattenAdvance(runs, b);
      AdvanceKeeps(key, dom, runs, b);
      BestIsChosen(key, dom, runs);
      ChosenKeepsTies(key, dom, runs, b, x);
      MergeKeepsTies(key, dom, Advance(runs, b), x);
      TiedWithAppend(key, x, [runs[b][0]], MergeRuns(key, Advance(runs, b)));
    } else {
      AllEmpty(runs);
    }
  }

  // ----- Sorting chunk by chunk

  function SortEach(key: KeyOf, chunks: Runs): (r: Runs)
    ensures |r| == |chunks|
  {
    seq(|chunks|, i requires 0 <= i < |chunks| => Sort(key, chunks[i]))
  }

  lemma {:induction false} SortEachKeepsTies(key: KeyOf, dom: seq<Buffer>, chunks: Runs, x: Buffer)
    requires Consistent(key, dom) && RunsWithin(chunks, dom) && x in dom
    ensures TiedWith(key, x, Flatten(SortEach(key, chunks))) == TiedWith(key, x, Flatten(chunks))
  {
    if chunks != [] {
      var n := |chunks| - 1;
      SortEachKeepsTies(key, dom, chunks[..n], x);
      assert SortEach(key, chunks)[..n] == SortEach(key, chunks[..n]);
      SortKeepsTies(key, dom, chunks[n], x);
      TiedWithAppend(key, x, Flatten(chunks[..n]), chunks[n]);
      TiedWithAppend(key, x, Flatten(SortEach(key, chunks)[..n]), Sort(key, chunks[n]));
    }
  }

  lemma {:induction false} SortEachPermutes(key: KeyOf, chunks: Runs)
    ensures multiset(Flatten(SortEach(key, chunks))) == multiset(Flatten(chunks))
  {
    if chunks != [] {
      var n := |chunks| - 1;
      SortEachPermutes(key, chunks[..n]);
      assert SortEach(key, chunks)[..n] == SortEach(key, chunks[..n]);
    }
  }

  lemma {:induction false} SortEachSorts(key: KeyOf, dom: seq<Buffer>, chunks: Runs)
    requires Consistent(key, dom) && RunsWithin(chunks, dom)
    ensures RunsSorted(key, SortEach(key, chunks)) && RunsWithin(SortEach(key, chunks), dom)
  {
    forall i | 0 <= i < |chunks|
      ensures Sorted(key, SortEach(key, chunks)[i]) && Within(SortEach(key, chunks)[i], dom)
    {
      SortSorts(key, dom, chunks[i]);
      SameMembers(Sort(key, chunks[i]), chunks[i]);
    }
  }

  /** However the input is cut into chunks, sorting each and merging is one stable sort. */
  lemma {:induction false} ChunkedSort(key: KeyOf, chunks: Runs)
    requires Consistent(key, Flatten(chunks))
    ensures MergeRuns(key, SortEach(key, chunks)) == Sort(key, Flatten(chunks))
  {
    var input, runs := Flatten(chunks), SortEach(key, chunks);
    forall i, x | 0 <= i < |chunks| && x in chunks[i]
      ensures x in input
    {
      FlattenMember(chunks, i, x);
    }
    SortEachSorts(key, input, chunks);
    MergeSorts(key, input, runs);
    MergePermutes(key, runs);
    SortEachPermutes(key, chunks);
    forall x | x in input
      ensures TiedWith(key, x, MergeRuns(key, runs)) == TiedWith(key, x, input)
    {
      MergeKeepsTies(key, input, runs, x);
      SortEachKeepsTies(key, input, chunks, x);
    }
    SortUnique(key, input, MergeRuns(key, runs));
  }
}
