/**
 The stable sort of a list of tuples by one column, and merging sorted runs of it.

 `key` reads the sort column of a tuple and is None when the tuple does not decode or is too
 short; such tuples, NULLs and values of different types compare as equal. The comparison is
 a weak order on a list exactly when `Consistent` says so, which `ConsistentIff` turns into a
 check on the column types.
 */
module StableSort {
  import opened Storage
  import opened Bytes
  import opened Values

  type KeyOf = Buffer -> Option<Value>

  predicate Less(key: KeyOf, a: Buffer, b: Buffer) {
    key(a).Some? && key(b).Some? && ValueLess(key(a).value, key(b).value)
  }

  predicate Tied(key: KeyOf, a: Buffer, b: Buffer) {
    !Less(key, a, b) && !Less(key, b, a)
  }

  // ----- When the comparison is an order

  /** Incomparability is transitive on the tuples of s. */
  ghost predicate Consistent(key: KeyOf, s: seq<Buffer>) {
    forall a, b, c {:trigger Less(key, a, b), Less(key, a, c)} {:trigger Less(key, a, b), Less(key, c, b)} ::
      a in s && b in s && c in s && Less(key, a, b) ==> Less(key, a, c) || Less(key, c, b)
  }

  /** Every tuple of s has a non-null sort key, all of one type. */
  ghost predicate OneType(key: KeyOf, s: seq<Buffer>) {
    forall a, b :: a in s && b in s ==>
      key(a).Some? && key(b).Some? && SameType(key(a).value, key(b).value)
  }

  ghost predicate AllTied(key: KeyOf, s: seq<Buffer>) {
    forall a, b :: a in s && b in s ==> !Less(key, a, b)
  }

  /** The comparison orders s exactly when all keys are of one type and not null, or none differ. */
  lemma {:induction false} ConsistentIff(key: KeyOf, s: seq<Buffer>)
    ensures Consistent(key, s) <==> OneType(key, s) || AllTied(key, s)
  {
    if OneType(key, s) {
      forall a, b, c | a in s && b in s && c in s && Less(key, a, b)
        ensures Less(key, a, c) || Less(key, c, b)
      {
        ValueLessCotransitive(key(a).value, key(b).value, key(c).value);
      }
    }
    if Consistent(key, s) && !AllTied(key, s) {
      var a, b :| a in s && b in s && Less(key, a, b);
      forall c | c in s
        ensures key(c).Some? && SameType(key(a).value, key(c).value)
      {
        assert Less(key, a, c) || Less(key, c, b);
      }
    }
  }

  /** Among non-null keys of one type, tuples tie exactly when their keys are equal. */
  lemma {:induction false} TiedIsEqualKey(key: KeyOf, s: seq<Buffer>, a: Buffer, b: Buffer)
    requires OneType(key, s) && a in s && b in s
    ensures Tied(key, a, b) <==> key(a) == key(b)
  {
    if key(a) == key(b) {
      ValueLessAsymmetric(key(a).value, key(a).value);
    } else {
      ValueLessTotal(key(a).value, key(b).value);
    }
  }

  lemma {:induction false} LessAsymmetric(key: KeyOf, a: Buffer, b: Buffer)
    ensures !(Less(key, a, b) && Less(key, b, a))
  {
    if Less(key, a, b) {
      ValueLessAsymmetric(key(a).value, key(b).value);
    }
  }

  // ----- Sorting

  ghost predicate Sorted(key: KeyOf, s: seq<Buffer>) {
    forall i, j :: 0 <= i < j < |s| ==> !Less(key, s[j], s[i])
  }

  /** The keys stand in the order of their values. */
  ghost predicate KeysAscend(key: KeyOf, s: seq<Buffer>) {
    forall i, j :: 0 <= i < j < |s| && key(s[i]).Some? && key(s[j]).Some? ==>
      InOrder(key(s[i]).value, key(s[j]).value)
  }

  /** Sorted by the comparison is ascending by the values. */
  lemma {:induction false} SortedIsAscending(key: KeyOf, s: seq<Buffer>)
    ensures Sorted(key, s) <==> KeysAscend(key, s)
  {
    hide ValueLess, InOrder;
    forall i, j | 0 <= i < j < |s| && key(s[i]).Some? && key(s[j]).Some?
      ensures Less(key, s[j], s[i]) <==> !InOrder(key(s[i]).value, key(s[j]).value)
    {
      ValueLessIff(key(s[i]).value, key(s[j]).value);
    }
  }

  /** Inserts x before the first tuple that is not less than it. */
  function InsertSorted(key: KeyOf, x: Buffer, s: seq<Buffer>): (r: seq<Buffer>)
    ensures multiset(r) == multiset{x} + multiset(s)
  {
    if s == [] then [x]
    else if Less(key, s[0], x) then
      assert s == [s[0]] + s[1..];
      [s[0]] + InsertSorted(key, x, s[1..])
    else [x] + s
  }

  /** `slice::sort_by`: the stable sort. */
  function Sort(key: KeyOf, s: seq<Buffer>): (r: seq<Buffer>)
    ensures multiset(r) == multiset(s)
  {
    if s == [] then [] else
      assert s == [s[0]] + s[1..];
      InsertSorted(key, s[0], Sort(key, s[1..]))
  }

  /** The tuples of s that tie with x, in the order of s. */
  function TiedWith(key: KeyOf, x: Buffer, s: seq<Buffer>): seq<Buffer> {
    if s == [] then []
    else if Tied(key, x, s[0]) then [s[0]] + TiedWith(key, x, s[1..])
    else TiedWith(key, x, s[1..])
  }

  /** r is s sorted, and tuples that tie keep their order. */
  ghost predicate IsStableSort(key: KeyOf, s: seq<Buffer>, r: seq<Buffer>) {
    && Sorted(key, r)
    && multiset(r) == multiset(s)
    && forall x {:trigger TiedWith(key, x, r)} :: x in s ==> TiedWith(key, x, r) == TiedWith(key, x, s)
  }

  lemma {:induction false} TiedWithAppend(key: KeyOf, x: Buffer, s: seq<Buffer>, t: seq<Buffer>)
    ensures TiedWith(key, x, s + t) == TiedWith(key, x, s) + TiedWith(key, x, t)
  {
    hide Tied;
    if s == [] {
      assert s + t == t;
    } else {
      assert (s + t)[1..] == s[1..] + t;
      TiedWithAppend(key, x, s[1..], t);
    }
  }

  lemma {:induction false} TiedWithNone(key: KeyOf, x: Buffer, s: seq<Buffer>)
    requires forall y :: y in s ==> !Tied(key, x, y)
    ensures TiedWith(key, x, s) == []
  {
    if s != [] {
      TiedWithNone(key, x, s[1..]);
    }
  }

  lemma {:induction false} SameMembers(s: seq<Buffer>, t: seq<Buffer>)
    requires multiset(s) == multiset(t)
    ensures forall x :: x in s <==> x in t
    ensures |s| == |t|
  {
    forall x
      ensures x in s <==> x in t
    {
      assert x in s <==> x in multiset(s);
      assert x in t <==> x in multiset(t);
    }
    assert |s| == |multiset(s)| && |t| == |multiset(t)|;
  }

  // The lemmas below take the tuples from one list `dom` that the comparison orders.

  ghost predicate Within(s: seq<Buffer>, dom: seq<Buffer>) {
    forall x :: x in s ==> x in dom
  }

  lemma {:induction false} InsertKeepsSorted(key: KeyOf, dom: seq<Buffer>, x: Buffer, s: seq<Buffer>)
    requires Consistent(key, dom) && x in dom && Within(s, dom) && Sorted(key, s)
    ensures Sorted(key, InsertSorted(key, x, s))
  {
    if s != [] {
      if Less(key, s[0], x) {
        var r := InsertSorted(key, x, s[1..]);
        InsertKeepsSorted(key, dom, x, s[1..]);
        LessAsymmetric(key, s[0], x);
        forall j | 0 <= j < |r|
          ensures !Less(key, r[j], s[0])
        {
          assert r[j] in multiset(r);
          assert r[j] == x || r[j] in s[1..];
        }
      } else {
        forall j | 0 <= j < |s|
          ensures !Less(key, s[j], x)
        {
          assert s[j] in dom && s[0] in dom;
          assert j > 0 ==> !Less(key, s[j], s[0]);
        }
      }
    }
  }

  lemma {:induction false} InsertKeepsTies(key: KeyOf, dom: seq<Buffer>, x: Buffer, s: seq<Buffer>, y: Buffer)
    requires Consistent(key, dom) && x in dom && y in dom && Within(s, dom)
    ensures TiedWith(key, y, InsertSorted(key, x, s)) == TiedWith(key, y, [x] + s)
  {
    if s != [] && Less(key, s[0], x) {
      var rest := s[1..];
      InsertKeepsTies(key, dom, x, rest, y);
      assert InsertSorted(key, x, s) == [s[0]] + InsertSorted(key, x, rest);
      assert s[0] in dom;
      assert !(Tied(key, y, x) && Tied(key, y, s[0]));
      TiedWithSwap(key, y, x, s[0], rest);
      assert [x] + s == [x] + ([s[0]] + rest);
    }
  }

  lemma {:induction false} TiedWithSwap(key: KeyOf, y: Buffer, a: Buffer, b: Buffer, s: seq<Buffer>)
    requires !(Tied(key, y, a) && Tied(key, y, b))
    ensures TiedWith(key, y, [a] + ([b] + s)) == TiedWith(key, y, [b] + ([a] + s))
  {
    assert ([a] + ([b] + s))[1..] == [b] + s && ([b] + s)[1..] == s;
    assert ([b] + ([a] + s))[1..] == [a] + s && ([a] + s)[1..] == s;
  }

  lemma {:induction false} SortKeepsTies(key: KeyOf, dom: seq<Buffer>, s: seq<Buffer>, y: Buffer)
    requires Consistent(key, dom) && y in dom && Within(s, dom)
    ensures TiedWith(key, y, Sort(key, s)) == TiedWith(key, y, s)
  {
    if s != [] {
      SortKeepsTies(key, dom, s[1..], y);
      SameMembers(Sort(key, s[1..]), s[1..]);
      InsertKeepsTies(key, dom, s[0], Sort(key, s[1..]), y);
      var r := Sort(key, s[1..]);
      assert ([s[0]] + r)[1..] == r;
    }
  }

  lemma {:induction false} SortSorts(key: KeyOf, dom: seq<Buffer>, s: seq<Buffer>)
    requires Consistent(key, dom) && Within(s, dom)
    ensures Sorted(key, Sort(key, s))
  {
    if s != [] {
      SortSorts(key, dom, s[1..]);
      SameMembers(Sort(key, s[1..]), s[1..]);
      InsertKeepsSorted(key, dom, s[0], Sort(key, s[1..]));
    }
  }

  lemma {:induction false} SortIsStable(key: KeyOf, s: seq<Buffer>)
    requires Consistent(key, s)
    ensures IsStableSort(key, s, Sort(key, s))
  {
    SortSorts(key, s, s);
    forall x | x in s
      ensures TiedWith(key, x, Sort(key, s)) == TiedWith(key, x, s)
    {
      SortKeepsTies(key, s, s, x);
    }
  }

  // ----- There is only one stable sort

  /** The heads of two stable sorts of one list are the same tuple. */
  lemma {:induction false} SameHead(key: KeyOf, dom: seq<Buffer>, a: seq<Buffer>, b: seq<Buffer>)
    requires Consistent(key, dom) && Within(a, dom) && a != [] && b != []
    requires Sorted(key, a) && Sorted(key, b) && multiset(a) == multiset(b)
    requires TiedWith(key, a[0], a) == TiedWith(key, a[0], b)
    ensures a[0] == b[0]
  {
    SameMembers(a, b);
    assert a[0] in b && b[0] in a;
    assert !Less(key, a[0], b[0]) by {
      var i :| 0 <= i < |b| && b[i] == a[0];
      assert i > 0 ==> !Less(key, b[i], b[0]);
      LessAsymmetric(key, a[0], b[0]);
    }
    assert !Less(key, b[0], a[0]) by {
      var i :| 0 <= i < |a| && a[i] == b[0];
      assert i > 0 ==> !Less(key, a[i], a[0]);
      LessAsymmetric(key, a[0], b[0]);
    }
    LessAsymmetric(key, a[0], a[0]);
    assert TiedWith(key, a[0], a)[0] == a[0];
    assert TiedWith(key, a[0], b)[0] == b[0];
  }

  lemma {:induction false} TiedTails(key: KeyOf, x: Buffer, a: seq<Buffer>, b: seq<Buffer>)
    requires a != [] && b != [] && a[0] == b[0] && TiedWith(key, x, a) == TiedWith(key, x, b)
    ensures TiedWith(key, x, a[1..]) == TiedWith(key, x, b[1..])
  {
    hide Tied;
    var n := if Tied(key, x, a[0]) then 1 else 0;
    assert TiedWith(key, x, a)[n..] == TiedWith(key, x, a[1..]);
    assert TiedWith(key, x, b)[n..] == TiedWith(key, x, b[1..]);
  }

  lemma {:induction false} SortedTail(key: KeyOf, a: seq<Buffer>)
    requires a != [] && Sorted(key, a)
    ensures Sorted(key, a[1..]) && multiset(a[1..]) == multiset(a) - multiset{a[0]}
  {
    var tail := a[1..];
    assert a == [a[0]] + tail;
    assert forall i :: 0 <= i < |tail| ==> tail[i] == a[i + 1];
  }

  lemma {:induction false} StableSortUnique(key: KeyOf, dom: seq<Buffer>, a: seq<Buffer>, b: seq<Buffer>)
    requires Consistent(key, dom) && Within(a, dom)
    requires Sorted(key, a) && Sorted(key, b) && multiset(a) == multiset(b)
    requires forall x {:trigger TiedWith(key, x, a)} :: x in dom ==> TiedWith(key, x, a) == TiedWith(key, x, b)
    ensures a == b
  {
    hide Consistent, Sorted, TiedWith;
    SameMembers(a, b);
    if a != [] {
      SameHead(key, dom, a, b);
      var a', b' := a[1..], b[1..];
      SortedTail(key, a);
      SortedTail(key, b);
      forall x {:trigger TiedWith(key, x, a')} | x in dom
        ensures TiedWith(key, x, a') == TiedWith(key, x, b')
      {
        TiedTails(key, x, a, b);
      }
      assert a == [a[0]] + a' && b == [b[0]] + b';
      StableSortUnique(key, dom, a', b');
    }
  }

  /** Sort is the only stable sort. */
  lemma {:induction false} SortUnique(key: KeyOf, s: seq<Buffer>, r: seq<Buffer>)
    requires Consistent(key, s) && IsStableSort(key, s, r)
    ensures r == Sort(key, s)
  {
    SortIsStable(key, s);
    SameMembers(s, r);
    forall x | x in s
      ensures TiedWith(key, x, r) == TiedWith(key, x, Sort(key, s))
    {
      assert TiedWith(key, x, Sort(key, s)) == TiedWith(key, x, s);
    }
    StableSortUnique(key, s, r, Sort(key, s));
  }
}
