/** Slice operations of the node and page code, and what they mean on the live prefix. */
module Sequences {

  function InsertAt<T>(s: seq<T>, i: nat, x: T): (r: seq<T>)
    requires i <= |s|
    ensures |r| == |s| + 1 && r[i] == x
    ensures forall j :: 0 <= j < i ==> r[j] == s[j]
    ensures forall j :: i < j < |r| ==> r[j] == s[j - 1]
  {
    s[..i] + [x] + s[i..]
  }

  function RemoveAt<T>(s: seq<T>, i: nat): (r: seq<T>)
    requires i < |s|
    ensures |r| == |s| - 1
    ensures forall j :: 0 <= j < i ==> r[j] == s[j]
    ensures forall j :: i <= j < |r| ==> r[j] == s[j + 1]
  {
    s[..i] + s[i + 1..]
  }

  /** `slice::copy_within(lo..hi, dst)`: an overlapping move inside one buffer. */
  function CopyWithin<T>(s: seq<T>, lo: nat, hi: nat, dst: nat): (r: seq<T>)
    requires lo <= hi <= |s| && dst + (hi - lo) <= |s|
    ensures |r| == |s|
  {
    s[..dst] + s[lo..hi] + s[dst + (hi - lo)..]
  }

  /** `dst[at..at + |src|].copy_from_slice(src)`. */
  function CopyFrom<T>(s: seq<T>, at: nat, src: seq<T>): (r: seq<T>)
    requires at + |src| <= |s|
    ensures |r| == |s|
  {
    s[..at] + src + s[at + |src|..]
  }

  /** Shifting the tail one cell right and writing the gap inserts into the live prefix. */
  lemma {:induction false} ShiftRightInserts<T>(s: seq<T>, n: nat, i: nat, x: T)
    requires i <= n < |s|
    ensures CopyWithin(s, i, n, i + 1)[i := x][..n + 1] == InsertAt(s[..n], i, x)
  {
    var shifted := CopyWithin(s, i, n, i + 1)[i := x];
    assert forall j :: i < j < n + 1 ==> shifted[j] == s[j - 1];
  }

  /** Shifting the tail one cell left removes from the live prefix. */
  lemma {:induction false} ShiftLeftRemoves<T>(s: seq<T>, n: nat, i: nat)
    requires i < n <= |s|
    ensures CopyWithin(s, i + 1, n, i)[..n - 1] == RemoveAt(s[..n], i)
  {
    var shifted := CopyWithin(s, i + 1, n, i);
    assert forall j :: i <= j < n - 1 ==> shifted[j] == s[j + 1];
  }

  ghost predicate StrictlySorted(s: seq<int>) {
    forall i, j :: 0 <= i < j < |s| ==> s[i] < s[j]
  }

  /** The outcome of `slice::binary_search`. */
  datatype Lookup = Found(at: nat) | Missing(at: nat)

  /** The number of leading keys below `key`: the insertion point in a sorted slice. */
  function LowerBound(keys: seq<int>, key: int): (i: nat)
    ensures i <= |keys|
    ensures forall j :: 0 <= j < i ==> keys[j] < key
    ensures i < |keys| ==> key <= keys[i]
  {
    if keys == [] || key <= keys[0] then 0 else 1 + LowerBound(keys[1..], key)
  }

  function BinarySearch(keys: seq<int>, key: int): (r: Lookup)
    ensures r.at == LowerBound(keys, key)
    ensures r.Found? ==> r.at < |keys| && keys[r.at] == key
    ensures StrictlySorted(keys) ==> (r.Found? <==> key in keys)
  {
    var i := LowerBound(keys, key);
    if i < |keys| && keys[i] == key then Found(i) else Missing(i)
  }

  lemma {:induction false} SortedInsert(keys: seq<int>, key: int)
    requires StrictlySorted(keys) && key !in keys
    ensures StrictlySorted(InsertAt(keys, LowerBound(keys, key), key))
  {
    var i := LowerBound(keys, key);
    if i < |keys| {
      assert keys[i] in keys;
      assert key < keys[i];
    }
  }
}
