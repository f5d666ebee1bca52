/** The least-recently-used replacement policy over frame numbers. */
module Lru {
  import opened Storage
  import opened Sequences

  ghost predicate Distinct(q: seq<nat>) {
    forall i, j :: 0 <= i < j < |q| ==> q[i] != q[j]
  }

  /** `iter().position(|&id| id == f)`. */
  function Position(q: seq<nat>, f: nat): (r: Option<nat>)
    ensures r.Some? ==> r.value < |q| && q[r.value] == f
    ensures r.None? <==> f !in q
  {
    if q == [] then None
    else if q[0] == f then Some(0)
    else match Position(q[1..], f)
      case None => None
      case Some(i) => Some(i + 1)
  }

  function Without(q: seq<nat>, f: nat): seq<nat> {
    match Position(q, f)
    case None => q
    case Some(i) => RemoveAt(q, i)
  }

  lemma {:induction false} WithoutMembers(q: seq<nat>, f: nat)
    requires Distinct(q)
    ensures Distinct(Without(q, f))
    ensures forall x :: x in Without(q, f) <==> x in q && x != f
    ensures forall i, j :: 0 <= i < j < |Without(q, f)| ==> Before(q, Without(q, f)[i], Without(q, f)[j])
  {
    var r := Without(q, f);
    match Position(q, f) {
      case None =>
      case Some(p) =>
        forall x | x in q && x != f
          ensures x in r
        {
          var i :| 0 <= i < |q| && q[i] == x;
          assert r[if i < p then i else i - 1] == x;
        }
        forall i, j | 0 <= i < j < |r|
          ensures r[i] != r[j] && Before(q, r[i], r[j])
        {
          var i', j' := if i < p then i else i + 1, if j < p then j else j + 1;
          assert r[i] == q[i'] && r[j] == q[j'];
        }
    }
  }

  /** x stands before y in the queue. */
  ghost predicate Before(q: seq<nat>, x: nat, y: nat) {
    exists i, j :: 0 <= i < j < |q| && q[i] == x && q[j] == y
  }

  /** The queue lists frames by the time of their last use. */
  ghost predicate ByLastUse(q: seq<nat>, lastUse: map<nat, nat>, clock: nat) {
    && (forall f :: f in q ==> f in lastUse && lastUse[f] < clock)
    && (forall x, y :: Before(q, x, y) ==> x in lastUse && y in lastUse && lastUse[x] < lastUse[y])
  }

  ghost predicate AllBelow(q: seq<nat>, n: nat) {
    forall i :: 0 <= i < |q| ==> q[i] < n
  }

  class LRUReplacer {
    const capacity: nat
    var accessQueue: seq<nat>
    var isPinned: seq<bool>
    /** When each frame was last used, on a clock that ticks at every access. */
    ghost var lastUse: map<nat, nat>
    ghost var clock: nat

    ghost predicate Valid()
      reads this
    {
      && |isPinned| == capacity
      && Distinct(accessQueue)
      && AllBelow(accessQueue, capacity)
      && ByLastUse(accessQueue, lastUse, clock)
    }

    constructor (capacity: nat)
      ensures Valid() && this.capacity == capacity && accessQueue == []
      ensures isPinned == seq(capacity, _ => false)
    {
      this.capacity := capacity;
      accessQueue, isPinned := [], seq(capacity, _ => false);
      lastUse, clock := map[], 0;
    }

    method RecordAccess(f: nat)
      requires Valid() && f < capacity
      modifies this`accessQueue, this`lastUse, this`clock
      ensures Valid() && accessQueue == Without(old(accessQueue), f) + [f]
      ensures forall x :: x in accessQueue <==> x in old(accessQueue) || x == f
      ensures clock == old(clock) + 1 && lastUse == old(lastUse)[f := old(clock)]
    {
      WithoutMembers(accessQueue, f);
      ghost var q := accessQueue;
      var pos := Position(accessQueue, f);
      if pos.Some? {
        accessQueue := RemoveAt(accessQueue, pos.value);
      }
      MovedToBack(q, f, lastUse, clock);
      accessQueue := accessQueue + [f];
      lastUse, clock := lastUse[f := clock], clock + 1;
    }

    method SetPin(f: nat, pinned: bool)
      requires Valid()
      modifies this`isPinned
      ensures Valid() && isPinned == if f < capacity then old(isPinned)[f := pinned] else old(isPinned)
    {
      if f < capacity {
        isPinned := isPinned[f := pinned];
      }
    }

    /** Takes the unpinned frame used longest ago out of the queue. */
    method Evict() returns (r: Option<nat>)
      requires Valid()
      modifies this`accessQueue
      ensures Valid()
      ensures r.None? ==>
                && accessQueue == old(accessQueue)
                && forall f :: f in accessQueue ==> f < capacity && isPinned[f]
      ensures r.Some? ==>
                && r.value in old(accessQueue) && r.value < capacity && !isPinned[r.value]
                && (forall f :: f in accessQueue <==> f in old(accessQueue) && f != r.value)
                && (forall f :: f in accessQueue && !isPinned[f] ==>
                      r.value in lastUse && f in lastUse && lastUse[r.value] < lastUse[f])
    {
      var i := 0;
      while i < |accessQueue|
        invariant i <= |accessQueue|
        invariant forall j :: 0 <= j < i ==> isPinned[accessQueue[j]]
      {
        var f := accessQueue[i];
        if !isPinned[f] {
          TakenFromQueue(accessQueue, i, isPinned, lastUse, clock);
          accessQueue := RemoveAt(accessQueue, i);
          return Some(f);
        }
        i := i + 1;
      }
      return None;
    }
  }

  lemma {:induction false} MovedToBack(q: seq<nat>, f: nat, lastUse: map<nat, nat>, clock: nat)
    requires Distinct(q) && ByLastUse(q, lastUse, clock)
    ensures Distinct(Without(q, f) + [f])
    ensures ByLastUse(Without(q, f) + [f], lastUse[f := clock], clock + 1)
  {
    WithoutMembers(q, f);
    var w := Without(q, f);
    var r, lastUse' := w + [f], lastUse[f := clock];
    forall x, y | Before(r, x, y)
      ensures x in lastUse' && y in lastUse' && lastUse'[x] < lastUse'[y]
    {
      var i, j :| 0 <= i < j < |r| && r[i] == x && r[j] == y;
      assert x in w;
      if j < |w| {
        assert y in w && Before(q, w[i], w[j]);
      }
    }
  }

  lemma {:induction false} TakenFromQueue(q: seq<nat>, i: nat, pinned: seq<bool>, lastUse: map<nat, nat>, clock: nat)
    requires Distinct(q) && ByLastUse(q, lastUse, clock) && i < |q|
    requires AllBelow(q, |pinned|) && forall j :: 0 <= j < i ==> pinned[q[j]]
    ensures Distinct(RemoveAt(q, i)) && ByLastUse(RemoveAt(q, i), lastUse, clock)
    ensures forall f :: f in RemoveAt(q, i) <==> f in q && f != q[i]
    ensures AllBelow(RemoveAt(q, i), |pinned|)
    ensures forall f :: f in RemoveAt(q, i) && !pinned[f] ==> lastUse[q[i]] < lastUse[f]
  {
    var r := RemoveAt(q, i);
    forall f | f in q && f != q[i]
      ensures f in r
    {
      var j :| 0 <= j < |q| && q[j] == f;
      assert r[if j < i then j else j - 1] == f;
    }
    forall x, y | Before(r, x, y)
      ensures Before(q, x, y)
    {
      var a, b :| 0 <= a < b < |r| && r[a] == x && r[b] == y;
      assert q[if a < i then a else a + 1] == x && q[if b < i then b else b + 1] == y;
    }
    forall f | f in r && !pinned[f]
      ensures lastUse[q[i]] < lastUse[f]
    {
      var j :| 0 <= j < |q| && q[j] == f;
      assert Before(q, q[i], f);
    }
  }
}
