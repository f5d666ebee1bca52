/** Column values and the comparisons the executors make between them. */
module Values {

  datatype Value = Integer(i: int) | Varchar(s: string) | Boolean(b: bool) | Null

  /** Byte-wise string order; code points order like their UTF-8 encodings. */
  predicate StringLess(a: string, b: string) {
    if b == [] then false
    else if a == [] then true
    else if a[0] != b[0] then a[0] < b[0]
    else StringLess(a[1..], b[1..])
  }

  /** `cmp(..) == Less` for two values of one type; values of different types, and NULLs, compare as equal. */
  predicate ValueLess(a: Value, b: Value) {
    match (a, b)
    case (Integer(x), Integer(y)) => x < y
    case (Varchar(x), Varchar(y)) => StringLess(x, y)
    case (Boolean(x), Boolean(y)) => !x && y
    case _ => false
  }

  predicate SameType(a: Value, b: Value) {
    || (a.Integer? && b.Integer?)
    || (a.Varchar? && b.Varchar?)
    || (a.Boolean? && b.Boolean?)
  }

  /** Within one type the order is total. */
  lemma {:induction false} StringTotal(a: string, b: string)
    ensures a != b ==> StringLess(a, b) || StringLess(b, a)
    ensures !(StringLess(a, b) && StringLess(b, a))
  {
    if a != [] && b != [] && a[0] == b[0] {
      StringTotal(a[1..], b[1..]);
      assert a == [a[0]] + a[1..] && b == [b[0]] + b[1..];
    }
  }

  lemma {:induction false} StringTransitive(a: string, b: string, c: string)
    requires StringLess(a, b)
    ensures StringLess(a, c) || StringLess(c, b)
    decreases |a| + |b| + |c|
  {
    if a != [] && c != [] && a[0] == b[0] == c[0] {
      StringTransitive(a[1..], b[1..], c[1..]);
    }
  }

  lemma {:induction false} ValueLessAsymmetric(a: Value, b: Value)
    ensures !(ValueLess(a, b) && ValueLess(b, a))
  {
    if a.Varchar? && b.Varchar? {
      StringTotal(a.s, b.s);
    }
  }

  lemma {:induction false} ValueLessCotransitive(a: Value, b: Value, c: Value)
    requires ValueLess(a, b) && SameType(a, c)
    ensures ValueLess(a, c) || ValueLess(c, b)
  {
    if a.Varchar? {
      StringTransitive(a.s, b.s, c.s);
    }
  }

  lemma {:induction false} ValueLessTotal(a: Value, b: Value)
    requires SameType(a, b) && a != b
    ensures ValueLess(a, b) || ValueLess(b, a)
  {
    if a.Varchar? {
      StringTotal(a.s, b.s);
    }
  }

  // ----- What the comparison means

  /** The strings agree before position i, and there a has the smaller character. */
  ghost predicate DiffersFirst(a: string, b: string, i: nat) {
    i < |a| && i < |b| && (forall k :: 0 <= k < i ==> a[k] == b[k]) && a[i] < b[i]
  }

  /** a is a proper prefix of b, or has the smaller character where they first differ. */
  ghost predicate Precedes(a: string, b: string) {
    a < b || exists i :: DiffersFirst(a, b, i)
  }

  lemma {:induction false} StringLessIff(a: string, b: string)
    ensures StringLess(a, b) <==> Precedes(a, b)
  {
    if a != [] && b != [] && a[0] == b[0] {
      var x, y := a[1..], b[1..];
      StringLessIff(x, y);
      assert a == [a[0]] + x && b == [b[0]] + y;
      if i: nat :| DiffersFirst(x, y, i) {
        assert DiffersFirst(a, b, i + 1);
      }
      if i: nat :| DiffersFirst(a, b, i) {
        assert DiffersFirst(x, y, i - 1);
      }
    } else if a != [] && b != [] {
      assert a[0] < b[0] ==> DiffersFirst(a, b, 0);
    }
  }

  /**
   The order of ORDER BY: integers ascending, false before true, strings by their first difference.
   NULLs and values of different types stand in any order.
   */
  ghost predicate InOrder(a: Value, b: Value) {
    match (a, b)
    case (Integer(x), Integer(y)) => x <= y
    case (Boolean(x), Boolean(y)) => x ==> y
    case (Varchar(x), Varchar(y)) => x == y || Precedes(x, y)
    case _ => true
  }

  /** The comparison is that order: b is less than a exactly when a may not stand before b. */
  lemma {:induction false} ValueLessIff(a: Value, b: Value)
    ensures ValueLess(b, a) <==> !InOrder(a, b)
  {
    if a.Varchar? && b.Varchar? {
      StringLessIff(a.s, b.s);
      StringTotal(a.s, b.s);
    }
  }
}
