/** Integer and boolean literals of a WHERE clause: how they are read, and which values they write. */
module Literals {
  import opened Storage

  // ----- Reading

  /** The value of a non-empty string of decimal digits. */
  function ParseDigits(s: string): Option<nat> {
    if s == [] then None
    else
      var d := s[|s| - 1];
      if !('0' <= d <= '9') then None
      else if |s| == 1 then Some(d as int - '0' as int)
      else match ParseDigits(s[..|s| - 1])
        case None => None
        case Some(n) => Some(10 * n + (d as int - '0' as int))
  }

  /** `parse::<i32>()`: an optional sign, digits, and no overflow. */
  function ParseI32(s: string): Option<Key> {
    var negative := s != [] && s[0] == '-';
    var digits := if s != [] && (s[0] == '-' || s[0] == '+') then s[1..] else s;
    match ParseDigits(digits)
    case None => None
    case Some(n) =>
      var magnitude: int := n;
      var v := if negative then -magnitude else magnitude;
      if KEY_MIN <= v < KEY_END then Some(v) else None
  }

  function ParseBool(s: string): Option<bool> {
    if s == "true" then Some(true) else if s == "false" then Some(false) else None
  }

  // ----- Writing

  const DIGITS := "0123456789"

  /** The decimal writing of n, by division. */
  function Decimal(n: nat): (s: string)
    ensures s != []
  {
    if n < 10 then [DIGITS[n]] else Decimal(n / 10) + [DIGITS[n % 10]]
  }

  function Zeros(k: nat): string {
    seq(k, _ => '0')
  }

  function Magnitude(v: int): nat {
    if v < 0 then -v else v
  }

  /** The shortest writing of v. */
  function Written(v: int): string {
    (if v < 0 then "-" else "") + Decimal(Magnitude(v))
  }

  predicate SignFits(sign: string, v: int) {
    || (sign == "" && v >= 0)
    || (sign == "+" && v >= 0)
    || (sign == "-" && v <= 0)
  }

  /** s writes the integer v: a sign, which a value from zero up may go without, leading zeros, and the digits. */
  ghost predicate WritesInt(s: string, v: int) {
    exists sign, zeros :: SignFits(sign, v) && s == sign + Zeros(zeros) + Decimal(Magnitude(v))
  }

  predicate IsDigit(c: char) {
    '0' <= c <= '9'
  }

  function Unsigned(s: string): string {
    if s != [] && (s[0] == '-' || s[0] == '+') then s[1..] else s
  }

  // ----- A literal means the value it writes

  lemma {:induction false} DigitAt(c: char)
    requires IsDigit(c)
    ensures DIGITS[c as int - '0' as int] == c
  {
    var d := c as int - '0' as int;
    assert d == 0 || d == 1 || d == 2 || d == 3 || d == 4 || d == 5 || d == 6 || d == 7 || d == 8 || d == 9;
  }

  lemma {:induction false} DigitOf(d: nat)
    requires d < 10
    ensures IsDigit(DIGITS[d]) && DIGITS[d] as int - '0' as int == d
  {
    DigitAt((d + '0' as int) as char);
  }

  lemma {:induction false} ParseZeros(k: nat)
    requires k > 0
    ensures ParseDigits(Zeros(k)) == Some(0)
  {
    if k > 1 {
      ParseZeros(k - 1);
      assert Zeros(k)[..k - 1] == Zeros(k - 1);
    }
  }

  lemma {:induction false} LastDigit(init: string, d: nat)
    requires d < 10 && init != [] && ParseDigits(init).Some?
    ensures ParseDigits(init + [DIGITS[d]]) == Some(10 * ParseDigits(init).value + d)
  {
    DigitOf(d);
    assert (init + [DIGITS[d]])[..|init|] == init;
  }

  /** Leading zeros and the decimal writing of n read as n. */
  lemma {:induction false} ParseDecimal(zeros: nat, n: nat)
    ensures ParseDigits(Zeros(zeros) + Decimal(n)) == Some(n)
    decreases n
  {
    hide ParseDigits;
    if n >= 10 {
      ParseDecimal(zeros, n / 10);
      LastDigit(Zeros(zeros) + Decimal(n / 10), n % 10);
      assert Zeros(zeros) + Decimal(n) == Zeros(zeros) + Decimal(n / 10) + [DIGITS[n % 10]];
    } else if zeros > 0 {
      ParseZeros(zeros);
      LastDigit(Zeros(zeros), n);
    } else {
      OneDigit(n);
      assert Zeros(0) + [DIGITS[n]] == [DIGITS[n]];
    }
  }

  lemma {:induction false} OneDigit(d: nat)
    requires d < 10
    ensures ParseDigits([DIGITS[d]]) == Some(d)
  {
    DigitOf(d);
  }

  lemma {:induction false} DecimalStep(m: nat, d: nat)
    requires d < 10
    ensures Decimal(10 * m + d) == (if m == 0 then [] else Decimal(m)) + [DIGITS[d]]
  {
    var n := 10 * m + d;
    assert n / 10 == m && n % 10 == d;
    if m > 0 {
      assert Decimal(n) == Decimal(n / 10) + [DIGITS[n % 10]];
    }
  }

  /** Nothing else does. */
  lemma {:induction false} DigitsWrite(s: string) returns (zeros: nat)
    requires ParseDigits(s).Some?
    ensures s == Zeros(zeros) + Decimal(ParseDigits(s).value)
  {
    hide Decimal;
    var init, c := s[..|s| - 1], s[|s| - 1];
    var d := c as int - '0' as int;
    DigitAt(c);
    assert s == init + [c];
    zeros := 0;
    if |s| == 1 {
      DecimalStep(0, d);
    } else {
      var m := ParseDigits(init).value;
      zeros := DigitsWrite(init);
      DecimalStep(m, d);
      if m == 0 {
        DecimalStep(0, 0);
        zeros := zeros + 1;
      }
    }
  }

  lemma {:induction false} NoDigitsIff(s: string)
    ensures ParseDigits(s).None? <==> s == [] || exists i :: 0 <= i < |s| && !IsDigit(s[i])
  {
    if s != [] {
      var init := s[..|s| - 1];
      NoDigitsIff(init);
      assert forall i :: 0 <= i < |init| ==> init[i] == s[i];
    }
  }

  function SignedAs(s: string, n: nat): int {
    var magnitude: int := n;
    if s != [] && s[0] == '-' then -magnitude else magnitude
  }

  lemma {:induction false} WritesIff(s: string, v: int)
    ensures WritesInt(s, v) <==>
              ParseDigits(Unsigned(s)).Some? && v == SignedAs(s, ParseDigits(Unsigned(s)).value)
  {
    hide ParseDigits, Decimal;
    var digits := Unsigned(s);
    if ParseDigits(digits).Some? && v == SignedAs(s, ParseDigits(digits).value) {
      var zeros := DigitsWrite(digits);
      var sign := s[..|s| - |digits|];
      assert s == sign + Zeros(zeros) + Decimal(Magnitude(v)) && SignFits(sign, v);
    }
    if sign, zeros :| SignFits(sign, v) && s == sign + Zeros(zeros) + Decimal(Magnitude(v)) {
      WrittenReads(s, sign, zeros, v);
    }
  }

  lemma {:induction false} WrittenReads(s: string, sign: string, zeros: nat, v: int)
    requires SignFits(sign, v) && s == sign + Zeros(zeros) + Decimal(Magnitude(v))
    ensures ParseDigits(Unsigned(s)) == Some(Magnitude(v)) && v == SignedAs(s, Magnitude(v))
  {
    hide ParseDigits, Decimal;
    var digits := Zeros(zeros) + Decimal(Magnitude(v));
    ParseDecimal(zeros, Magnitude(v));
    NoDigitsIff(digits);
    assert IsDigit(digits[0]);
    assert s == sign + digits;
    if sign == "" {
      assert s == digits;
    } else {
      assert s[1..] == digits && s[0] == sign[0];
    }
  }

  /** A text reads as v exactly when it writes v and v has 32 bits. */
  lemma {:induction false} ParseI32Iff(s: string, v: int)
    ensures ParseI32(s) == Some(v) <==> KEY_MIN <= v < KEY_END && WritesInt(s, v)
  {
    hide ParseDigits, WritesInt;
    WritesIff(s, v);
  }

  /** Every 32-bit value survives being written and read. */
  lemma {:induction false} ParseWritten(v: Key)
    ensures ParseI32(Written(v)) == Some(v)
  {
    var sign := if v < 0 then "-" else "";
    assert Zeros(0) == [];
    assert SignFits(sign, v) && Written(v) == sign + Zeros(0) + Decimal(Magnitude(v));
    ParseI32Iff(Written(v), v);
  }

  /** A text reads as nothing when no digits follow its sign, something else does, or the value it writes overflows. */
  lemma {:induction false} NoIntegerIff(s: string)
    ensures ParseI32(s).None? <==>
              || Unsigned(s) == []
              || (exists i :: 0 <= i < |Unsigned(s)| && !IsDigit(Unsigned(s)[i]))
              || exists v :: WritesInt(s, v) && !(KEY_MIN <= v < KEY_END)
  {
    hide ParseDigits, WritesInt;
    NoDigitsIff(Unsigned(s));
    if ParseDigits(Unsigned(s)).Some? {
      WritesIff(s, SignedAs(s, ParseDigits(Unsigned(s)).value));
    }
    if v :| WritesInt(s, v) && !(KEY_MIN <= v < KEY_END) {
      WritesIff(s, v);
    }
  }
}
