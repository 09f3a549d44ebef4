/** Decimal notation as Python's `str(int)` writes it and the JSON integer token reads it. */
module Decimal {
  import opened Texts

  predicate IsDigit(c: int) {
    48 <= c <= 57
  }

  predicate AllDigits(t: Text) {
    forall i :: 0 <= i < |t| ==> IsDigit(t[i])
  }

  /** No leading zero, except the number zero itself. */
  predicate IsNumeral(t: Text) {
    t != [] && AllDigits(t) && (|t| > 1 ==> t[0] != 48)
  }

  function Digits(n: nat): (d: Printed)
    ensures d != []
  {
    if n < 10 then [48 + n] else Digits(n / 10) + [48 + n % 10]
  }

  function Value(t: Text): (n: nat)
    requires AllDigits(t)
  {
    if t == [] then 0 else 10 * Value(t[..|t| - 1]) + (t[|t| - 1] - 48)
  }

  lemma {:induction false} DigitsRoundTrip(n: nat)
    ensures IsNumeral(Digits(n)) && Value(Digits(n)) == n
    ensures n > 0 ==> Digits(n)[0] != 48
  {
    if n >= 10 {
      DigitsRoundTrip(n / 10);
      assert Digits(n)[..|Digits(n)| - 1] == Digits(n / 10);
    } else {
      assert Digits(n)[..0] == [];
    }
  }

  lemma {:induction false} ValueBound(t: Text)
    requires IsNumeral(t) && |t| > 1
    ensures Value(t) >= 10
  {
    var q := t[..|t| - 1];
    if |q| == 1 {
      assert Value(q[..0]) == 0;
    } else {
      ValueBound(q);
    }
  }

  /** The converse: a numeral is the decimal notation of its value. */
  lemma {:induction false} NumeralRoundTrip(t: Text)
    requires IsNumeral(t)
    ensures Digits(Value(t)) == t
  {
    var q := t[..|t| - 1];
    assert t == q + [t[|t| - 1]];
    if |t| == 1 {
      assert q == [];
    } else {
      NumeralRoundTrip(q);
      ValueBound(t);
    }
  }

  lemma FirstIsDigit(n: nat)
    ensures IsDigit(Digits(n)[0])
  {
    DigitsRoundTrip(n);
  }

  lemma DigitsInjective(m: nat, n: nat)
    requires Digits(m) == Digits(n)
    ensures m == n
  {
    DigitsRoundTrip(m);
    DigitsRoundTrip(n);
  }

  /** Length of the maximal run of digits at the front. */
  function DigitSpan(t: Text): (k: nat)
    ensures k <= |t| && AllDigits(t[..k])
    ensures k == |t| || !IsDigit(t[k])
  {
    if t == [] || !IsDigit(t[0]) then 0
    else
      var k := 1 + DigitSpan(t[1..]);
      assert t[..k] == [t[0]] + t[1..][..k - 1];
      k
  }

  lemma {:induction false} SpanStopsAt(d: Text, rest: Text)
    requires AllDigits(d)
    requires rest == [] || !IsDigit(rest[0])
    ensures DigitSpan(d + rest) == |d|
  {
    if d == [] {
      assert d + rest == rest;
    } else {
      assert (d + rest)[1..] == d[1..] + rest;
      SpanStopsAt(d[1..], rest);
    }
  }
}
