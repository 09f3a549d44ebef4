/** Drawdown of an equity curve, and the K2 kill criterion over concatenated regimes. Returns are growth factors,
    the exponentials of the log returns: positive reals. */
module Drawdown {

  type Factor = f: real | f > 0.0 witness 1.0

  predicate Positive(e: seq<real>) {
    e != [] && forall i :: 0 <= i < |e| ==> e[i] > 0.0
  }

  /** A product, to be taken apart only where the proof needs it. */
  function Times(a: real, b: real): (r: real)
    ensures a > 0.0 && b > 0.0 ==> r > 0.0
  {
    a * b
  }

  /** Cumulative equity, starting at 1. */
  function Equity(factors: seq<Factor>): (e: seq<real>)
    ensures |e| == |factors| + 1 && e[0] == 1.0 && Positive(e)
  {
    if factors == [] then [1.0]
    else
      var n := |factors| - 1;
      var e := Equity(factors[..n]);
      e + [Times(e[n], factors[n])]
  }

  method ComputeEquity(factors: seq<Factor>) returns (equity: seq<real>)
    ensures equity == Equity(factors)
  {
    equity := [1.0];
    for i := 0 to |factors|
      invariant equity == Equity(factors[..i])
    {
      assert factors[..i + 1][..i] == factors[..i] && factors[..i + 1][i] == factors[i];
      equity := equity + [Times(equity[|equity| - 1], factors[i])];
    }
    assert factors[..|factors|] == factors;
  }

  /** The relative fall from a level to a later one. */
  function Fall(from: real, to: real): real
    requires from > 0.0
  {
    (from - to) / from
  }

  function Max(a: real, b: real): real {
    if b > a then b else a
  }

  function Peak(e: seq<real>): (p: real)
    requires Positive(e)
    ensures p > 0.0 && p in e && forall i :: 0 <= i < |e| ==> e[i] <= p
  {
    if |e| == 1 then e[0] else Max(Peak(e[..|e| - 1]), e[|e| - 1])
  }

  /** What the one pass computes: at each point the fall from the highest level so far. */
  function DrawdownOf(e: seq<real>): real
    requires Positive(e)
  {
    var n := |e| - 1;
    Max(if n == 0 then 0.0 else DrawdownOf(e[..n]), Fall(Peak(e), e[n]))
  }

  method MaxDrawdown(equity: seq<real>) returns (maxDd: real)
    requires Positive(equity)
    ensures maxDd == DrawdownOf(equity) && IsGreatestFall(equity, maxDd)
  {
    var peak := equity[0];
    maxDd := 0.0;
    for i := 0 to |equity|
      invariant i == 0 ==> peak == equity[0] && maxDd == 0.0
      invariant i > 0 ==> Positive(equity[..i]) && peak == Peak(equity[..i]) && maxDd == DrawdownOf(equity[..i])
    {
      var e := equity[i];
      assert i > 0 ==> equity[..i + 1][..i] == equity[..i];
      if e > peak {
        peak := e;
      }
      var dd := (peak - e) / peak;
      if dd > maxDd {
        maxDd := dd;
      }
    }
    assert equity[..|equity|] == equity;
    DrawdownIsGreatestFall(equity);
  }

  // ---- the greatest fall ----

  /** The fall over a pair of points in order of time. */
  ghost predicate IsGreatestFall(e: seq<real>, d: real)
    requires Positive(e)
  {
    && (forall i, j :: 0 <= i <= j < |e| ==> Fall(e[i], e[j]) <= d)
    && (exists i, j :: 0 <= i <= j < |e| && Fall(e[i], e[j]) == d)
  }

  lemma Cancel(a: real, b: real, p: real)
    requires p != 0.0 && a * p == b * p
    ensures a == b
  {
    assert (a - b) * p == 0.0;
  }

  lemma NonNegativeFactor(a: real, p: real)
    requires p > 0.0 && a * p >= 0.0
    ensures a >= 0.0
  {
  }

  lemma Product(a: real, b: real)
    requires a >= 0.0 && b >= 0.0
    ensures a * b >= 0.0
  {
  }

  lemma Distribute(a: real, b: real, c: real)
    ensures a * (b - c) == a * b - a * c && (b - c) * a == b * a - c * a
  {
  }

  lemma FallFromHigher(p: real, q: real, e: real)
    requires p >= q > 0.0 && e > 0.0
    ensures Fall(p, e) >= Fall(q, e)
  {
    var x, y := Fall(p, e), Fall(q, e);
    assert x * p == p - e && y * q == q - e;
    var u, v := e / p, e / q;
    assert u * p == e && v * q == e;
    Complement(x, u, p, e);
    Complement(y, v, q, e);
    Distribute(u, p, q);
    Product(u, p - q);
    Distribute(q, v, u);
    NonNegativeFactor(v - u, q);
  }

  lemma Complement(x: real, u: real, p: real, e: real)
    requires p > 0.0 && e > 0.0 && x * p == p - e && u * p == e
    ensures x == 1.0 - u && u >= 0.0
  {
    assert (1.0 - u) * p == p - u * p;
    Cancel(x, 1.0 - u, p);
    NonNegativeFactor(u, p);
  }

  /** The one-pass drawdown is the greatest relative fall over all ordered pairs. */
  lemma {:induction false} DrawdownIsGreatestFall(e: seq<real>)
    requires Positive(e)
    ensures IsGreatestFall(e, DrawdownOf(e))
  {
    var n := |e| - 1;
    if n == 0 {
      assert Fall(e[0], e[0]) == 0.0;
    } else {
      DrawdownIsGreatestFall(e[..n]);
      GreatestFallStep(e, DrawdownOf(e[..n]));
    }
  }

  lemma GreatestFallStep(e: seq<real>, d: real)
    requires Positive(e) && |e| > 1 && IsGreatestFall(e[..|e| - 1], d)
    ensures IsGreatestFall(e, Max(d, Fall(Peak(e), e[|e| - 1])))
  {
    hide Fall, Peak;
    var n := |e| - 1;
    var peak := Peak(e);
    var most := Max(d, Fall(peak, e[n]));
    forall i, j | 0 <= i <= j < |e|
      ensures Fall(e[i], e[j]) <= most
    {
      if j == n {
        FallFromHigher(peak, e[i], e[n]);
      } else {
        assert Fall(e[..n][i], e[..n][j]) <= d;
      }
    }
    if most == d {
      var i, j :| 0 <= i <= j < n && Fall(e[..n][i], e[..n][j]) == d;
      assert Fall(e[i], e[j]) == most;
    } else {
      var i :| 0 <= i < |e| && e[i] == peak;
      assert Fall(e[i], e[n]) == most;
    }
  }

  // ---- scaling and concatenation ----

  function Scale(c: Factor, e: seq<real>): seq<real> {
    seq(|e|, i requires 0 <= i < |e| => Times(c, e[i]))
  }

  lemma ScaledFall(c: Factor, p: real, e: real)
    requires p > 0.0
    ensures Times(c, p) > 0.0 && Fall(Times(c, p), Times(c, e)) == Fall(p, e)
  {
    var x, y := Fall(p, e), Fall(c * p, c * e);
    assert x * p == p - e && y * (c * p) == c * p - c * e;
    Distribute(c, p, e);
    Associate(x, c, p);
    Cancel(x, y, c * p);
  }

  lemma Associate(x: real, c: real, p: real)
    ensures x * (c * p) == c * (x * p) && Times(Times(x, c), p) == Times(x, Times(c, p))
  {
  }

  /** Drawdown does not depend on the starting capital. */
  lemma DrawdownScales(c: Factor, e: seq<real>)
    requires Positive(e)
    ensures Positive(Scale(c, e)) && DrawdownOf(Scale(c, e)) == DrawdownOf(e)
  {
    hide Fall, DrawdownOf, Times;
    var s := Scale(c, e);
    forall i | 0 <= i < |e|
      ensures s[i] > 0.0
    {
      ScaledFall(c, e[i], e[i]);
    }
    forall i, j | 0 <= i <= j < |e|
      ensures Fall(s[i], s[j]) == Fall(e[i], e[j])
    {
      ScaledFall(c, e[i], e[j]);
    }
    DrawdownIsGreatestFall(e);
    DrawdownIsGreatestFall(s);
    SameFallsSameGreatest(e, s, DrawdownOf(e), DrawdownOf(s));
  }

  lemma SameFallsSameGreatest(e: seq<real>, s: seq<real>, d: real, f: real)
    requires Positive(e) && Positive(s) && |e| == |s|
    requires forall i, j :: 0 <= i <= j < |e| ==> Fall(s[i], s[j]) == Fall(e[i], e[j])
    requires IsGreatestFall(e, d) && IsGreatestFall(s, f)
    ensures d == f
  {
    hide Fall;
  }

  function Final(factors: seq<Factor>): Factor {
    Equity(factors)[|factors|]
  }

  lemma FinalStep(factors: seq<Factor>)
    requires factors != []
    ensures Final(factors) == Times(Final(factors[..|factors| - 1]), factors[|factors| - 1])
  {
  }

  lemma {:induction false} EquityPrefix(a: seq<Factor>, b: seq<Factor>, i: nat)
    requires i <= |a|
    ensures Equity(a + b)[i] == Equity(a)[i]
  {
    if b == [] {
      assert a + b == a;
    } else {
      assert (a + b)[..|a + b| - 1] == a + b[..|b| - 1];
      EquityPrefix(a, b[..|b| - 1], i);
    }
  }

  lemma EquityIsFinal(factors: seq<Factor>, i: nat)
    requires i <= |factors|
    ensures Equity(factors)[i] == Final(factors[..i])
  {
    assert factors == factors[..i] + factors[i..];
    EquityPrefix(factors[..i], factors[i..], i);
  }

  lemma {:induction false} FinalOfConcatenation(a: seq<Factor>, b: seq<Factor>)
    ensures Final(a + b) == Times(Final(a), Final(b))
  {
    if b == [] {
      assert a + b == a;
    } else {
      var n := |b| - 1;
      assert (a + b)[..|a + b| - 1] == a + b[..n];
      FinalStep(a + b);
      FinalStep(b);
      hide Final, Times;
      FinalOfConcatenation(a, b[..n]);
      Associate(Final(a), Final(b[..n]), b[n]);
    }
  }

  lemma EquitySuffix(a: seq<Factor>, b: seq<Factor>, i: nat)
    requires i <= |b|
    ensures Equity(a + b)[|a| + i] == Times(Final(a), Equity(b)[i])
  {
    hide Final, Times, Equity;
    assert (a + b)[..|a| + i] == a + b[..i];
    EquityIsFinal(a + b, |a| + i);
    EquityIsFinal(b, i);
    FinalOfConcatenation(a, b[..i]);
  }

  lemma PartFallsLess(part: seq<real>, whole: seq<real>, at: nat)
    requires Positive(part) && Positive(whole) && at + |part| <= |whole|
    requires forall i :: 0 <= i < |part| ==> whole[at + i] == part[i]
    ensures DrawdownOf(part) <= DrawdownOf(whole)
  {
    DrawdownIsGreatestFall(part);
    DrawdownIsGreatestFall(whole);
    hide Fall, DrawdownOf;
    var i, j :| 0 <= i <= j < |part| && Fall(part[i], part[j]) == DrawdownOf(part);
    assert Fall(whole[at + i], whole[at + j]) == DrawdownOf(part);
  }

  /** On concatenated series the drawdown is at least that of each part. */
  lemma ConcatenationFallsMore(a: seq<Factor>, b: seq<Factor>)
    ensures DrawdownOf(Equity(a)) <= DrawdownOf(Equity(a + b))
    ensures DrawdownOf(Equity(b)) <= DrawdownOf(Equity(a + b))
  {
    hide DrawdownOf, Equity, Final, Times;
    var whole := Equity(a + b);
    forall i | 0 <= i <= |a|
      ensures whole[i] == Equity(a)[i]
    {
      EquityPrefix(a, b, i);
    }
    PartFallsLess(Equity(a), whole, 0);
    forall i | 0 <= i <= |b|
      ensures whole[|a| + i] == Scale(Final(a), Equity(b))[i]
    {
      EquitySuffix(a, b, i);
    }
    DrawdownScales(Final(a), Equity(b));
    PartFallsLess(Scale(Final(a), Equity(b)), whole, |a|);
  }

  // ---- K2 ----

  const K2_THRESHOLD: real := 0.35

  /** One split at one grid point: the low-vol series first, then the high-vol series. */
  datatype Split = Split(low: seq<Factor>, high: seq<Factor>)

  function AllDrawdown(s: Split): real {
    DrawdownOf(Equity(s.low + s.high))
  }

  /** `drawdown_max` of the aggregate */
  function DrawdownMax(splits: seq<Split>): real {
    if splits == [] then 0.0
    else if |splits| == 1 then AllDrawdown(splits[0])
    else Max(DrawdownMax(splits[..|splits| - 1]), AllDrawdown(splits[|splits| - 1]))
  }

  predicate K2Fires(splits: seq<Split>) {
    DrawdownMax(splits) > K2_THRESHOLD
  }

  lemma {:induction false} MaxCovers(splits: seq<Split>, s: Split)
    requires s in splits
    ensures AllDrawdown(s) <= DrawdownMax(splits)
  {
    if |splits| > 1 && s != splits[|splits| - 1] {
      assert s in splits[..|splits| - 1];
      MaxCovers(splits[..|splits| - 1], s);
    }
  }

  lemma {:induction false} MaxIsReached(splits: seq<Split>)
    requires splits != []
    ensures exists s :: s in splits && DrawdownMax(splits) == AllDrawdown(s)
  {
    if |splits| > 1 {
      MaxIsReached(splits[..|splits| - 1]);
      var s :| s in splits[..|splits| - 1] && DrawdownMax(splits[..|splits| - 1]) == AllDrawdown(s);
      assert s in splits && splits[|splits| - 1] in splits;
    } else {
      assert splits[0] in splits;
    }
  }

  /** The whole series of a split, low-vol regime first, falls by more than 35 percent from one point to a later one. */
  predicate FallsTooFar(s: Split, i: nat, j: nat) {
    i <= j <= |s.low + s.high| && Fall(Equity(s.low + s.high)[i], Equity(s.low + s.high)[j]) > 0.35
  }

  /** K2 fires exactly when the whole series of some split falls that far. */
  lemma K2FiresIff(splits: seq<Split>)
    ensures K2Fires(splits) <==> exists s, i: nat, j: nat :: s in splits && FallsTooFar(s, i, j)
  {
    hide Fall, Equity, DrawdownOf;
    if K2Fires(splits) {
      MaxIsReached(splits);
      var s :| s in splits && DrawdownMax(splits) == AllDrawdown(s);
      var e := Equity(s.low + s.high);
      DrawdownIsGreatestFall(e);
      var i, j :| 0 <= i <= j < |e| && Fall(e[i], e[j]) == DrawdownOf(e);
      assert FallsTooFar(s, i, j);
    }
    if s, i: nat, j: nat :| s in splits && FallsTooFar(s, i, j) {
      MaxCovers(splits, s);
      var e := Equity(s.low + s.high);
      DrawdownIsGreatestFall(e);
      assert Fall(e[i], e[j]) <= DrawdownOf(e);
    }
  }

  /** While K2 is silent, no split's low-vol or high-vol series falls by more than 35 percent. */
  lemma SilentK2BoundsRegimes(splits: seq<Split>, s: Split)
    requires !K2Fires(splits) && s in splits
    ensures DrawdownOf(Equity(s.low)) <= K2_THRESHOLD && DrawdownOf(Equity(s.high)) <= K2_THRESHOLD
  {
    MaxCovers(splits, s);
    ConcatenationFallsMore(s.low, s.high);
  }

  /** K2 says more than the two regimes do: two falls of 30 percent, one after the other, make it fire. */
  lemma RegimesDoNotBoundK2()
    ensures var s := Split([0.7], [0.7]);
            DrawdownOf(Equity(s.low)) <= K2_THRESHOLD && DrawdownOf(Equity(s.high)) <= K2_THRESHOLD && K2Fires([s])
  {
    var part, whole: seq<Factor> := [0.7], [0.7, 0.7];
    assert part[..0] == [] && whole[..1] == part && [0.7] + [0.7] == whole;
    assert Equity([]) == [1.0];
    assert Equity(part) == [1.0, 0.7];
    assert Equity(whole) == [1.0, 0.7, 0.49];
    DrawdownIsGreatestFall(Equity(whole));
    assert Fall(Equity(whole)[0], Equity(whole)[2]) == 0.51;
    DrawdownIsGreatestFall(Equity(part));
  }
}
