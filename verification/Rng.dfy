/** Exact bounded integers and rational Bernoulli draws from 64-bit words, and the validation of their transcripts. */
module Rng {
  import opened Wrappers
  import opened Texts
  import opened Decimal

  const TWO_POW_64: int := 0x1_0000_0000_0000_0000
  const RETRY_CAP: nat := 8

  type Word = w: int | 0 <= w < TWO_POW_64
  type Bound = n: int | 1 <= n <= TWO_POW_64 witness 1

  function Limit(n: Bound): int {
    TWO_POW_64 - TWO_POW_64 % n
  }

  // ---- the acceptance limit ----

  lemma MultipleBelow(n: int, q: int, r: int, k: int)
    requires n >= 1 && 0 <= r < n && k * n <= q * n + r
    ensures k <= q
  {
    if k >= q + 1 {
      MulMonotone(q + 1, k, n);
    }
  }

  lemma MulMonotone(a: int, b: int, n: int)
    requires a <= b && n >= 0
    ensures a * n <= b * n
  {
    assert (b - a) * n >= 0;
  }

  lemma LargestMultiple(t: int, n: int, q: int, r: int)
    requires 1 <= n <= t && t == q * n + r && 0 <= r < n
    ensures q >= 1 && q * n >= n && 2 * r < t
    ensures forall k: int :: k * n <= t ==> k * n <= q * n
  {
    MultipleBelow(n, q, r, 1);
    MulMonotone(1, q, n);
    forall k: int | k * n <= t
      ensures k * n <= q * n
    {
      MultipleBelow(n, q, r, k);
      MulMonotone(k, q, n);
    }
  }

  /** The limit is the largest multiple of n not above 2^64, and fewer than half of all words are rejected. */
  lemma LimitIsBest(n: Bound)
    ensures 0 < Limit(n) <= TWO_POW_64 && Limit(n) % n == 0 && Limit(n) == (TWO_POW_64 / n) * n
    ensures forall k: int :: k * n <= TWO_POW_64 ==> k * n <= Limit(n)
    ensures 2 * (TWO_POW_64 - Limit(n)) < TWO_POW_64
  {
    var t := TWO_POW_64;
    var q, r := t / n, t % n;
    LargestMultiple(t, n, q, r);
    ModuloOfMultiple(q, n);
  }

  lemma ModuloOfMultiple(q: int, n: int)
    requires n >= 1
    ensures (q * n) % n == 0
  {
    DivisionUnique(q * n, n, q, 0);
  }

  lemma DivisionUnique(a: int, n: int, q: int, r: int)
    requires n >= 1 && 0 <= r < n && a == q * n + r
    ensures a / n == q && a % n == r
  {
    var p, s := a / n, a % n;
    assert a == p * n + s;
    MultipleBelow(n, q, r, p);
    MultipleBelow(n, p, s, q);
  }

  // ---- counting accepted words ----

  /** The words below `k * n` that reduce to r. */
  function WithResidue(n: Bound, r: int, k: nat): set<int> {
    set w | 0 <= w < k * n && w % n == r
  }

  /** Among the n words from `m` on, m a multiple of n, exactly `m + r` reduces to r. */
  lemma OneOfEach(n: Bound, r: int, k: nat, m: int, w: int)
    requires 0 <= r < n && k >= 1 && m == (k - 1) * n
    ensures k * n == m + n && m >= 0
    ensures m <= w < m + n ==> (w % n == r <==> w == m + r)
  {
    MulMonotone(0, k - 1, n);
    Distribute(k - 1, n);
    if m <= w < m + n {
      DivisionUnique(w, n, k - 1, w - m);
    }
  }

  lemma {:induction false} ResidueCount(n: Bound, r: int, k: nat)
    requires 0 <= r < n
    ensures |WithResidue(n, r, k)| == k
  {
    if k > 0 {
      var less := WithResidue(n, r, k - 1);
      var m := (k - 1) * n;
      forall w
        ensures w in WithResidue(n, r, k) <==> w in less || w == m + r
      {
        OneOfEach(n, r, k, m, w);
        OneOfEach(n, r, k, m, m + r);
      }
      assert WithResidue(n, r, k) == less + {m + r};
      ResidueCount(n, r, k - 1);
    } else {
      assert WithResidue(n, r, 0) == {};
    }
  }

  function AcceptedWith(n: Bound, r: int): set<int> {
    set w: Word | w < Limit(n) && w % n == r
  }

  /** Rejection makes the draw exactly uniform: every residue has the same number of accepted words. */
  lemma EveryResidueEquallyOften(n: Bound, r: int)
    requires 0 <= r < n
    ensures |AcceptedWith(n, r)| == Limit(n) / n
  {
    var q := TWO_POW_64 / n;
    LimitIsBest(n);
    DivisionUnique(Limit(n), n, q, 0);
    ResidueCount(n, r, q);
    assert AcceptedWith(n, r) == WithResidue(n, r, q);
  }

  function TrueWords(q: Bound, p: int): set<int> {
    set w: Word | w < Limit(q) && w % q < p
  }

  lemma OneMoreResidue(q: Bound, p: int)
    requires 0 < p <= q
    ensures TrueWords(q, p) == TrueWords(q, p - 1) + AcceptedWith(q, p - 1)
    ensures TrueWords(q, p - 1) !! AcceptedWith(q, p - 1)
  {
    hide Limit;
  }

  /** The Bernoulli rule says true on exactly p of every q accepted words. */
  lemma {:induction false} BernoulliCount(q: Bound, p: int)
    requires 0 <= p <= q
    ensures |TrueWords(q, p)| == p * (Limit(q) / q)
    decreases p
  {
    if p > 0 {
      OneMoreResidue(q, p);
      hide Limit, TrueWords, AcceptedWith;
      BernoulliCount(q, p - 1);
      EveryResidueEquallyOften(q, p - 1);
      Distribute(p - 1, Limit(q) / q);
    } else {
      NeverTrue(q);
    }
  }

  lemma Distribute(a: int, m: int)
    ensures (a + 1) * m == a * m + m
  {
  }

  lemma NeverTrue(q: Bound)
    ensures TrueWords(q, 0) == {}
  {
  }

  // ---- the capped rejection loop ----

  /** One stream of words per attempt; the words consumed, and the accepted one reduced, if any was accepted. */
  datatype Draw = Draw(words: seq<Word>, value: Option<int>)

  function DrawFrom(word: nat -> Word, n: Bound, attempt: nat): Draw
    requires attempt <= RETRY_CAP
    decreases RETRY_CAP - attempt
  {
    if attempt == RETRY_CAP then Draw([], None)
    else if word(attempt) < Limit(n) then Draw([word(attempt)], Some(word(attempt) % n))
    else
      var rest := DrawFrom(word, n, attempt + 1);
      Draw([word(attempt)] + rest.words, rest.value)
  }

  /** The run, given what was consumed before this attempt. */
  function After(words: seq<Word>, word: nat -> Word, n: Bound, attempt: nat): Draw
    requires attempt <= RETRY_CAP
  {
    Draw(words + DrawFrom(word, n, attempt).words, DrawFrom(word, n, attempt).value)
  }

  lemma OneAttempt(words: seq<Word>, word: nat -> Word, n: Bound, attempt: nat)
    requires attempt < RETRY_CAP
    ensures After(words, word, n, attempt) ==
            if word(attempt) < Limit(n) then Draw(words + [word(attempt)], Some(word(attempt) % n))
            else After(words + [word(attempt)], word, n, attempt + 1)
  {
    hide Limit;
    var rest := DrawFrom(word, n, attempt + 1).words;
    assert words + ([word(attempt)] + rest) == (words + [word(attempt)]) + rest;
  }

  lemma FirstAndLastAttempt(words: seq<Word>, word: nat -> Word, n: Bound)
    ensures After([], word, n, 0) == DrawFrom(word, n, 0) && After(words, word, n, RETRY_CAP) == Draw(words, None)
  {
    assert [] + DrawFrom(word, n, 0).words == DrawFrom(word, n, 0).words;
  }

  /** At most eight words, all but the last rejected; the accepted one reduced. */
  method UniformBounded(word: nat -> Word, n: Bound) returns (d: Draw)
    ensures d == DrawFrom(word, n, 0) && HasShape(d, word, n, 0)
  {
    hide Limit, After, DrawFrom, HasShape;
    DrawShape(word, n, 0);
    var limit := Limit(n);
    var words: seq<Word> := [];
    var attempt := 0;
    FirstAndLastAttempt([], word, n);
    while attempt < RETRY_CAP
      invariant attempt <= RETRY_CAP && After(words, word, n, attempt) == DrawFrom(word, n, 0)
    {
      var x := word(attempt);
      OneAttempt(words, word, n, attempt);
      words := words + [x];
      if x < limit {
        return Draw(words, Some(x % n));
      }
      attempt := attempt + 1;
    }
    FirstAndLastAttempt(words, word, n);
    return Draw(words, None);
  }

  /** What a finished run looks like from its words alone. */
  ghost predicate HasShape(d: Draw, word: nat -> Word, n: Bound, attempt: nat)
    requires attempt <= RETRY_CAP
  {
    && |d.words| <= RETRY_CAP - attempt
    && (forall i :: 0 <= i < |d.words| ==> d.words[i] == word(attempt + i))
    && (forall i :: 0 <= i < |d.words| - 1 ==> d.words[i] >= Limit(n))
    && (d.value.None? ==> |d.words| == RETRY_CAP - attempt && forall i :: 0 <= i < |d.words| ==> d.words[i] >= Limit(n))
    && (d.value.Some? ==> d.words != [] && d.words[|d.words| - 1] < Limit(n)
                          && d.value.value == d.words[|d.words| - 1] % n)
  }

  lemma RejectedShape(rest: Draw, word: nat -> Word, n: Bound, attempt: nat)
    requires attempt < RETRY_CAP && HasShape(rest, word, n, attempt + 1) && word(attempt) >= Limit(n)
    requires rest.words == [] ==> rest.value.None?
    ensures HasShape(Draw([word(attempt)] + rest.words, rest.value), word, n, attempt)
  {
    hide Limit;
    var words := [word(attempt)] + rest.words;
    forall i | 0 <= i < |words|
      ensures words[i] == word(attempt + i)
    {
      if i > 0 {
        assert words[i] == rest.words[i - 1];
      }
    }
  }

  lemma {:induction false} DrawShape(word: nat -> Word, n: Bound, attempt: nat)
    requires attempt <= RETRY_CAP
    ensures HasShape(DrawFrom(word, n, attempt), word, n, attempt)
    decreases RETRY_CAP - attempt
  {
    if attempt < RETRY_CAP && word(attempt) >= Limit(n) {
      DrawShape(word, n, attempt + 1);
      RejectedShape(DrawFrom(word, n, attempt + 1), word, n, attempt);
    }
  }

  // ---- transcripts ----

  /** The decimal digits the interpreter knows, in any script: what `str.isdigit` accepts and `int` can read. */
  type DigitTable = CodePoint -> Option<nat>

  ghost predicate IsTable(d: DigitTable) {
    && (forall c: CodePoint :: d(c).Some? ==> d(c).value <= 9)
    && (forall c: CodePoint :: c < 0x80 ==> d(c) == if IsDigit(c) then Some(c - 48) else None)
  }

  predicate DigitsOnly(d: DigitTable, t: Text) {
    forall i :: 0 <= i < |t| ==> d(t[i]).Some?
  }

  /** Python's `int(t)`. */
  function Number(d: DigitTable, t: Text): nat
    requires DigitsOnly(d, t)
  {
    if t == [] then 0 else 10 * Number(d, t[..|t| - 1]) + d(t[|t| - 1]).value
  }

  /** `_rng_uint64_str` */
  function ParseWord(d: DigitTable, t: Text, maximum: int): Option<nat> {
    if t == [] || (|t| > 1 && t[0] == 48) || !DigitsOnly(d, t) || Number(d, t) > maximum then None
    else Some(Number(d, t))
  }

  lemma {:induction false} AsciiNumber(d: DigitTable, t: Text)
    requires IsTable(d) && AllDigits(t)
    ensures DigitsOnly(d, t) && Number(d, t) == Value(t)
  {
    if t != [] {
      AsciiNumber(d, t[..|t| - 1]);
    }
  }

  /** Among the accepted spellings of a number the canonical one is the one in ASCII. */
  lemma CanonicalWordIff(d: DigitTable, t: Text, maximum: int)
    requires IsTable(d) && ParseWord(d, t, maximum).Some?
    ensures t == Digits(ParseWord(d, t, maximum).value) <==> Ascii(t)
  {
    var n := ParseWord(d, t, maximum).value;
    DigitsRoundTrip(n);
    if Ascii(t) {
      forall i | 0 <= i < |t|
        ensures IsDigit(t[i])
      {
        assert t[i] < 0x80 && d(t[i]).Some?;
      }
      AsciiNumber(d, t);
      NumeralRoundTrip(t);
    }
  }

  const ARABIC_THREE: CodePoint := 0x663

  /** The string that is to be canonical need not be: three has two accepted spellings. */
  lemma TwoSpellings(d: DigitTable)
    requires IsTable(d) && d(ARABIC_THREE) == Some(3)
    ensures ParseWord(d, [ARABIC_THREE], TWO_POW_64 - 1) == ParseWord(d, Digits(3), TWO_POW_64 - 1) == Some(3)
    ensures [ARABIC_THREE] != Digits(3)
  {
    assert Number(d, [ARABIC_THREE][..0]) == 0 && Number(d, [51][..0]) == 0;
  }

  predicate AllParse(d: DigitTable, words: seq<Text>) {
    forall i :: 0 <= i < |words| ==> ParseWord(d, words[i], TWO_POW_64 - 1).Some?
  }

  function Parsed(d: DigitTable, words: seq<Text>): (r: seq<Word>)
    requires AllParse(d, words)
    ensures |r| == |words| && forall i :: 0 <= i < |r| ==> r[i] == Number(d, words[i])
  {
    seq(|words|, i requires 0 <= i < |words| => Number(d, words[i]) as Word)
  }

  /** `_rng_accepted_words`: at most eight words, all rejected but the last. */
  method CheckAcceptedWords(d: DigitTable, words: seq<Text>, n: Bound) returns (r: Option<seq<Word>>)
    ensures r.Some? <==>
            && 0 < |words| <= RETRY_CAP && AllParse(d, words)
            && (forall i :: 0 <= i < |words| - 1 ==> Parsed(d, words)[i] >= Limit(n))
            && Parsed(d, words)[|words| - 1] < Limit(n)
    ensures r.Some? ==> r.value == Parsed(d, words)
  {
    if words == [] || |words| > RETRY_CAP {
      return None;
    }
    var limit := Limit(n);
    var parsed: seq<Word> := [];
    for i := 0 to |words|
      invariant |parsed| == i
      invariant forall j :: 0 <= j < i ==> ParseWord(d, words[j], TWO_POW_64 - 1) == Some(parsed[j])
    {
      var w := ParseWord(d, words[i], TWO_POW_64 - 1);
      if w.None? {
        return None;
      }
      parsed := parsed + [w.value];
    }
    assert parsed == Parsed(d, words);
    for i := 0 to |parsed| - 1
      invariant forall j :: 0 <= j < i ==> parsed[j] >= limit
    {
      if parsed[i] < limit {
        return None;
      }
    }
    if parsed[|parsed| - 1] >= limit {
      return None;
    }
    return Some(parsed);
  }

  /** `_rng_bounded_fixture` on its numeric fields. */
  method CheckBounded(d: DigitTable, n: Text, limit: Text, words: seq<Text>, accepted: int, result: Text) returns (ok: bool)
    ensures ok <==> BoundedOk(d, n, limit, words, accepted, result)
  {
    var bound := ParseWord(d, n, TWO_POW_64);
    if bound.None? || bound.value < 1 {
      return false;
    }
    var parsed := CheckAcceptedWords(d, words, bound.value);
    if parsed.None? || ParseWord(d, limit, TWO_POW_64) != Some(Limit(bound.value)) {
      if parsed.Some? {
        WordsAreARun(d, words, bound.value);
      } else if AllParse(d, words) {
        NoRun(d, words, bound.value);
      }
      return false;
    }
    WordsAreARun(d, words, bound.value);
    if accepted < 0 || accepted > RETRY_CAP - 1 || accepted != |parsed.value| - 1 {
      return false;
    }
    return ParseWord(d, result, TWO_POW_64 - 1) == Some(parsed.value[|parsed.value| - 1] % bound.value);
  }

  /** The fixture is the record of a run of the capped rejection loop that accepted a word. */
  ghost predicate BoundedOk(d: DigitTable, n: Text, limit: Text, words: seq<Text>, accepted: int, result: Text) {
    && ParseWord(d, n, TWO_POW_64).Some? && ParseWord(d, n, TWO_POW_64).value >= 1 && AllParse(d, words)
    && var bound: Bound := ParseWord(d, n, TWO_POW_64).value;
       && ParseWord(d, limit, TWO_POW_64) == Some(Limit(bound))
       && accepted == |words| - 1
       && exists word: nat -> Word :: DrawFrom(word, bound, 0).words == Parsed(d, words)
                                      && DrawFrom(word, bound, 0).value.Some?
                                      && ParseWord(d, result, TWO_POW_64 - 1) == DrawFrom(word, bound, 0).value
  }

  /** The words, then zeros. */
  function Replay(words: seq<Word>): nat -> Word {
    (i: nat) => if i < |words| then words[i] else 0
  }

  lemma {:induction false} ReplayDraws(words: seq<Word>, n: Bound, attempt: nat)
    requires attempt < |words| <= RETRY_CAP
    requires forall i :: 0 <= i < |words| - 1 ==> words[i] >= Limit(n)
    requires words[|words| - 1] < Limit(n)
    ensures DrawFrom(Replay(words), n, attempt) == Draw(words[attempt..], Some(words[|words| - 1] % n))
    decreases |words| - attempt
  {
    hide Limit;
    if attempt < |words| - 1 {
      ReplayDraws(words, n, attempt + 1);
      assert [words[attempt]] + words[attempt + 1..] == words[attempt..];
    } else {
      assert words[attempt..] == [words[attempt]];
    }
  }

  lemma WordsAreARun(d: DigitTable, words: seq<Text>, n: Bound)
    requires 0 < |words| <= RETRY_CAP && AllParse(d, words)
    requires forall i :: 0 <= i < |words| - 1 ==> Parsed(d, words)[i] >= Limit(n)
    requires Parsed(d, words)[|words| - 1] < Limit(n)
    ensures DrawFrom(Replay(Parsed(d, words)), n, 0) == Draw(Parsed(d, words), Some(Parsed(d, words)[|words| - 1] % n))
    ensures forall word: nat -> Word :: DrawFrom(word, n, 0).words == Parsed(d, words) && DrawFrom(word, n, 0).value.Some? ==>
                                        DrawFrom(word, n, 0).value == Some(Parsed(d, words)[|words| - 1] % n)
  {
    var w := Parsed(d, words);
    ReplayDraws(w, n, 0);
    assert w[0..] == w;
    forall word: nat -> Word | DrawFrom(word, n, 0).words == w && DrawFrom(word, n, 0).value.Some?
      ensures DrawFrom(word, n, 0).value == Some(w[|w| - 1] % n)
    {
      DrawShape(word, n, 0);
    }
  }

  lemma NoRun(d: DigitTable, words: seq<Text>, n: Bound)
    requires AllParse(d, words)
    requires !(0 < |words| <= RETRY_CAP && (forall i :: 0 <= i < |words| - 1 ==> Parsed(d, words)[i] >= Limit(n))
               && Parsed(d, words)[|words| - 1] < Limit(n))
    ensures forall word: nat -> Word :: !(DrawFrom(word, n, 0).words == Parsed(d, words) && DrawFrom(word, n, 0).value.Some?)
  {
    forall word: nat -> Word
      ensures !(DrawFrom(word, n, 0).words == Parsed(d, words) && DrawFrom(word, n, 0).value.Some?)
    {
      DrawShape(word, n, 0);
    }
  }

  const RESTART_DECISION := Lit("RESTART_DECISION")
  const LESS_THAN := Lit(" < ")

  /** The fixture is the record of a Bernoulli draw with probability p/q that some stream of words makes. */
  ghost predicate BernoulliOk(d: DigitTable, purpose: Text, p: int, q: int, words: seq<Text>, uniform: Text, comparison: Text, result: bool) {
    && purpose == RESTART_DECISION && 1 <= q <= TWO_POW_64 / 2 && 0 <= p <= q && AllParse(d, words)
    && exists word: nat -> Word ::
         && DrawFrom(word, q, 0).words == Parsed(d, words) && DrawFrom(word, q, 0).value.Some?
         && var u := DrawFrom(word, q, 0).value.value;
            u >= 0 && ParseWord(d, uniform, TWO_POW_64 - 1) == Some(u)
            && result == (u < p) && comparison == Digits(u) + LESS_THAN + Digits(p)
  }

  /** `_rng_bernoulli_fixture` on its draw */
  method CheckBernoulli(d: DigitTable, purpose: Text, p: int, q: int, words: seq<Text>, uniform: Text, comparison: Text, result: bool) returns (ok: bool)
    ensures ok <==> BernoulliOk(d, purpose, p, q, words, uniform, comparison, result)
  {
    if purpose != RESTART_DECISION || q < 1 || q > TWO_POW_64 / 2 || p < 0 || p > q {
      return false;
    }
    var parsed := CheckAcceptedWords(d, words, q);
    if parsed.None? {
      if AllParse(d, words) {
        NoRun(d, words, q);
      }
      return false;
    }
    WordsAreARun(d, words, q);
    var u := parsed.value[|parsed.value| - 1] % q;
    return ParseWord(d, uniform, TWO_POW_64 - 1) == Some(u) && result == (u < p)
           && comparison == Digits(u) + LESS_THAN + Digits(p);
  }

  lemma DigitsParse(d: DigitTable, n: nat, maximum: int)
    requires IsTable(d) && n <= maximum
    ensures ParseWord(d, Digits(n), maximum) == Some(n)
  {
    DigitsRoundTrip(n);
    AsciiNumber(d, Digits(n));
  }

  /** The transcript of a draw that took one word says true. */
  ghost predicate SaysTrue(d: DigitTable, p: nat, q: Bound, w: Word) {
    BernoulliOk(d, RESTART_DECISION, p, q, [Digits(w)], Digits(w % q), Digits(w % q) + LESS_THAN + Digits(p), true)
  }

  lemma OneWordDraws(word: nat -> Word, q: Bound, w: Word)
    requires DrawFrom(word, q, 0).words == [w] && DrawFrom(word, q, 0).value.Some?
    ensures w < Limit(q) && DrawFrom(word, q, 0).value == Some(w % q)
  {
    DrawShape(word, q, 0);
  }

  lemma SaysTrueIff(d: DigitTable, p: nat, q: Bound, w: Word)
    requires IsTable(d) && q <= TWO_POW_64 / 2 && p <= q
    ensures SaysTrue(d, p, q, w) <==> w in TrueWords(q, p)
  {
    var words := [Digits(w)];
    DigitsParse(d, w, TWO_POW_64 - 1);
    DigitsParse(d, w % q, TWO_POW_64 - 1);
    hide ParseWord, Limit, DrawFrom, Digits;
    assert AllParse(d, words) && Parsed(d, words) == [w];
    if w in TrueWords(q, p) {
      ReplayDraws([w], q, 0);
      assert [w][0..] == [w];
    }
    if SaysTrue(d, p, q, w) {
      var word: nat -> Word :| DrawFrom(word, q, 0).words == Parsed(d, words) && DrawFrom(word, q, 0).value.Some?
                               && true == (DrawFrom(word, q, 0).value.value < p);
      OneWordDraws(word, q, w);
    }
  }

  /** Exactly p of every q accepted words make a transcript that says true. */
  lemma TrueTranscripts(d: DigitTable, p: nat, q: Bound)
    requires IsTable(d) && q <= TWO_POW_64 / 2 && p <= q
    ensures |set w: Word | w < TWO_POW_64 && SaysTrue(d, p, q, w)| == p * (Limit(q) / q)
  {
    BernoulliCount(q, p);
    forall w: Word {
      SaysTrueIff(d, p, q, w);
    }
    hide SaysTrue, Limit;
    assert (set w: Word | w < TWO_POW_64 && SaysTrue(d, p, q, w)) == TrueWords(q, p);
  }

  const RETRY_CAP_EXHAUSTED := Lit("H001_RNG_RETRY_CAP_EXHAUSTED")

  /** The fixture is the record of a run that used up its attempts. */
  ghost predicate ExhaustionOk(d: DigitTable, n: Text, limit: Text, words: seq<Text>, category: Text) {
    && ParseWord(d, n, TWO_POW_64).Some? && ParseWord(d, n, TWO_POW_64).value >= 1 && AllParse(d, words)
    && var bound: Bound := ParseWord(d, n, TWO_POW_64).value;
       && ParseWord(d, limit, TWO_POW_64) == Some(Limit(bound))
       && Exhausts(Parsed(d, words), bound) && category == RETRY_CAP_EXHAUSTED
  }

  ghost predicate Exhausts(words: seq<Word>, n: Bound) {
    exists word: nat -> Word :: DrawFrom(word, n, 0) == Draw(words, None)
  }

  lemma {:induction false} ReplayExhausts(words: seq<Word>, n: Bound, attempt: nat)
    requires attempt <= |words| == RETRY_CAP && forall i :: 0 <= i < |words| ==> words[i] >= Limit(n)
    ensures DrawFrom(Replay(words), n, attempt) == Draw(words[attempt..], None)
    decreases |words| - attempt
  {
    hide Limit;
    if attempt < |words| {
      ReplayExhausts(words, n, attempt + 1);
      assert [words[attempt]] + words[attempt + 1..] == words[attempt..];
    }
  }

  lemma ExhaustedIff(words: seq<Word>, n: Bound)
    ensures Exhausts(words, n) <==> |words| == RETRY_CAP && forall i :: 0 <= i < |words| ==> words[i] >= Limit(n)
  {
    forall word: nat -> Word
      ensures DrawFrom(word, n, 0) == Draw(words, None) ==>
                |words| == RETRY_CAP && forall i :: 0 <= i < |words| ==> words[i] >= Limit(n)
    {
      DrawShape(word, n, 0);
    }
    if |words| == RETRY_CAP && forall i :: 0 <= i < |words| ==> words[i] >= Limit(n) {
      ReplayExhausts(words, n, 0);
      assert words[0..] == words;
    }
  }

  /** The exhaustion fixture's checks */
  method CheckExhaustion(d: DigitTable, n: Text, limit: Text, words: seq<Text>, category: Text) returns (ok: bool)
    ensures ok <==> ExhaustionOk(d, n, limit, words, category)
  {
    hide Limit, Exhausts, Number;
    var bound := ParseWord(d, n, TWO_POW_64);
    if bound.None? || bound.value < 1 || ParseWord(d, limit, TWO_POW_64) != Some(Limit(bound.value)) {
      return false;
    }
    if AllParse(d, words) {
      ExhaustedIff(Parsed(d, words), bound.value);
    }
    if |words| != RETRY_CAP {
      return false;
    }
    for i := 0 to |words|
      invariant forall j :: 0 <= j < i ==>
                  ParseWord(d, words[j], TWO_POW_64 - 1).Some? && Number(d, words[j]) >= Limit(bound.value)
    {
      var w := ParseWord(d, words[i], TWO_POW_64 - 1);
      if w.None? || w.value < Limit(bound.value) {
        return false;
      }
    }
    return category == RETRY_CAP_EXHAUSTED;
  }
}
