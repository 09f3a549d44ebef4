/** Addresses of logical draws: the packed counter and the seed payload string. */
module Coordinates {
  import opened Wrappers
  import opened Texts
  import opened Decimal
  import Ledger

  datatype DrawPurpose = InitialIndex | RestartDecision | RestartIndex

  function Code(p: DrawPurpose): (c: bv64)
  {
    match p
    case InitialIndex => 1
    case RestartDecision => 2
    case RestartIndex => 3
  }

  type Position = p: bv64 | p < 2193
  type Attempt = a: bv64 | a < 8

  /** `attempt | (purpose << 8) | (position << 16)` */
  function PackCounter(purpose: DrawPurpose, position: Position, attempt: Attempt): bv64 {
    attempt | (Code(purpose) << 8) | (position << 16)
  }

  lemma PackedFields(code: bv64, position: Position, attempt: Attempt)
    requires code < 4
    ensures var w := attempt | (code << 8) | (position << 16);
            w & 0xff == attempt && (w >> 8) & 0xff == code && w >> 16 == position
  {
  }

  /** Within the governed bounds the packed counter determines its fields. */
  lemma CounterInjective(p: DrawPurpose, q: DrawPurpose, i: Position, j: Position, a: Attempt, b: Attempt)
    requires PackCounter(p, i, a) == PackCounter(q, j, b)
    ensures p == q && i == j && a == b
  {
    PackedFields(Code(p), i, a);
    PackedFields(Code(q), j, b);
  }

  /** The number it is: the fields do not overlap, so the counter is their weighted sum. */
  lemma CounterValue(purpose: DrawPurpose, position: Position, attempt: Attempt)
    ensures PackCounter(purpose, position, attempt)
            == attempt + (if purpose.InitialIndex? then 256 else if purpose.RestartDecision? then 512 else 768)
               + 65536 * position
  {
    PackedSum(Code(purpose), position, attempt);
  }

  lemma PackedSum(code: bv64, position: Position, attempt: Attempt)
    requires code < 4
    ensures attempt | (code << 8) | (position << 16) == attempt + 256 * code + 65536 * position
  {
  }

  /** Outside them it does not: the ninth bit of an attempt is a purpose bit. */
  lemma CounterNeedsBounds(position: Position)
    ensures 0x100 | (2 << 8) | (position << 16) == (0 as bv64) | (3 << 8) | (position << 16)
  {
  }

  // ---- the seed payload ----

  const SEED_DOMAIN :=
    Lit("h001-null-calibration/h001-synthetic-null-calibration-spec-freeze-candidate-v001/synthetic-only")
  const COLON := 58
  const OUTER := Lit(":outer:")
  const BOOTSTRAP := Lit(":bootstrap:")

  datatype Seed = Seed(dgp: Text, outer: nat, bootstrap: nat)

  function Payload(s: Seed): Text {
    SEED_DOMAIN + [COLON] + s.dgp + OUTER + Digits(s.outer) + BOOTSTRAP + Digits(s.bootstrap)
  }

  /** The number at the end of a text: its longest run of trailing digits. */
  function TrailingDigits(t: Text): (k: nat)
    ensures k <= |t| && AllDigits(t[|t| - k..])
  {
    if t == [] || !IsDigit(t[|t| - 1]) then 0
    else
      var k := 1 + TrailingDigits(t[..|t| - 1]);
      assert t[|t| - k..] == t[..|t| - 1][|t| - k..] + [t[|t| - 1]];
      k
  }

  lemma {:induction false} TrailingAfter(before: Text, digits: Text)
    requires AllDigits(digits) && before != [] && !IsDigit(before[|before| - 1])
    ensures TrailingDigits(before + digits) == |digits|
  {
    if digits != [] {
      assert (before + digits)[..|before + digits| - 1] == before + digits[..|digits| - 1];
      TrailingAfter(before, digits[..|digits| - 1]);
    } else {
      assert before + digits == before;
    }
  }

  /** Split `before + mark + digits` into its first part and the number, from the right. */
  function TakeNumber(t: Text, mark: Text): Option<(Text, nat)> {
    var k := TrailingDigits(t);
    var rest := t[..|t| - k];
    if !IsNumeral(t[|t| - k..]) || |rest| < |mark| || rest[|rest| - |mark|..] != mark then None
    else Some((rest[..|rest| - |mark|], Value(t[|t| - k..])))
  }

  function DecodePayload(t: Text): Option<Seed> {
    var (front, bootstrap) :- TakeNumber(t, BOOTSTRAP);
    var (head, outer) :- TakeNumber(front, OUTER);
    if SEED_DOMAIN + [COLON] <= head then Some(Seed(head[|SEED_DOMAIN| + 1..], outer, bootstrap)) else None
  }

  lemma NumberTaken(before: Text, mark: Text, n: nat)
    requires mark != [] && !IsDigit(mark[|mark| - 1])
    ensures TakeNumber(before + mark + Digits(n), mark) == Some((before, n))
  {
    hide IsNumeral, Value, TrailingDigits, Digits;
    var t, rest := before + mark + Digits(n), before + mark;
    DigitsRoundTrip(n);
    NumeralDigits(Digits(n));
    TrailingAfter(rest, Digits(n));
    assert t[|rest|..] == Digits(n) && t[..|rest|] == rest;
    assert rest[|before|..] == mark && rest[..|before|] == before;
  }

  lemma NumeralDigits(t: Text)
    requires IsNumeral(t)
    ensures AllDigits(t)
  {
  }

  lemma TakenNumber(t: Text, mark: Text)
    requires TakeNumber(t, mark).Some?
    ensures var (before, n) := TakeNumber(t, mark).value; t == before + mark + Digits(n)
  {
    hide IsNumeral, Value, TrailingDigits, Digits;
    var k := TrailingDigits(t);
    var rest := t[..|t| - k];
    NumeralRoundTrip(t[|t| - k..]);
    assert t == rest + t[|t| - k..];
    assert rest == rest[..|rest| - |mark|] + rest[|rest| - |mark|..];
  }

  /** Read from the right, a payload has one meaning, whatever colons the identifier holds. */
  lemma PayloadIff(t: Text, s: Seed)
    ensures DecodePayload(t) == Some(s) <==> t == Payload(s)
  {
    hide TakeNumber, Digits;
    var head := SEED_DOMAIN + [COLON] + s.dgp;
    var front := head + OUTER + Digits(s.outer);
    assert BOOTSTRAP[|BOOTSTRAP| - 1] == COLON && OUTER[|OUTER| - 1] == COLON;
    NumberTaken(front, BOOTSTRAP, s.bootstrap);
    NumberTaken(head, OUTER, s.outer);
    assert Payload(s) == front + BOOTSTRAP + Digits(s.bootstrap);
    assert head[|SEED_DOMAIN| + 1..] == s.dgp;
    if DecodePayload(t) == Some(s) {
      TakenNumber(t, BOOTSTRAP);
      var r := TakeNumber(t, BOOTSTRAP).value;
      TakenNumber(r.0, OUTER);
      var q := TakeNumber(r.0, OUTER).value;
      assert q.0 == SEED_DOMAIN + [COLON] + q.0[|SEED_DOMAIN| + 1..];
    }
  }

  lemma PayloadInjective(s: Seed, t: Seed)
    requires Payload(s) == Payload(t)
    ensures s == t
  {
    PayloadIff(Payload(s), s);
    PayloadIff(Payload(s), t);
  }

  /** A logical draw, and the address it is drawn from. */
  datatype LogicalDraw = LogicalDraw(seed: Seed, purpose: DrawPurpose, position: Position, attempt: Attempt)

  function Address(d: LogicalDraw): (Text, bv64) {
    (Payload(d.seed), PackCounter(d.purpose, d.position, d.attempt))
  }

  /** Distinct logical draws never share an address. */
  lemma DrawsNeverShare(c: LogicalDraw, d: LogicalDraw)
    ensures Address(c) == Address(d) <==> c == d
  {
    hide PackCounter, Payload;
    if Address(c) == Address(d) {
      PayloadInjective(c.seed, d.seed);
      CounterInjective(c.purpose, d.purpose, c.position, d.position, c.attempt, d.attempt);
    }
  }

  /** An identifier may look like the end of a payload; read from the left the two payloads below would be confused. */
  lemma ColonsInIdentifiers()
    ensures Ledger.IsIdentifier(Lit("a:outer:1:bootstrap:2"))
    ensures Payload(Seed(Lit("a:outer:1:bootstrap:2"), 3, 4)) != Payload(Seed(Lit("a"), 1, 2))
    ensures Payload(Seed(Lit("a"), 1, 2)) <= Payload(Seed(Lit("a:outer:1:bootstrap:2"), 3, 4))
  {
  }
}
