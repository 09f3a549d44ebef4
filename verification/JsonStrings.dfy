/** The string token of canonical JSON (RFC 8259 section 7): `ensure_ascii` output and what `json.loads` reads. */
module JsonStrings {
  import opened Wrappers
  import opened Texts

  const QUOTE := 34
  const BACKSLASH := 92
  const LETTER_U := 117

  predicate High(c: int) {
    0xd800 <= c < 0xdc00
  }

  predicate Low(c: int) {
    0xdc00 <= c < 0xe000
  }

  /** A text the escape syntax can spell: no high surrogate directly before a low one. */
  predicate NoSplitPair(s: Text) {
    forall i :: 0 <= i < |s| - 1 ==> !(High(s[i]) && Low(s[i + 1]))
  }

  /** A decoded document holds scalars only; surrogates enter a `str` through escapes. */
  predicate Scalars(t: Text) {
    forall i :: 0 <= i < |t| ==> !High(t[i]) && !Low(t[i])
  }

  function Joined(hi: CodePoint, lo: CodePoint): CodePoint
    requires High(hi) && Low(lo)
  {
    0x1_0000 + (hi - 0xd800) * 0x400 + (lo - 0xdc00)
  }

  // ---- four hexadecimal digits ----

  function HexDigit(d: int): Printable
    requires 0 <= d < 16
  {
    if d < 10 then 48 + d else 87 + d
  }

  function HexValue(c: int): (r: Option<int>)
    ensures r.Some? ==> 0 <= r.value < 16
  {
    if 48 <= c <= 57 then Some(c - 48)
    else if 97 <= c <= 102 then Some(c - 87)
    else if 65 <= c <= 70 then Some(c - 55)
    else None
  }

  function Hex4(u: int): (r: Printed)
    requires 0 <= u < 0x1_0000
    ensures |r| == 4
  {
    [HexDigit(u / 4096), HexDigit(u / 256 % 16), HexDigit(u / 16 % 16), HexDigit(u % 16)]
  }

  function ReadHex4(t: Text): (r: Option<int>)
    ensures r.Some? ==> |t| >= 4 && 0 <= r.value < 0x1_0000
  {
    if |t| < 4 then None
    else
      var a :- HexValue(t[0]);
      var b :- HexValue(t[1]);
      var c :- HexValue(t[2]);
      var d :- HexValue(t[3]);
      Some(4096 * a + 256 * b + 16 * c + d)
  }

  lemma HexDigitRoundTrip(d: int)
    requires 0 <= d < 16
    ensures HexValue(HexDigit(d)) == Some(d)
  {
  }

  lemma FourDigits(u: int)
    requires 0 <= u < 0x1_0000
    ensures u / 4096 < 16
    ensures u == 4096 * (u / 4096) + 256 * (u / 256 % 16) + 16 * (u / 16 % 16) + u % 16
  {
    assert u / 256 == u / 16 / 16 && u / 4096 == u / 256 / 16;
  }

  lemma Hex4RoundTrip(u: int, rest: Text)
    requires 0 <= u < 0x1_0000
    ensures ReadHex4(Hex4(u) + rest) == Some(u)
  {
    FourDigits(u);
    HexDigitRoundTrip(u / 4096);
    HexDigitRoundTrip(u / 256 % 16);
    HexDigitRoundTrip(u / 16 % 16);
    HexDigitRoundTrip(u % 16);
  }

  // ---- printing ----

  function Unit(u: int): (r: Printed)
    requires 0 <= u < 0x1_0000
    ensures |r| == 6 && r[0] == BACKSLASH && r[1] == LETTER_U
  {
    [BACKSLASH, LETTER_U] + Hex4(u)
  }

  function ShortEscape(c: int): Option<Printable> {
    if c == QUOTE || c == BACKSLASH then Some(c)
    else if c == 10 then Some(110)
    else if c == 13 then Some(114)
    else if c == 9 then Some(116)
    else if c == 12 then Some(102)
    else if c == 8 then Some(98)
    else None
  }

  /** One code point as `ensure_ascii` writes it. */
  function Escape(c: CodePoint): (r: Printed)
    ensures r != []
  {
    if ShortEscape(c).Some? then [BACKSLASH, ShortEscape(c).value]
    else if 0x20 <= c < 0x7f then [c]
    else if c < 0x1_0000 then Unit(c)
    else Unit(0xd800 + (c - 0x1_0000) / 0x400) + Unit(0xdc00 + (c - 0x1_0000) % 0x400)
  }

  /** The rest of a string token, from inside the quotes, followed by `tail`. */
  function EmitBody(s: Text, tail: Printed): (r: Printed)
    ensures r != []
  {
    if s == [] then [QUOTE] + tail else Escape(s[0]) + EmitBody(s[1..], tail)
  }

  // ---- reading ----

  function ReadShort(e: int): Option<CodePoint> {
    if e == QUOTE || e == BACKSLASH || e == 47 then Some(e)
    else if e == 98 then Some(8)
    else if e == 102 then Some(12)
    else if e == 110 then Some(10)
    else if e == 114 then Some(13)
    else if e == 116 then Some(9)
    else None
  }

  predicate StartsUnit(t: Text) {
    |t| >= 2 && t[0] == BACKSLASH && t[1] == LETTER_U
  }

  /** One character of a string token: its code point and what follows it. */
  function ReadChar(t: Text): (r: Option<(CodePoint, Text)>)
    requires t != [] && t[0] != QUOTE
    ensures r.Some? ==> |r.value.1| < |t|
  {
    if t[0] == BACKSLASH then
      if |t| < 2 then None
      else if t[1] != LETTER_U then
        var c :- ReadShort(t[1]);
        Some((c, t[2..]))
      else
        var u :- ReadHex4(t[2..]);
        if High(u) && StartsUnit(t[6..]) then
          var v :- ReadHex4(t[8..]);
          if Low(v) then Some((Joined(u, v), t[12..])) else Some((u, t[6..]))
        else Some((u, t[6..]))
    else if t[0] < 0x20 then None
    else Some((t[0], t[1..]))
  }

  /** A string token from inside the opening quote: its value and what follows the closing quote. */
  function ReadBody(t: Text): (r: Option<(Text, Text)>)
    ensures r.Some? ==> |r.value.1| < |t|
    decreases |t|
  {
    if t == [] then None
    else if t[0] == QUOTE then Some(([], t[1..]))
    else
      var one :- ReadChar(t);
      var more :- ReadBody(one.1);
      Some(([one.0] + more.0, more.1))
  }

  // ---- the round trip ----

  /** What `json.loads` makes of a printed string: adjacent surrogate halves become one code point. */
  function JoinPairs(s: Text): Text {
    if |s| >= 2 && High(s[0]) && Low(s[1]) then [Joined(s[0], s[1])] + JoinPairs(s[2..])
    else if s == [] then []
    else [s[0]] + JoinPairs(s[1..])
  }

  lemma ReadUnit(u: int, rest: Text)
    requires 0 <= u < 0x1_0000
    ensures StartsUnit(Unit(u) + rest)
    ensures ReadHex4((Unit(u) + rest)[2..]) == Some(u) && (Unit(u) + rest)[6..] == rest
  {
    assert (Unit(u) + rest)[2..] == Hex4(u) + rest;
    Hex4RoundTrip(u, rest);
  }

  lemma ReadPair(u: int, v: int, rest: Text)
    requires 0 <= u < 0x1_0000 && 0 <= v < 0x1_0000 && High(u) && Low(v)
    ensures ReadChar(Unit(u) + Unit(v) + rest) == Some((Joined(u, v), rest))
  {
    var t := Unit(u) + Unit(v) + rest;
    var after := Unit(v) + rest;
    assert t == Unit(u) + after;
    ReadUnit(u, after);
    ReadUnit(v, rest);
    assert t[8..] == t[6..][2..];
    assert t[12..] == t[6..][6..];
  }

  lemma ReadSingle(u: int, rest: Text)
    requires 0 <= u < 0x1_0000
    requires High(u) && StartsUnit(rest) ==> ReadHex4(rest[2..]).Some? && !Low(ReadHex4(rest[2..]).value)
    ensures ReadChar(Unit(u) + rest) == Some((u, rest))
  {
    var t := Unit(u) + rest;
    ReadUnit(u, rest);
    if High(u) && StartsUnit(rest) {
      assert t[8..] == rest[2..];
    }
  }

  /** Reading one printed code point, unless it is a high surrogate followed by a low one's escape. */
  lemma ReadEscape(c: CodePoint, rest: Text)
    requires High(c) && StartsUnit(rest) ==> ReadHex4(rest[2..]).Some? && !Low(ReadHex4(rest[2..]).value)
    ensures var t := Escape(c) + rest; t[0] != QUOTE && ReadChar(t) == Some((c, rest))
  {
    var t := Escape(c) + rest;
    if ShortEscape(c).Some? {
      assert t[2..] == rest;
    } else if 0x20 <= c < 0x7f {
      assert t[1..] == rest;
    } else if c < 0x1_0000 {
      ReadSingle(c, rest);
    } else {
      ReadPair(0xd800 + (c - 0x1_0000) / 0x400, 0xdc00 + (c - 0x1_0000) % 0x400, rest);
    }
  }

  /** After a high surrogate, the printed remainder shows a low half exactly if the text has one there. */
  lemma BodyAfterHigh(s: Text, tail: Printed)
    requires s == [] || !Low(s[0])
    ensures var b := EmitBody(s, tail);
            StartsUnit(b) ==> ReadHex4(b[2..]).Some? && !Low(ReadHex4(b[2..]).value)
  {
    if s != [] {
      EscapeAfterHigh(s[0], EmitBody(s[1..], tail));
    }
  }

  lemma EscapeAfterHigh(c: CodePoint, k: Printed)
    requires !Low(c)
    ensures var b := Escape(c) + k;
            StartsUnit(b) ==> ReadHex4(b[2..]).Some? && !Low(ReadHex4(b[2..]).value)
  {
    if ShortEscape(c).None? && !(0x20 <= c < 0x7f) {
      if c < 0x1_0000 {
        ReadUnit(c, k);
      } else {
        var u, v := 0xd800 + (c - 0x1_0000) / 0x400, 0xdc00 + (c - 0x1_0000) % 0x400;
        assert u < 0xdc00;
        ReadUnit(u, Unit(v) + k);
        assert Unit(u) + Unit(v) + k == Unit(u) + (Unit(v) + k);
      }
    } else if 0x20 <= c < 0x7f {
      assert Escape(c)[0] == c || ShortEscape(c).Some?;
    }
  }

  /** Reading back a printed string, for every text: the halves of a split pair come back joined. */
  lemma {:induction false} ReadEmitted(s: Text, tail: Printed)
    ensures ReadBody(EmitBody(s, tail)) == Some((JoinPairs(s), tail))
    decreases |s|
  {
    var t := EmitBody(s, tail);
    if s == [] {
      assert t[1..] == tail;
    } else if |s| >= 2 && High(s[0]) && Low(s[1]) {
      var k := EmitBody(s[2..], tail);
      assert s[1..][1..] == s[2..];
      assert EmitBody(s[1..], tail) == Escape(s[1]) + k;
      assert t == Unit(s[0]) + Unit(s[1]) + k;
      ReadPair(s[0], s[1], k);
      ReadEmitted(s[2..], tail);
    } else {
      var k := EmitBody(s[1..], tail);
      if High(s[0]) {
        BodyAfterHigh(s[1..], tail);
      }
      ReadEscape(s[0], k);
      ReadEmitted(s[1..], tail);
    }
  }

  lemma {:induction false} JoinPairsLength(s: Text)
    ensures |JoinPairs(s)| <= |s|
    ensures |JoinPairs(s)| == |s| <==> NoSplitPair(s)
    ensures NoSplitPair(s) ==> JoinPairs(s) == s
    decreases |s|
  {
    if |s| >= 2 && High(s[0]) && Low(s[1]) {
      JoinPairsLength(s[2..]);
    } else if s != [] {
      JoinPairsLength(s[1..]);
      assert NoSplitPair(s) ==> NoSplitPair(s[1..]);
      if NoSplitPair(s[1..]) {
        forall i | 0 <= i < |s| - 1
          ensures !(High(s[i]) && Low(s[i + 1]))
        {
          if i > 0 {
            assert s[i] == s[1..][i - 1] && s[i + 1] == s[1..][i];
          }
        }
      }
    }
  }

  /** A string survives printing and reading exactly when it has no split surrogate pair. */
  lemma StringRoundTrip(s: Text, tail: Printed)
    ensures ReadBody(EmitBody(s, tail)) == Some((s, tail)) <==> NoSplitPair(s)
  {
    ReadEmitted(s, tail);
    JoinPairsLength(s);
  }

  /** No document made of scalars yields a string with a split pair. */
  lemma {:induction false} ReadNeverSplits(t: Text)
    requires Scalars(t) && ReadBody(t).Some?
    ensures NoSplitPair(ReadBody(t).value.0) && Scalars(ReadBody(t).value.1)
    decreases |t|
  {
    if t[0] != QUOTE {
      var one := ReadChar(t).value;
      ReadCharSuffix(t);
      ReadNeverSplits(one.1);
      var more := ReadBody(one.1).value;
      if High(one.0) && more.0 != [] && Low(more.0[0]) {
        LowComesFromUnit(one.1);
      }
      var s := [one.0] + more.0;
      forall i | 0 <= i < |s| - 1
        ensures !(High(s[i]) && Low(s[i + 1]))
      {
        if i > 0 {
          assert s[i] == more.0[i - 1] && s[i + 1] == more.0[i];
        }
      }
    }
  }

  lemma ReadCharSuffix(t: Text)
    requires Scalars(t) && t != [] && t[0] != QUOTE && ReadChar(t).Some?
    ensures Scalars(ReadChar(t).value.1)
  {
  }

  lemma LowComesFromUnit(t: Text)
    requires Scalars(t) && t != [] && t[0] != QUOTE && ReadChar(t).Some? && Low(ReadChar(t).value.0)
    ensures StartsUnit(t) && ReadHex4(t[2..]) == Some(ReadChar(t).value.0)
  {
  }
}
