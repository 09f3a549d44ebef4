/** Which text canonical JSON is: the spelling of every string, number, array and object, without reference to how it
    is read. */
module JsonPrinting {
  import opened Wrappers
  import opened Texts
  import opened Decimal
  import opened JsonStrings
  import opened Json
  import opened JsonRoundTrip

  // ---- what is printed before a tail does not depend on it ----

  lemma {:induction false} BodyTail(s: Text, tail: Printed)
    ensures EmitBody(s, tail) == EmitBody(s, []) + tail
  {
    if s != [] {
      BodyTail(s[1..], tail);
    }
  }

  lemma {:induction false} EmitTail(v: Json, tail: Printed)
    ensures Emit(v, tail) == Emit(v, []) + tail
    decreases v, 0
  {
    match v
    case Str(s) =>
      BodyTail(s, tail);
    case Arr(items) =>
      if items != [] {
        ItemsTail(items, tail);
      }
    case Obj(members) =>
      if members != [] {
        MembersTail(members, tail);
      }
    case _ =>
  }

  /** What follows the first item. */
  function AfterItem(items: seq<Json>, tail: Printed): Printed
    requires items != []
  {
    if |items| == 1 then [CLOSE_ARRAY] + tail else [COMMA] + EmitItems(items[1..], tail)
  }

  lemma FirstItem(items: seq<Json>, tail: Printed)
    requires items != []
    ensures EmitItems(items, tail) == Emit(items[0], AfterItem(items, tail))
  {
    hide Emit;
  }

  lemma Regroup(a: Printed, b: Printed, c: Printed)
    ensures a + (b + c) == (a + b) + c
  {
  }

  lemma AfterItemTail(items: seq<Json>, tail: Printed)
    requires items != []
    requires |items| > 1 ==> EmitItems(items[1..], tail) == EmitItems(items[1..], []) + tail
    ensures AfterItem(items, tail) == AfterItem(items, []) + tail
  {
    hide EmitItems;
    if |items| > 1 {
      Regroup([COMMA], EmitItems(items[1..], []), tail);
    }
  }

  lemma {:induction false} ItemsTail(items: seq<Json>, tail: Printed)
    requires items != []
    ensures EmitItems(items, tail) == EmitItems(items, []) + tail
    decreases items, 0
  {
    hide Emit, EmitItems, AfterItem;
    if |items| > 1 {
      ItemsTail(items[1..], tail);
    }
    AfterItemTail(items, tail);
    FirstItem(items, tail);
    FirstItem(items, []);
    EmitTail(items[0], AfterItem(items, tail));
    EmitTail(items[0], AfterItem(items, []));
    Regroup(Emit(items[0], []), AfterItem(items, []), tail);
  }

  /** What follows the first value. */
  function AfterMember(ms: seq<Member>, tail: Printed): Printed
    requires ms != []
  {
    if |ms| == 1 then [CLOSE_OBJECT] + tail else [COMMA] + EmitMembers(ms[1..], tail)
  }

  lemma FirstMember(ms: seq<Member>, tail: Printed)
    requires ms != []
    ensures EmitMembers(ms, tail)
            == [QUOTE] + EmitBody(ms[0].key, []) + [COLON] + Emit(ms[0].value, []) + AfterMember(ms, tail)
    decreases ms[0].value, 1
  {
    hide Emit, EmitBody;
    var more := AfterMember(ms, tail);
    EmitTail(ms[0].value, more);
    BodyTail(ms[0].key, [COLON] + Emit(ms[0].value, more));
  }

  lemma AfterMemberTail(ms: seq<Member>, tail: Printed)
    requires ms != []
    requires |ms| > 1 ==> EmitMembers(ms[1..], tail) == EmitMembers(ms[1..], []) + tail
    ensures AfterMember(ms, tail) == AfterMember(ms, []) + tail
  {
    hide EmitMembers;
    if |ms| > 1 {
      Regroup([COMMA], EmitMembers(ms[1..], []), tail);
    }
  }

  lemma {:induction false} MembersTail(ms: seq<Member>, tail: Printed)
    requires ms != []
    ensures EmitMembers(ms, tail) == EmitMembers(ms, []) + tail
    decreases ms, 0
  {
    hide Emit, EmitMembers, EmitBody, AfterMember;
    if |ms| > 1 {
      MembersTail(ms[1..], tail);
    }
    AfterMemberTail(ms, tail);
    FirstMember(ms, tail);
    FirstMember(ms, []);
    Regroup([QUOTE] + EmitBody(ms[0].key, []) + [COLON] + Emit(ms[0].value, []), AfterMember(ms, []), tail);
  }

  // ---- strings ----

  /** The text between the quotes of a printed string. */
  function Inner(s: Text): Printed {
    var t := Dumps(Str(s));
    if |t| >= 2 then t[1..|t| - 1] else []
  }

  lemma Unquoted(b: Printed)
    requires b != [] && b[|b| - 1] == QUOTE
    ensures var t := [QUOTE] + b;
            b == t[1..|t| - 1] + [QUOTE] && t == [QUOTE] + t[1..|t| - 1] + [QUOTE]
  {
    var t := [QUOTE] + b;
    assert t[1..|t| - 1] == b[..|b| - 1];
  }

  lemma StringIsBody(s: Text)
    ensures Dumps(Str(s)) == [QUOTE] + EmitBody(s, [])
  {
    hide EmitBody;
  }

  lemma InnerIsBody(s: Text)
    ensures EmitBody(s, []) == Inner(s) + [QUOTE] && Dumps(Str(s)) == [QUOTE] + Inner(s) + [QUOTE]
  {
    hide Dumps, EmitBody;
    BodyEnds(s);
    StringIsBody(s);
    Unquoted(EmitBody(s, []));
  }

  lemma {:induction false} BodyEnds(s: Text)
    ensures EmitBody(s, [])[|EmitBody(s, [])| - 1] == QUOTE
  {
    if s != [] {
      BodyEnds(s[1..]);
    }
  }

  lemma SameBeforeQuote(a: Printed, b: Printed)
    ensures a + [QUOTE] == b + [QUOTE] ==> a == b
  {
    if a + [QUOTE] == b + [QUOTE] {
      assert a == (a + [QUOTE])[..|a|];
    }
  }

  lemma InnerEmpty()
    ensures Inner([]) == []
  {
  }

  lemma InnerStep(s: Text)
    requires s != []
    ensures Inner(s) == Escape(s[0]) + Inner(s[1..])
  {
    InnerIsBody(s);
    InnerIsBody(s[1..]);
    hide Dumps, Inner, Escape;
    var e, rest := Escape(s[0]), Inner(s[1..]);
    assert EmitBody(s, []) == e + (rest + [QUOTE]);
    hide EmitBody;
    Regroup(e, rest, [QUOTE]);
    SameBeforeQuote(Inner(s), e + rest);
  }

  /** A string stands between two quotes, and is spelled character by character. */
  lemma {:induction false} StringPrints(s: Text, t: Text)
    ensures Dumps(Str(s)) == [34] + Inner(s) + [34]
    ensures Inner([]) == [] && Inner(s + t) == Inner(s) + Inner(t)
  {
    InnerIsBody(s);
    InnerEmpty();
    hide Dumps, Inner, Escape, EmitBody;
    if s == [] {
      assert s + t == t;
    } else {
      StringPrints(s[1..], t);
      InnerStep(s);
      InnerStep(s + t);
      assert (s + t)[1..] == s[1..] + t && (s + t)[0] == s[0];
      Regroup(Escape(s[0]), Inner(s[1..]), Inner(t));
    }
  }

  predicate Plain(c: CodePoint) {
    0x20 <= c <= 0x7e && c != 34 && c != 92
  }

  lemma OneCharacter(c: CodePoint)
    ensures Inner([c]) == Escape(c)
  {
    InnerStep([c]);
    InnerEmpty();
    hide Inner, Escape;
    assert [c][1..] == [];
  }

  /** Printable ASCII other than the quote and the backslash prints as itself. */
  lemma {:induction false} PlainPrints(s: Text)
    requires forall i :: 0 <= i < |s| ==> Plain(s[i])
    ensures Inner(s) == s
  {
    StringPrints([], []);
    if s != [] {
      OneCharacter(s[0]);
      StringPrints([s[0]], s[1..]);
      assert s == [s[0]] + s[1..];
      hide Inner;
      PlainPrints(s[1..]);
    }
  }

  /** Quote, backslash, backspace, tab, line feed, form feed and carriage return print as two characters. */
  lemma ShortPrints()
    ensures Inner([34]) == [92, 34] && Inner([92]) == [92, 92]
    ensures Inner([8]) == Lit("\\b") && Inner([9]) == Lit("\\t") && Inner([10]) == Lit("\\n")
    ensures Inner([12]) == Lit("\\f") && Inner([13]) == Lit("\\r")
  {
    OneCharacter(34);
    OneCharacter(92);
    OneCharacter(8);
    OneCharacter(9);
    OneCharacter(10);
    OneCharacter(12);
    OneCharacter(13);
    hide Inner;
  }

  predicate LowerHex(c: int) {
    48 <= c <= 57 || 97 <= c <= 102
  }

  function HexNumber(t: Printed): int {
    if t == [] then 0
    else
      var c: int := t[|t| - 1];
      16 * HexNumber(t[..|t| - 1]) + (if c <= 57 then c - 48 else c - 87)
  }

  predicate HasShort(c: CodePoint) {
    c in {34, 92, 8, 9, 10, 12, 13}
  }

  lemma HexDigits4(u: int)
    requires 0 <= u < 0x1_0000
    ensures HexNumber(Hex4(u)) == u && forall i :: 0 <= i < 4 ==> LowerHex(Hex4(u)[i])
  {
    FourDigits(u);
    var t := Hex4(u);
    assert t[..3][..2] == t[..2] && t[..2][..1] == t[..1] && t[..1][..0] == [];
    assert HexNumber(t[..1]) == u / 4096;
    assert HexNumber(t[..2]) == 16 * (u / 4096) + u / 256 % 16;
    assert HexNumber(t[..3]) == 16 * (16 * (u / 4096) + u / 256 % 16) + u / 16 % 16;
  }

  /** Every other character of the basic plane, surrogates included, prints as `\u` and its four lowercase digits. */
  lemma EscapedPrints(c: CodePoint)
    requires c < 0x1_0000 && !Plain(c) && !HasShort(c)
    ensures var t := Inner([c]);
            && |t| == 6 && t[..2] == Lit("\\u")
            && (forall i :: 2 <= i < 6 ==> LowerHex(t[i])) && HexNumber(t[2..]) == c
  {
    OneCharacter(c);
    hide Inner;
    HexDigits4(c);
    assert Unit(c)[2..] == Hex4(c) && Unit(c)[..2] == [92, 117];
  }

  /** A character beyond it prints as its two surrogates do. */
  lemma AstralPrints(c: CodePoint)
    requires c >= 0x1_0000
    ensures exists hi: CodePoint, lo: CodePoint ::
              High(hi) && Low(lo) && c == 0x1_0000 + (hi - 0xd800) * 0x400 + (lo - 0xdc00) && Inner([c]) == Inner([hi, lo])
  {
    var hi, lo: CodePoint := 0xd800 + (c - 0x1_0000) / 0x400, 0xdc00 + (c - 0x1_0000) % 0x400;
    OneCharacter(c);
    OneCharacter(hi);
    OneCharacter(lo);
    StringPrints([hi], [lo]);
    assert [hi] + [lo] == [hi, lo];
    hide Inner, Unit;
    assert High(hi) && Low(lo) && Inner([c]) == Inner([hi, lo]);
  }

  // ---- numbers, literals, arrays and objects ----

  /** The constants, and integers in decimal notation without a leading zero. */
  lemma ScalarsPrint(n: nat)
    ensures Dumps(Null) == Lit("null") && Dumps(Bool(true)) == Lit("true") && Dumps(Bool(false)) == Lit("false")
    ensures IsNumeral(Dumps(Int(n))) && Value(Dumps(Int(n))) == n
    ensures n > 0 ==> Dumps(Int(0 - (n as int))) == Lit("-") + Dumps(Int(n))
  {
    DigitsRoundTrip(n);
    assert Digits(n) + [] == Digits(n);
  }

  /** Texts with commas between them. */
  function Commas(parts: seq<Printed>): Printed {
    if parts == [] then [] else if |parts| == 1 then parts[0] else parts[0] + ([44] + Commas(parts[1..]))
  }

  function PrintedItems(items: seq<Json>): (r: seq<Printed>)
    ensures |r| == |items|
  {
    seq(|items|, i requires 0 <= i < |items| => Dumps(items[i]))
  }

  function PrintedMember(m: Member): Printed {
    Dumps(Str(m.key)) + [58] + Dumps(m.value)
  }

  function PrintedMembers(ms: seq<Member>): (r: seq<Printed>)
    ensures |r| == |ms|
  {
    seq(|ms|, i requires 0 <= i < |ms| => PrintedMember(ms[i]))
  }

  lemma CommasStep(parts: seq<Printed>)
    requires parts != []
    ensures |parts| == 1 ==> Commas(parts) == parts[0]
    ensures |parts| > 1 ==> Commas(parts) == parts[0] + ([COMMA] + Commas(parts[1..]))
  {
  }

  /** Taking one part off a list with commas and an end. */
  lemma OnePart(parts: seq<Printed>, rest: Printed, end: Printed, whole: Printed)
    requires parts != []
    requires whole == parts[0] + if |parts| == 1 then end else [COMMA] + rest
    requires |parts| > 1 ==> rest == Commas(parts[1..]) + end
    ensures whole == Commas(parts) + end
  {
    CommasStep(parts);
    hide Commas;
    if |parts| > 1 {
      Regroup([COMMA], Commas(parts[1..]), end);
      Regroup(parts[0], [COMMA] + Commas(parts[1..]), end);
    }
  }

  lemma FirstItemPrints(items: seq<Json>)
    requires items != [] && Canonical(items[0])
    ensures EmitItems(items, []) == Dumps(items[0]) + AfterItem(items, [])
  {
    CanonFixed(items[0]);
    FirstItem(items, []);
    EmitTail(items[0], AfterItem(items, []));
    assert Dumps(items[0]) == Emit(items[0], []);
    hide Emit, EmitItems, AfterItem;
  }

  lemma PartsOfItems(items: seq<Json>)
    requires items != []
    ensures PrintedItems(items)[0] == Dumps(items[0]) && PrintedItems(items)[1..] == PrintedItems(items[1..])
    ensures AfterItem(items, []) == if |items| == 1 then [CLOSE_ARRAY] else [COMMA] + EmitItems(items[1..], [])
  {
    hide Dumps, EmitItems;
  }

  lemma {:induction false} ItemsPrint(items: seq<Json>)
    requires items != [] && forall i :: 0 <= i < |items| ==> Canonical(items[i])
    ensures EmitItems(items, []) == Commas(PrintedItems(items)) + [CLOSE_ARRAY]
  {
    hide EmitItems, Dumps, Commas, PrintedItems, AfterItem, Canonical;
    FirstItemPrints(items);
    PartsOfItems(items);
    if |items| > 1 {
      ItemsPrint(items[1..]);
      OnePart(PrintedItems(items), EmitItems(items[1..], []), [CLOSE_ARRAY], EmitItems(items, []));
    } else {
      OnePart(PrintedItems(items), [], [CLOSE_ARRAY], EmitItems(items, []));
    }
  }

  lemma FirstMemberPrints(ms: seq<Member>)
    requires ms != [] && Canonical(ms[0].value)
    ensures EmitMembers(ms, []) == PrintedMember(ms[0]) + AfterMember(ms, [])
  {
    CanonFixed(ms[0].value);
    FirstMember(ms, []);
    assert Dumps(Str(ms[0].key)) == [QUOTE] + EmitBody(ms[0].key, []);
    assert Dumps(ms[0].value) == Emit(ms[0].value, []);
    hide Emit, EmitMembers, EmitBody, AfterMember;
  }

  lemma PartsOfMembers(ms: seq<Member>)
    requires ms != []
    ensures PrintedMembers(ms)[0] == PrintedMember(ms[0]) && PrintedMembers(ms)[1..] == PrintedMembers(ms[1..])
    ensures AfterMember(ms, []) == if |ms| == 1 then [CLOSE_OBJECT] else [COMMA] + EmitMembers(ms[1..], [])
  {
    hide PrintedMember, EmitMembers;
  }

  lemma {:induction false} MembersPrint(ms: seq<Member>)
    requires ms != [] && forall i :: 0 <= i < |ms| ==> Canonical(ms[i].value)
    ensures EmitMembers(ms, []) == Commas(PrintedMembers(ms)) + [CLOSE_OBJECT]
  {
    hide EmitMembers, PrintedMember, Commas, PrintedMembers, AfterMember, Canonical;
    FirstMemberPrints(ms);
    PartsOfMembers(ms);
    if |ms| > 1 {
      MembersPrint(ms[1..]);
      OnePart(PrintedMembers(ms), EmitMembers(ms[1..], []), [CLOSE_OBJECT], EmitMembers(ms, []));
    } else {
      OnePart(PrintedMembers(ms), [], [CLOSE_OBJECT], EmitMembers(ms, []));
    }
  }

  /** An array prints its items in order, with commas between them and no space. */
  lemma ArrayPrints(items: seq<Json>)
    requires Canonical(Arr(items))
    ensures Dumps(Arr(items)) == Lit("[") + Commas(PrintedItems(items)) + Lit("]")
  {
    CanonFixed(Arr(items));
    assert Dumps(Arr(items)) == Emit(Arr(items), []);
    assert Lit("[") == [OPEN_ARRAY] && Lit("]") == [CLOSE_ARRAY];
    hide Dumps, Canon, Canonical, EmitItems, PrintedItems, Lit;
    if items != [] {
      ItemsCanonical(items);
      ItemsPrint(items);
    }
  }

  lemma ItemsCanonical(items: seq<Json>)
    requires Canonical(Arr(items))
    ensures forall i :: 0 <= i < |items| ==> Canonical(items[i])
  {
    forall i | 0 <= i < |items|
      ensures Canonical(items[i])
    {
      assert items[i] in items;
    }
  }

  /** An object prints its members in order of their keys, with colons after keys, commas between and no space. */
  lemma ObjectPrints(ms: seq<Member>)
    requires Canonical(Obj(ms))
    ensures Dumps(Obj(ms)) == Lit("{") + Commas(PrintedMembers(ms)) + Lit("}")
  {
    CanonFixed(Obj(ms));
    assert Dumps(Obj(ms)) == Emit(Obj(ms), []);
    assert Lit("{") == [OPEN_OBJECT] && Lit("}") == [CLOSE_OBJECT];
    MembersCanonical(ms);
    hide Dumps, Canon, Canonical, EmitMembers, PrintedMembers, Lit;
    if ms != [] {
      MembersPrint(ms);
    }
  }

  lemma MembersCanonical(ms: seq<Member>)
    requires Canonical(Obj(ms))
    ensures forall i :: 0 <= i < |ms| ==> Canonical(ms[i].value)
  {
    forall i | 0 <= i < |ms|
      ensures Canonical(ms[i].value)
    {
      assert ms[i] in ms;
    }
  }

  /** Any other value prints as the tree of dicts it is. */
  lemma AnythingPrints(v: Json)
    ensures Canonical(Canon(v)) && Dumps(v) == Dumps(Canon(v))
  {
    CanonCanonical(v);
    CanonFixed(Canon(v));
  }

  // ---- dicts ----

  /** The member is the last one of its key. */
  predicate LastOfKey(ms: seq<Member>, i: nat)
    requires i < |ms|
  {
    forall j :: i < j < |ms| ==> ms[j].key != ms[i].key
  }

  lemma {:induction false} InsertMembers(ms: seq<Member>, m: Member, x: Member)
    requires SortedKeys(ms)
    ensures x in Insert(ms, m) <==> x == m || (x in ms && x.key != m.key)
  {
    if ms != [] {
      assert ms == [ms[0]] + ms[1..];
      forall y | y in ms[1..]
        ensures Less(ms[0].key, y.key)
      {
        var j :| 0 < j < |ms| && ms[j] == y;
      }
      LessIrreflexive(m.key);
      if ms[0].key == m.key {
      } else if Less(m.key, ms[0].key) {
        forall y | y in ms[1..]
          ensures y.key != m.key
        {
          LessTransitive(m.key, ms[0].key, y.key);
        }
      } else {
        InsertMembers(ms[1..], m, x);
      }
    }
  }

  predicate IsLast(ms: seq<Member>, x: Member) {
    exists i :: 0 <= i < |ms| && ms[i] == x && LastOfKey(ms, i)
  }

  lemma LastStep(ms: seq<Member>, x: Member)
    requires ms != []
    ensures var n := |ms| - 1;
            IsLast(ms, x) <==> x == ms[n] || (x.key != ms[n].key && IsLast(ms[..n], x))
  {
    var n := |ms| - 1;
    assert LastOfKey(ms, n);
    if i :| 0 <= i < n && ms[i] == x && LastOfKey(ms, i) {
      assert ms[..n][i] == x && LastOfKey(ms[..n], i);
    }
    if x.key != ms[n].key && IsLast(ms[..n], x) {
      var i :| 0 <= i < n && ms[..n][i] == x && LastOfKey(ms[..n], i);
      assert forall j :: i < j < n ==> ms[j] == ms[..n][j];
      assert ms[i] == x && LastOfKey(ms, i);
    }
  }

  /** A dict holds, for each key of the pairs, the value of its last pair, and nothing else. */
  lemma {:induction false} CollapseIff(ms: seq<Member>, x: Member)
    ensures x in Collapse(ms) <==> IsLast(ms, x)
  {
    if ms != [] {
      var n := |ms| - 1;
      LastStep(ms, x);
      CollapseSorted(ms[..n]);
      hide IsLast, Insert;
      InsertMembers(Collapse(ms[..n]), ms[n], x);
      CollapseIff(ms[..n], x);
    }
  }
}
