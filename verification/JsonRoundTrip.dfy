/** The printer and the reader are inverse, and the re-print comparison accepts exactly the printer's image. */
module JsonRoundTrip {
  import opened Wrappers
  import opened Texts
  import opened Decimal
  import opened JsonStrings
  import opened Json

  // ---- dicts ----

  lemma {:induction false} InsertSorted(ms: seq<Member>, m: Member)
    requires SortedKeys(ms)
    ensures SortedKeys(Insert(ms, m))
    ensures forall x :: x in Insert(ms, m) ==> x == m || x in ms
  {
    if ms == [] {
    } else if ms[0].key == m.key {
      assert forall x :: x in ms[1..] ==> x in ms;
    } else if Less(m.key, ms[0].key) {
      forall j | 0 <= j < |ms|
        ensures Less(m.key, ms[j].key)
      {
        if j > 0 {
          LessTransitive(m.key, ms[0].key, ms[j].key);
        }
      }
    } else {
      LessTotal(m.key, ms[0].key);
      InsertSorted(ms[1..], m);
      forall x | x in Insert(ms[1..], m)
        ensures Less(ms[0].key, x.key)
      {
        if x != m {
          var j :| 0 <= j < |ms[1..]| && ms[1..][j] == x;
          assert ms[j + 1] == x;
        }
      }
    }
  }

  lemma {:induction false} InsertAtEnd(ms: seq<Member>, m: Member)
    requires forall j :: 0 <= j < |ms| ==> Less(ms[j].key, m.key)
    ensures Insert(ms, m) == ms + [m]
  {
    if ms != [] {
      LessAsymmetric(ms[0].key, m.key);
      InsertAtEnd(ms[1..], m);
    }
  }

  lemma {:induction false} CollapseSorted(ms: seq<Member>)
    ensures SortedKeys(Collapse(ms)) && forall x :: x in Collapse(ms) ==> x in ms
  {
    if ms != [] {
      CollapseSorted(ms[..|ms| - 1]);
      InsertSorted(Collapse(ms[..|ms| - 1]), ms[|ms| - 1]);
    }
  }

  lemma {:induction false} CollapseFixed(ms: seq<Member>)
    requires SortedKeys(ms)
    ensures Collapse(ms) == ms
  {
    if ms != [] {
      CollapseFixed(ms[..|ms| - 1]);
      InsertAtEnd(ms[..|ms| - 1], ms[|ms| - 1]);
    }
  }

  lemma {:induction false} CanonItemsAt(items: seq<Json>)
    ensures forall i :: 0 <= i < |items| ==> CanonItems(items)[i] == Canon(items[i])
  {
    if items != [] {
      CanonItemsAt(items[1..]);
    }
  }

  lemma {:induction false} CanonMembersAt(ms: seq<Member>)
    ensures forall i :: 0 <= i < |ms| ==> CanonMembers(ms)[i] == Member(ms[i].key, Canon(ms[i].value))
  {
    if ms != [] {
      CanonMembersAt(ms[1..]);
    }
  }

  /** Building dicts yields ascending, distinct keys everywhere, and never invents a string. */
  lemma {:induction false} CanonCanonical(v: Json)
    ensures Canonical(Canon(v))
    ensures Spellable(v) ==> Spellable(Canon(v))
  {
    match v
    case Arr(items) =>
      CanonItemsAt(items);
      forall i | 0 <= i < |items|
        ensures Canonical(CanonItems(items)[i]) && (Spellable(items[i]) ==> Spellable(CanonItems(items)[i]))
      {
        CanonCanonical(items[i]);
      }
    case Obj(members) =>
      CanonMembersAt(members);
      var ms := CanonMembers(members);
      forall i | 0 <= i < |members|
        ensures Canonical(ms[i].value) && (Spellable(members[i].value) ==> Spellable(ms[i].value))
      {
        CanonCanonical(members[i].value);
      }
      CollapseSorted(ms);
      forall m | m in Collapse(ms)
        ensures Canonical(m.value) && (Spellable(v) ==> NoSplitPair(m.key) && Spellable(m.value))
      {
        var i :| 0 <= i < |ms| && ms[i] == m;
        assert members[i] in members;
      }
    case _ =>
  }

  lemma {:induction false} CanonFixed(v: Json)
    requires Canonical(v)
    ensures Canon(v) == v
  {
    match v
    case Arr(items) =>
      CanonItemsAt(items);
      forall i | 0 <= i < |items|
        ensures Canon(items[i]) == items[i]
      {
        CanonFixed(items[i]);
      }
      assert CanonItems(items) == items;
    case Obj(members) =>
      CanonMembersAt(members);
      forall i | 0 <= i < |members|
        ensures Canon(members[i].value) == members[i].value
      {
        assert members[i] in members;
        CanonFixed(members[i].value);
      }
      assert CanonMembers(members) == members;
      CollapseFixed(members);
    case _ =>
  }

  lemma CanonIdempotent(v: Json)
    ensures Canon(Canon(v)) == Canon(v)
  {
    CanonCanonical(v);
    CanonFixed(Canon(v));
  }

  lemma {:induction false} CanonicalUnique(v: Json)
    requires Canonical(v)
    ensures UniqueKeys(v)
  {
    match v
    case Arr(items) =>
      forall w | w in items
        ensures UniqueKeys(w)
      {
        CanonicalUnique(w);
      }
    case Obj(members) =>
      forall i, j | 0 <= i < j < |members|
        ensures members[i].key != members[j].key
      {
        LessAsymmetric(members[i].key, members[j].key);
      }
      forall m | m in members
        ensures UniqueKeys(m.value)
      {
        CanonicalUnique(m.value);
      }
    case _ =>
  }

  // ---- reading what was printed ----

  predicate Delimited(t: Text) {
    t == [] || t[0] == COMMA || t[0] == CLOSE_ARRAY || t[0] == CLOSE_OBJECT
  }

  lemma ReadDigits(n: nat, tail: Text)
    requires Delimited(tail)
    ensures ReadNatural(Digits(n) + tail) == Some((n, tail))
  {
    var t := Digits(n) + tail;
    DigitsRoundTrip(n);
    SpanStopsAt(Digits(n), tail);
    assert t[0] == Digits(n)[0];
    assert t[..|Digits(n)|] == Digits(n) && t[|Digits(n)|..] == tail;
    if t[0] == ZERO {
      assert n == 0 && |Digits(n)| == 1;
    }
  }

  lemma ReadSigned(d: Text, n: nat)
    requires d != [] && IsDigit(d[0]) && ReadNatural(d).Some? && ReadNatural(d).value.0 == n
    ensures ReadNumber(d) == Some((Int(n), ReadNatural(d).value.1))
    ensures ReadNumber([MINUS] + d) == Some((Int(0 - n), ReadNatural(d).value.1))
  {
    assert ([MINUS] + d)[1..] == d;
  }

  lemma ReadNumeral(i: int, tail: Text)
    requires Delimited(tail)
    ensures var t := Numeral(i) + tail;
            (t[0] == MINUS || IsDigit(t[0])) && ReadNumber(t) == Some((Int(i), tail))
  {
    hide ReadNatural, Digits;
    var n: nat := if i < 0 then -i else i;
    var d: Text := Digits(n) + tail;
    FirstIsDigit(n);
    ReadDigits(n, tail);
    ReadSigned(d, n);
    assert Numeral(i) + tail == if i < 0 then [MINUS] + d else d;
  }

  predicate IsScalar(v: Json) {
    !v.Arr? && !v.Obj?
  }

  lemma ReadEmittedScalar(v: Json, tail: Printed)
    requires IsScalar(v) && Spellable(v) && Delimited(tail)
    ensures var t := Emit(v, tail);
            t[0] != OPEN_ARRAY && t[0] != OPEN_OBJECT && ReadScalar(t) == Some((v, tail))
  {
    var t := Emit(v, tail);
    match v
    case Null =>
      assert NULL_TOKEN <= t && t[4..] == tail && t[0] == 110;
    case Bool(b) =>
      if b {
        assert TRUE_TOKEN <= t && t[4..] == tail && t[0] == 116;
      } else {
        assert FALSE_TOKEN <= t && t[5..] == tail && t[0] == 102;
      }
    case Int(i) =>
      ReadNumeral(i, tail);
      assert NULL_TOKEN[0] == 110 && TRUE_TOKEN[0] == 116 && FALSE_TOKEN[0] == 102;
    case Str(s) =>
      assert t[1..] == EmitBody(s, tail);
      StringRoundTrip(s, tail);
  }

  lemma ReadEmpty(tail: Text)
    ensures ReadValue([OPEN_ARRAY, CLOSE_ARRAY] + tail) == Some((Arr([]), tail))
    ensures ReadValue([OPEN_OBJECT, CLOSE_OBJECT] + tail) == Some((Obj([]), tail))
  {
    assert ([OPEN_ARRAY, CLOSE_ARRAY] + tail)[1..] == [CLOSE_ARRAY] + tail;
    assert ([OPEN_OBJECT, CLOSE_OBJECT] + tail)[1..] == [CLOSE_OBJECT] + tail;
    assert ([CLOSE_ARRAY] + tail)[1..] == tail && ([CLOSE_OBJECT] + tail)[1..] == tail;
  }

  /** What `ReadValue` does after an opening bracket that is not closed at once. */
  lemma ReadBracketed(u: Text)
    requires u != [] && SkipSpace(u) == u
    ensures u[0] != CLOSE_ARRAY ==>
              ReadValue([OPEN_ARRAY] + u) ==
              match ReadItems(u) { case None => None case Some(r) => Some((Arr(r.0), r.1)) }
    ensures u[0] != CLOSE_OBJECT ==>
              ReadValue([OPEN_OBJECT] + u) ==
              match ReadMembers(u) { case None => None case Some(r) => Some((Obj(r.0), r.1)) }
  {
    assert ([OPEN_ARRAY] + u)[1..] == u && ([OPEN_OBJECT] + u)[1..] == u;
  }

  lemma EmitNotSpace(v: Json, tail: Printed)
    ensures SkipSpace(Emit(v, tail)) == Emit(v, tail)
    ensures Emit(v, tail)[0] != CLOSE_ARRAY && Emit(v, tail)[0] != CLOSE_OBJECT
  {
    match v
    case Int(i) =>
      DigitsRoundTrip(if i < 0 then -i else i);
    case _ =>
  }

  lemma {:induction false} EmitItemsFirst(items: seq<Json>, tail: Printed)
    requires items != []
    ensures SkipSpace(EmitItems(items, tail)) == EmitItems(items, tail)
    ensures EmitItems(items, tail)[0] != CLOSE_ARRAY
  {
    EmitNotSpace(items[0], if |items| == 1 then [CLOSE_ARRAY] + tail else [COMMA] + EmitItems(items[1..], tail));
  }

  /** Parse undoes print, in any context a value can stand in. */
  lemma {:induction false} ReadEmittedValue(v: Json, tail: Printed)
    requires Spellable(v) && Delimited(tail)
    ensures ReadValue(Emit(v, tail)) == Some((v, tail))
    decreases v, 0
  {
    var t := Emit(v, tail);
    match v
    case Arr(items) =>
      if items == [] {
        ReadEmpty(tail);
      } else {
        EmitItemsFirst(items, tail);
        ReadEmittedItems(items, tail);
        ReadBracketed(EmitItems(items, tail));
      }
    case Obj(members) =>
      if members == [] {
        ReadEmpty(tail);
      } else {
        ReadEmittedMembers(members, tail);
        ReadBracketed(EmitMembers(members, tail));
      }
    case _ =>
      ReadEmittedScalar(v, tail);
  }

  lemma {:induction false} ReadEmittedItems(items: seq<Json>, tail: Printed)
    requires items != [] && forall w :: w in items ==> Spellable(w)
    ensures ReadItems(EmitItems(items, tail)) == Some((items, tail))
    decreases items, 0
  {
    if |items| == 1 {
      var more := [CLOSE_ARRAY] + tail;
      ReadEmittedValue(items[0], more);
      assert SkipSpace(more) == more && more[1..] == tail;
      assert items == [items[0]];
    } else {
      var rest := EmitItems(items[1..], tail);
      var more := [COMMA] + rest;
      ReadEmittedValue(items[0], more);
      assert SkipSpace(more) == more && more[1..] == rest;
      EmitItemsFirst(items[1..], tail);
      ReadEmittedItems(items[1..], tail);
      assert items == [items[0]] + items[1..];
    }
  }

  /** Reading up to the value of the first member of a printed object. */
  lemma ReadEmittedKey(m: Member, more: Printed)
    requires NoSplitPair(m.key)
    ensures var t := [QUOTE] + EmitBody(m.key, [COLON] + Emit(m.value, more));
            && ReadBody(t[1..]).Some? && ReadBody(t[1..]).value.0 == m.key
            && var u := SkipSpace(ReadBody(t[1..]).value.1);
            && u != [] && u[0] == COLON && SkipSpace(u[1..]) == Emit(m.value, more)
  {
    var value := Emit(m.value, more);
    var t := [QUOTE] + EmitBody(m.key, [COLON] + value);
    assert t[1..] == EmitBody(m.key, [COLON] + value);
    StringRoundTrip(m.key, [COLON] + value);
    assert SkipSpace([COLON] + value) == [COLON] + value;
    assert ([COLON] + value)[1..] == value;
    EmitNotSpace(m.value, more);
  }

  lemma {:induction false} ReadEmittedMembers(ms: seq<Member>, tail: Printed)
    requires ms != [] && forall m :: m in ms ==> NoSplitPair(m.key) && Spellable(m.value)
    ensures ReadMembers(EmitMembers(ms, tail)) == Some((ms, tail))
    decreases ms, 0
  {
    var m := ms[0];
    assert ms == [Member(m.key, m.value)] + ms[1..];
    if |ms| == 1 {
      var more := [CLOSE_OBJECT] + tail;
      ReadEmittedKey(m, more);
      ReadEmittedValue(m.value, more);
      assert SkipSpace(more) == more && more[1..] == tail;
      assert ms == [Member(m.key, m.value)];
    } else {
      var rest := EmitMembers(ms[1..], tail);
      var more := [COMMA] + rest;
      ReadEmittedKey(m, more);
      ReadEmittedValue(m.value, more);
      assert SkipSpace(more) == more && more[1..] == rest && SkipSpace(rest) == rest;
      ReadEmittedMembers(ms[1..], tail);
    }
  }

  // ---- nothing read from a document is unspellable ----

  lemma {:induction false} SkipSpaceScalars(t: Text)
    requires Scalars(t)
    ensures Scalars(SkipSpace(t))
  {
    if t != [] && IsSpace(t[0]) {
      SkipSpaceScalars(t[1..]);
    }
  }

  lemma {:induction false} ReadValueSpellable(t: Text)
    requires Scalars(t) && ReadValue(t).Some?
    ensures Spellable(ReadValue(t).value.0) && Scalars(ReadValue(t).value.1)
    decreases |t|, 0
  {
    if t[0] == OPEN_ARRAY {
      SkipSpaceScalars(t[1..]);
      var u := SkipSpace(t[1..]);
      if u != [] && u[0] != CLOSE_ARRAY {
        ReadItemsSpellable(u);
      }
    } else if t[0] == OPEN_OBJECT {
      SkipSpaceScalars(t[1..]);
      var u := SkipSpace(t[1..]);
      if u != [] && u[0] != CLOSE_OBJECT {
        ReadMembersSpellable(u);
      }
    } else if t[0] == QUOTE {
      ReadNeverSplits(t[1..]);
    }
  }

  lemma {:induction false} ReadItemsSpellable(t: Text)
    requires Scalars(t) && ReadItems(t).Some?
    ensures forall w :: w in ReadItems(t).value.0 ==> Spellable(w)
    ensures Scalars(ReadItems(t).value.1)
    decreases |t|, 1
  {
    ReadValueSpellable(t);
    var first := ReadValue(t).value;
    SkipSpaceScalars(first.1);
    var u := SkipSpace(first.1);
    if u[0] != CLOSE_ARRAY {
      SkipSpaceScalars(u[1..]);
      ReadItemsSpellable(SkipSpace(u[1..]));
    }
  }

  lemma {:induction false} ReadMembersSpellable(t: Text)
    requires Scalars(t) && ReadMembers(t).Some?
    ensures forall m :: m in ReadMembers(t).value.0 ==> NoSplitPair(m.key) && Spellable(m.value)
    ensures Scalars(ReadMembers(t).value.1)
    decreases |t|, 1
  {
    ReadNeverSplits(t[1..]);
    var key := ReadBody(t[1..]).value;
    SkipSpaceScalars(key.1);
    var u := SkipSpace(key.1);
    SkipSpaceScalars(u[1..]);
    ReadValueSpellable(SkipSpace(u[1..]));
    var value := ReadValue(SkipSpace(u[1..])).value;
    SkipSpaceScalars(value.1);
    var w := SkipSpace(value.1);
    if w[0] != CLOSE_OBJECT {
      SkipSpaceScalars(w[1..]);
      ReadMembersSpellable(SkipSpace(w[1..]));
    }
  }

  lemma LoadsSpellable(t: Text)
    requires Scalars(t) && Loads(t).Some?
    ensures Spellable(Loads(t).value) && Canonical(Loads(t).value)
  {
    SkipSpaceScalars(t);
    ReadValueSpellable(SkipSpace(t));
    CanonCanonical(ReadDocument(t).value);
  }

  // ---- the theorems ----

  lemma ReadDumped(v: Json)
    requires Spellable(Canon(v))
    ensures ReadDocument(Dumps(v)) == Some(Canon(v))
  {
    EmitNotSpace(Canon(v), []);
    ReadEmittedValue(Canon(v), []);
  }

  /** `json.loads` undoes `canonical_json_bytes` exactly on the values without split surrogate pairs. */
  lemma DumpsRoundTrip(v: Json)
    ensures Loads(Dumps(v)) == Some(Canon(v)) <==> Spellable(Canon(v))
  {
    if Spellable(Canon(v)) {
      ReadDumped(v);
      CanonIdempotent(v);
    } else if Loads(Dumps(v)).Some? {
      LoadsSpellable(Dumps(v));
    }
  }

  /** Equal canonical bytes, equal values. */
  lemma DumpsInjective(v: Json, w: Json)
    requires Spellable(Canon(v)) && Spellable(Canon(w))
    requires Dumps(v) == Dumps(w)
    ensures Canon(v) == Canon(w)
  {
    DumpsRoundTrip(v);
    DumpsRoundTrip(w);
  }

  /** An accepted document is the canonical text of its own syntax tree: keys ascend and never repeat,
      nothing stands between tokens, numbers have their shortest form. */
  lemma AcceptedIsCanonical(t: Text)
    requires Accepts(t)
    ensures ReadDocument(t) == Loads(t)
    ensures Canonical(Loads(t).value) && Spellable(Loads(t).value)
    ensures t == Emit(ReadDocument(t).value, [])
  {
    var v := Loads(t).value;
    LoadsSpellable(Dumps(v));
    CanonFixed(v);
    ReadDumped(v);
  }

  /** The accepted documents are exactly the printer's image. */
  lemma AcceptedIffImage(t: Text)
    ensures Accepts(t) <==> exists v :: Canonical(v) && Spellable(v) && Dumps(v) == t
  {
    if Accepts(t) {
      AcceptedIsCanonical(t);
    }
    if v :| Canonical(v) && Spellable(v) && Dumps(v) == t {
      CanonFixed(v);
      DumpsRoundTrip(v);
    }
  }

  /** The duplicate-key hook never changes the verdict of the re-print comparison. */
  lemma HookNeverMatters(t: Text)
    ensures AcceptsUnique(t) <==> Accepts(t)
  {
    if Accepts(t) {
      AcceptedIsCanonical(t);
      CanonicalUnique(ReadDocument(t).value);
    }
  }
}
