/** Canonical QNTY JSON on float-free values: what `json.dumps(sort_keys, compact, ensure_ascii)` prints
    and what `json.loads` reads (RFC 8259 sections 2 to 7). */
module Json {
  import opened Wrappers
  import opened Texts
  import opened Decimal
  import opened JsonStrings

  /** A float-free value. An object is the list of its key-value pairs in document order. */
  datatype Json =
    | Null
    | Bool(b: bool)
    | Int(i: int)
    | Str(s: Text)
    | Arr(items: seq<Json>)
    | Obj(members: seq<Member>)

  datatype Member = Member(key: Text, value: Json)

  const OPEN_OBJECT := 123
  const CLOSE_OBJECT := 125
  const OPEN_ARRAY := 91
  const CLOSE_ARRAY := 93
  const COMMA := 44
  const COLON := 58
  const MINUS := 45
  const ZERO := 48

  const NULL_TOKEN: Printed := [110, 117, 108, 108]
  const TRUE_TOKEN: Printed := [116, 114, 117, 101]
  const FALSE_TOKEN: Printed := [102, 97, 108, 115, 101]

  // ---- a dict: sorted keys, the last value of a repeated key wins ----

  function Insert(ms: seq<Member>, m: Member): seq<Member> {
    if ms == [] then [m]
    else if ms[0].key == m.key then [m] + ms[1..]
    else if Less(m.key, ms[0].key) then [m] + ms
    else [ms[0]] + Insert(ms[1..], m)
  }

  function Collapse(ms: seq<Member>): seq<Member> {
    if ms == [] then [] else Insert(Collapse(ms[..|ms| - 1]), ms[|ms| - 1])
  }

  /** The value as a tree of dicts, each listed by ascending key. */
  function Canon(v: Json): Json
    decreases v, 0
  {
    match v
    case Arr(items) => Arr(CanonItems(items))
    case Obj(members) => Obj(Collapse(CanonMembers(members)))
    case _ => v
  }

  function CanonItems(items: seq<Json>): (r: seq<Json>)
    ensures |r| == |items|
    decreases items, 0
  {
    if items == [] then [] else [Canon(items[0])] + CanonItems(items[1..])
  }

  function CanonMembers(ms: seq<Member>): (r: seq<Member>)
    ensures |r| == |ms| && forall i :: 0 <= i < |ms| ==> r[i].key == ms[i].key
    decreases ms, 0
  {
    if ms == [] then [] else [Member(ms[0].key, Canon(ms[0].value))] + CanonMembers(ms[1..])
  }

  predicate SortedKeys(ms: seq<Member>) {
    forall i, j :: 0 <= i < j < |ms| ==> Less(ms[i].key, ms[j].key)
  }

  predicate DistinctKeys(ms: seq<Member>) {
    forall i, j :: 0 <= i < j < |ms| ==> ms[i].key != ms[j].key
  }

  predicate Canonical(v: Json) {
    match v
    case Arr(items) => forall w | w in items :: Canonical(w)
    case Obj(members) => SortedKeys(members) && forall m | m in members :: Canonical(m.value)
    case _ => true
  }

  /** Every key and string can be spelled by the escape syntax. */
  predicate Spellable(v: Json) {
    match v
    case Str(s) => NoSplitPair(s)
    case Arr(items) => forall w | w in items :: Spellable(w)
    case Obj(members) => forall m | m in members :: NoSplitPair(m.key) && Spellable(m.value)
    case _ => true
  }

  /** The test of `object_pairs_hook=_reject_duplicate_json_keys`, applied to every object of the tree. */
  predicate UniqueKeys(v: Json) {
    match v
    case Arr(items) => forall w | w in items :: UniqueKeys(w)
    case Obj(members) => DistinctKeys(members) && forall m | m in members :: UniqueKeys(m.value)
    case _ => true
  }

  // ---- printing: the text of a value, followed by `tail` ----

  function Numeral(i: int): Printed {
    if i < 0 then [MINUS] + Digits(-i) else Digits(i)
  }

  function Emit(v: Json, tail: Printed): (r: Printed)
    ensures r != []
    decreases v, 0
  {
    match v
    case Null => NULL_TOKEN + tail
    case Bool(b) => (if b then TRUE_TOKEN else FALSE_TOKEN) + tail
    case Int(i) => Numeral(i) + tail
    case Str(s) => [QUOTE] + EmitBody(s, tail)
    case Arr(items) =>
      if items == [] then [OPEN_ARRAY, CLOSE_ARRAY] + tail else [OPEN_ARRAY] + EmitItems(items, tail)
    case Obj(members) =>
      if members == [] then [OPEN_OBJECT, CLOSE_OBJECT] + tail else [OPEN_OBJECT] + EmitMembers(members, tail)
  }

  function EmitItems(items: seq<Json>, tail: Printed): (r: Printed)
    requires items != []
    ensures r != []
    decreases items, 0
  {
    Emit(items[0], if |items| == 1 then [CLOSE_ARRAY] + tail else [COMMA] + EmitItems(items[1..], tail))
  }

  function EmitMembers(ms: seq<Member>, tail: Printed): (r: Printed)
    requires ms != []
    ensures r != [] && r[0] == QUOTE
    decreases ms, 0
  {
    var more := if |ms| == 1 then [CLOSE_OBJECT] + tail else [COMMA] + EmitMembers(ms[1..], tail);
    [QUOTE] + EmitBody(ms[0].key, [COLON] + Emit(ms[0].value, more))
  }

  /** `canonical_json_bytes` */
  function Dumps(v: Json): (r: Printed)
    ensures r != []
  {
    Emit(Canon(v), [])
  }

  // ---- reading ----

  predicate IsSpace(c: int) {
    c == 32 || c == 9 || c == 10 || c == 13
  }

  function SkipSpace(t: Text): (r: Text)
    ensures |r| <= |t|
  {
    if t != [] && IsSpace(t[0]) then SkipSpace(t[1..]) else t
  }

  /** A fraction or an exponent follows: the token is a float, which this model does not read. */
  predicate FloatTail(t: Text) {
    || (|t| >= 2 && t[0] == 46 && IsDigit(t[1]))
    || (|t| >= 2 && (t[0] == 101 || t[0] == 69) && IsDigit(t[1]))
    || (|t| >= 3 && (t[0] == 101 || t[0] == 69) && (t[1] == 43 || t[1] == 45) && IsDigit(t[2]))
  }

  function ReadNatural(t: Text): (r: Option<(nat, Text)>)
    ensures r.Some? ==> |r.value.1| < |t|
  {
    if t == [] || !IsDigit(t[0]) then None
    else
      var k := if t[0] == ZERO then 1 else DigitSpan(t);
      if FloatTail(t[k..]) then None else Some((Value(t[..k]), t[k..]))
  }

  function ReadNumber(t: Text): (r: Option<(Json, Text)>)
    ensures r.Some? ==> |r.value.1| < |t|
  {
    if t != [] && t[0] == MINUS then
      var n :- ReadNatural(t[1..]);
      Some((Int(0 - (n.0 as int)), n.1))
    else
      var n :- ReadNatural(t);
      Some((Int(n.0), n.1))
  }

  /** A string, a literal or a number. */
  function ReadScalar(t: Text): (r: Option<(Json, Text)>)
    requires t != []
    ensures r.Some? ==> |r.value.1| < |t|
  {
    if t[0] == QUOTE then
      var s :- ReadBody(t[1..]);
      Some((Str(s.0), s.1))
    else if NULL_TOKEN <= t then Some((Null, t[4..]))
    else if TRUE_TOKEN <= t then Some((Bool(true), t[4..]))
    else if FALSE_TOKEN <= t then Some((Bool(false), t[5..]))
    else ReadNumber(t)
  }

  /** One value at the front of the text, and what follows it. */
  function ReadValue(t: Text): (r: Option<(Json, Text)>)
    ensures r.Some? ==> |r.value.1| < |t|
    decreases |t|, 0
  {
    if t == [] then None
    else if t[0] == OPEN_ARRAY then
      var u := SkipSpace(t[1..]);
      if u != [] && u[0] == CLOSE_ARRAY then Some((Arr([]), u[1..]))
      else
        var items :- ReadItems(u);
        Some((Arr(items.0), items.1))
    else if t[0] == OPEN_OBJECT then
      var u := SkipSpace(t[1..]);
      if u != [] && u[0] == CLOSE_OBJECT then Some((Obj([]), u[1..]))
      else
        var ms :- ReadMembers(u);
        Some((Obj(ms.0), ms.1))
    else ReadScalar(t)
  }

  function ReadItems(t: Text): (r: Option<(seq<Json>, Text)>)
    ensures r.Some? ==> |r.value.1| < |t|
    decreases |t|, 1
  {
    var first :- ReadValue(t);
    var u := SkipSpace(first.1);
    if u == [] then None
    else if u[0] == CLOSE_ARRAY then Some(([first.0], u[1..]))
    else if u[0] != COMMA then None
    else
      var more :- ReadItems(SkipSpace(u[1..]));
      Some(([first.0] + more.0, more.1))
  }

  function ReadMembers(t: Text): (r: Option<(seq<Member>, Text)>)
    ensures r.Some? ==> |r.value.1| < |t|
    decreases |t|, 1
  {
    if t == [] || t[0] != QUOTE then None
    else
      var key :- ReadBody(t[1..]);
      var u := SkipSpace(key.1);
      if u == [] || u[0] != COLON then None
      else
        var value :- ReadValue(SkipSpace(u[1..]));
        var w := SkipSpace(value.1);
        var m := Member(key.0, value.0);
        if w == [] then None
        else if w[0] == CLOSE_OBJECT then Some(([m], w[1..]))
        else if w[0] != COMMA then None
        else
          var more :- ReadMembers(SkipSpace(w[1..]));
          Some(([m] + more.0, more.1))
  }

  /** The syntax tree of a whole document: one value, surrounded by nothing but space. */
  function ReadDocument(t: Text): Option<Json> {
    var v :- ReadValue(SkipSpace(t));
    if SkipSpace(v.1) == [] then Some(v.0) else None
  }

  /** `json.loads`: every object becomes a dict. */
  function Loads(t: Text): Option<Json> {
    var v :- ReadDocument(t);
    Some(Canon(v))
  }

  /** `json.loads(..., object_pairs_hook=_reject_duplicate_json_keys)` */
  function LoadsUnique(t: Text): Option<Json> {
    var v :- ReadDocument(t);
    if UniqueKeys(v) then Some(Canon(v)) else None
  }

  /** The re-print comparison every canonical loader applies. */
  predicate Accepts(t: Text) {
    Loads(t).Some? && Dumps(Loads(t).value) == t
  }

  predicate AcceptsUnique(t: Text) {
    LoadsUnique(t).Some? && Dumps(LoadsUnique(t).value) == t
  }

  /** `_reject_duplicate_json_keys`: the pairs of one object, as a dict, unless a key comes twice. */
  method RejectDuplicateKeys(pairs: seq<Member>) returns (r: Option<map<Text, Json>>)
    ensures r.Some? <==> DistinctKeys(pairs)
    ensures r.Some? ==> forall i :: 0 <= i < |pairs| ==> pairs[i].key in r.value && r.value[pairs[i].key] == pairs[i].value
    ensures r.Some? ==> forall k :: k in r.value ==> exists i :: 0 <= i < |pairs| && pairs[i].key == k
  {
    var result: map<Text, Json> := map[];
    for n := 0 to |pairs|
      invariant DistinctKeys(pairs[..n])
      invariant forall i :: 0 <= i < n ==> pairs[i].key in result && result[pairs[i].key] == pairs[i].value
      invariant forall k :: k in result ==> exists i :: 0 <= i < n && pairs[i].key == k
    {
      if pairs[n].key in result {
        return None;
      }
      result := result[pairs[n].key := pairs[n].value];
    }
    assert pairs[..|pairs|] == pairs;
    return Some(result);
  }
}
