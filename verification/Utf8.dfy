/** Strict UTF-8 decoding (RFC 3629 section 4), the first step of every canonical loader. */
module Utf8 {
  import opened Wrappers
  import opened Texts
  import opened JsonStrings
  import opened Json
  import opened JsonRoundTrip

  predicate Continuation(b: int) {
    0x80 <= b < 0xc0
  }

  /** The payload bits of a byte, its marker bits taken off. */
  function Bits(b: int, marker: int): int {
    b - marker
  }

  function Decode(b: Bytes): Option<Text> {
    if b == [] then Some([])
    else if b[0] < 0x80 then
      var rest :- Decode(b[1..]);
      Some([b[0]] + rest)
    else if 0xc2 <= b[0] < 0xe0 && |b| >= 2 && Continuation(b[1]) then
      var rest :- Decode(b[2..]);
      Some([Bits(b[0], 0xc0) * 0x40 + Bits(b[1], 0x80)] + rest)
    else if 0xe0 <= b[0] < 0xf0 && |b| >= 3 && Continuation(b[1]) && Continuation(b[2]) then
      var c := Bits(b[0], 0xe0) * 0x1000 + Bits(b[1], 0x80) * 0x40 + Bits(b[2], 0x80);
      if c < 0x800 || High(c) || Low(c) then None
      else
        var rest :- Decode(b[3..]);
        Some([c] + rest)
    else if 0xf0 <= b[0] < 0xf5 && |b| >= 4 && Continuation(b[1]) && Continuation(b[2]) && Continuation(b[3]) then
      var c := Bits(b[0], 0xf0) * 0x4_0000 + Bits(b[1], 0x80) * 0x1000 + Bits(b[2], 0x80) * 0x40 + Bits(b[3], 0x80);
      if c < 0x1_0000 || c >= 0x11_0000 then None
      else
        var rest :- Decode(b[4..]);
        Some([c] + rest)
    else None
  }

  lemma {:induction false} AsciiDecodesToItself(b: Bytes)
    requires Ascii(b)
    ensures Decode(b) == Some(b)
  {
    if b != [] {
      AsciiDecodesToItself(b[1..]);
      assert b == [b[0]] + b[1..];
    }
  }

  /** `data.decode("utf-8")`, `json.loads` and the comparison with the re-printed bytes. */
  function LoadCanonical(data: Bytes): Option<Json> {
    var text :- Decode(data);
    var v :- Loads(text);
    if Dumps(v) == data then Some(v) else None
  }

  /** The loader accepts exactly the canonical bytes of a value, and returns that value. */
  lemma LoadCanonicalIff(data: Bytes, v: Json)
    ensures LoadCanonical(data) == Some(v) <==> Canonical(v) && Spellable(v) && data == Dumps(v)
  {
    if LoadCanonical(data) == Some(v) {
      assert Ascii(data) by {
        forall i | 0 <= i < |data|
          ensures data[i] < 0x80
        {
          assert data[i] == Dumps(v)[i];
        }
      }
      AsciiDecodesToItself(data);
      AcceptedIsCanonical(data);
    }
    if Canonical(v) && Spellable(v) && data == Dumps(v) {
      AsciiDecodesToItself(data);
      CanonFixed(v);
      DumpsRoundTrip(v);
    }
  }
}
