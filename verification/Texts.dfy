/** Text as the source sees it: a Python `str` is a sequence of code points, surrogates included. */
module Texts {

  type CodePoint = c: int | 0 <= c < 0x11_0000
  type Text = seq<CodePoint>

  /** A byte, and the file contents the stores hold. */
  type Byte = c: int | 0 <= c < 256
  type Bytes = seq<Byte>

  /** The printable ASCII range, the only characters canonical JSON ever emits. */
  type Printable = c: int | 0x20 <= c < 0x7f witness 0x20
  type Printed = seq<Printable>

  /** A Dafny string literal as a Python `str`. */
  function Lit(s: string): (t: Text)
    ensures |t| == |s|
  {
    seq(|s|, i requires 0 <= i < |s| => s[i] as int)
  }

  predicate Ascii(t: seq<int>) {
    forall i :: 0 <= i < |t| ==> t[i] < 0x80
  }

  /** Python's `<` on `str`: lexicographic by code point. */
  predicate Less(a: Text, b: Text) {
    b != [] && (a == [] || a[0] < b[0] || (a[0] == b[0] && Less(a[1..], b[1..])))
  }

  lemma {:induction false} LessIrreflexive(a: Text)
    ensures !Less(a, a)
  {
    if a != [] {
      LessIrreflexive(a[1..]);
    }
  }

  lemma {:induction false} LessTransitive(a: Text, b: Text, c: Text)
    requires Less(a, b) && Less(b, c)
    ensures Less(a, c)
  {
    if a != [] && a[0] == b[0] && b[0] == c[0] {
      LessTransitive(a[1..], b[1..], c[1..]);
    }
  }

  lemma {:induction false} LessTotal(a: Text, b: Text)
    ensures a == b || Less(a, b) || Less(b, a)
  {
    if a != [] && b != [] && a[0] == b[0] {
      LessTotal(a[1..], b[1..]);
      assert a == [a[0]] + a[1..] && b == [b[0]] + b[1..];
    }
  }

  lemma LessAsymmetric(a: Text, b: Text)
    requires Less(a, b)
    ensures a != b && !Less(b, a)
  {
    LessIrreflexive(a);
    if Less(b, a) {
      LessTransitive(a, b, a);
    }
  }
}
