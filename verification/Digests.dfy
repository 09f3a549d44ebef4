/** What is assumed of SHA-256, here a function `sha` from bytes to text, and that the assumptions can be met. */
module Digests {
  import opened Texts
  import opened JsonStrings
  import opened Manifest

  /** What `hexdigest` always returns. */
  ghost predicate HexDigests(sha: Bytes -> Text) {
    forall data :: IsDigest(sha(data))
  }

  /** No two of these byte strings share a digest. */
  ghost predicate CollisionFree(sha: Bytes -> Text, known: iset<Bytes>) {
    forall a, b :: a in known && b in known && sha(a) == sha(b) ==> a == b
  }

  ghost function Strings(known: set<Bytes>): iset<Bytes> {
    iset b | b in known
  }

  // ---- a digest for any given byte strings ----

  function Sixteens(k: nat): (r: nat)
    ensures r >= 1
  {
    if k == 0 then 1 else 16 * Sixteens(k - 1)
  }

  /** The last `k` hexadecimal digits of a number. */
  function HexText(n: nat, k: nat): Text {
    if k == 0 then [] else HexText(n / 16, k - 1) + [HexDigit(n % 16)]
  }

  lemma {:induction false} HexTextShape(n: nat, k: nat)
    ensures |HexText(n, k)| == k
    ensures forall i :: 0 <= i < k ==> 48 <= HexText(n, k)[i] <= 57 || 97 <= HexText(n, k)[i] <= 102
  {
    if k > 0 {
      HexTextShape(n / 16, k - 1);
    }
  }

  lemma {:induction false} HexTextInjective(m: nat, n: nat, k: nat)
    requires m < Sixteens(k) && n < Sixteens(k) && HexText(m, k) == HexText(n, k)
    ensures m == n
  {
    if k > 0 {
      var x := HexText(m, k);
      HexTextShape(m / 16, k - 1);
      HexTextShape(n / 16, k - 1);
      assert x[..k - 1] == HexText(m / 16, k - 1) && x[..k - 1] == HexText(n / 16, k - 1);
      assert x[k - 1] == HexDigit(m % 16) == HexDigit(n % 16);
      HexTextInjective(m / 16, n / 16, k - 1);
    }
  }

  /** The digest that numbers byte strings. */
  function NumberDigest(number: Bytes -> nat): Bytes -> Text {
    (data: Bytes) => HexText(number(data), DIGEST_LENGTH)
  }

  lemma NumbersAreDigests(number: Bytes -> nat, known: set<Bytes>)
    requires forall a :: a in known ==> number(a) < Sixteens(DIGEST_LENGTH)
    requires forall a, b :: a in known && b in known && number(a) == number(b) ==> a == b
    ensures HexDigests(NumberDigest(number)) && CollisionFree(NumberDigest(number), Strings(known))
  {
    hide HexText, Sixteens;
    var sha := NumberDigest(number);
    forall data: Bytes
      ensures IsDigest(sha(data))
    {
      HexTextShape(number(data), DIGEST_LENGTH);
    }
    forall a, b | a in known && b in known && sha(a) == sha(b)
      ensures a == b
    {
      HexTextInjective(number(a), number(b), DIGEST_LENGTH);
    }
  }

  /** The members of a set, numbered from 0. */
  lemma {:induction false} Numbering(known: set<Bytes>) returns (number: Bytes -> nat)
    ensures forall a :: a in known ==> number(a) < |known|
    ensures forall a, b :: a in known && b in known && number(a) == number(b) ==> a == b
    decreases |known|
  {
    if known == {} {
      number := (data: Bytes) => 0;
    } else {
      var x :| x in known;
      var rest := Numbering(known - {x});
      number := (data: Bytes) => if data == x then |known| - 1 else rest(data);
      forall a | a in known
        ensures number(a) < |known| && (a != x ==> a in known - {x} && number(a) < |known| - 1)
      {
      }
    }
  }

  /** The two assumptions made of the digest are consistent, for any byte strings there are digests enough for. */
  lemma DigestExists(known: set<Bytes>)
    requires |known| <= Sixteens(DIGEST_LENGTH)
    ensures exists sha: Bytes -> Text :: HexDigests(sha) && CollisionFree(sha, Strings(known))
  {
    hide Sixteens;
    var number := Numbering(known);
    NumbersAreDigests(number, known);
  }

  /** A digest that sees no more than whether the length is odd. */
  const PARITY_DIGEST: Bytes -> Text := NumberDigest((data: Bytes) => |data| % 2)

  lemma ParityTellsApart(a: Bytes, b: Bytes)
    requires |a| % 2 != |b| % 2
    ensures HexDigests(PARITY_DIGEST) && CollisionFree(PARITY_DIGEST, iset{a, b})
  {
    hide HexText;
    NumbersAreDigests((data: Bytes) => |data| % 2, {a, b});
    assert Strings({a, b}) == iset{a, b};
  }
}
