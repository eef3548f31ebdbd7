/**
 The code of a TOTP hash: dynamic truncation (section 5.3 of RFC 4226), then five characters of a
 26-letter alphabet.
 */
module Totp {
  import opened Basics

  const CHARS := "23456789BCDFGHJKMNPQRTVWXY"

  /** The low four bits of the last byte. */
  function Start(hash: seq<byte>): (start: nat)
    requires |hash| == 20
    ensures start + 4 <= |hash|  // the window stays inside the hash
  {
    hash[19] % 16
  }

  /** Four bytes, most significant first, without the top bit. */
  function Truncated(hash: seq<byte>): (n: nat)
    requires |hash| == 20
    ensures n < TWO31
  {
    var at := Start(hash);
    (((hash[at] * 256 + hash[at + 1]) * 256 + hash[at + 2]) * 256 + hash[at + 3]) % TWO31
  }

  /** The truncation: of the four bytes at the window, the top bit is dropped and the first counts most. */
  lemma TruncatedIs(hash: seq<byte>)
    requires |hash| == 20
    ensures var at := hash[19] % 16;
            var b0: int, b1: int, b2: int, b3: int := hash[at], hash[at + 1], hash[at + 2], hash[at + 3];
            Truncated(hash) == b0 % 128 * 0x100_0000 + b1 * 0x1_0000 + b2 * 0x100 + b3
  {
    var at := hash[19] % 16;
    var b0: int, b1: int, b2: int, b3: int := hash[at], hash[at + 1], hash[at + 2], hash[at + 3];
    assert b0 * 0x100_0000 == b0 / 128 * TWO31 + b0 % 128 * 0x100_0000;
    DropMultiples(b0 / 128, b0 % 128 * 0x100_0000 + b1 * 0x1_0000 + b2 * 0x100 + b3);
  }

  lemma DropMultiples(q: nat, r: nat)
    requires r < TWO31
    ensures (q * TWO31 + r) % TWO31 == r
  {}

  predicate IsDigits(ds: seq<nat>) { forall k | 0 <= k < |ds| :: ds[k] < 26 }

  /** The number that base-26 digits denote, least significant first. */
  function Value(ds: seq<nat>): nat { if ds == [] then 0 else ds[0] + 26 * Value(ds[1..]) }

  function Letter(d: nat): char
    requires d < 26
  {
    CHARS[d]
  }

  function Letters(ds: seq<nat>): (code: string)
    requires IsDigits(ds)
    ensures |code| == |ds|
  {
    seq(|ds|, k requires 0 <= k < |ds| => Letter(ds[k]))
  }

  /** The digits the loop peels off n. */
  function DigitsOf(n: nat, count: nat): (ds: seq<nat>)
    ensures |ds| == count && IsDigits(ds)
  {
    if count == 0 then [] else [n % 26] + DigitsOf(n / 26, count - 1)
  }

  /** GenerateTotpCode from the hash on. */
  method Code(hash: seq<byte>) returns (code: string)
    requires |hash| == 20
    ensures code == Letters(DigitsOf(Truncated(hash), 5))
  {
    code := Encode(Truncated(hash), 5);
  }

  /** The loop, for a code of any length. */
  method Encode(n: nat, count: nat) returns (code: string)
    ensures code == Letters(DigitsOf(n, count))
  {
    code := "";
    var fullcode := n;
    for i := 0 to count
      invariant code + Letters(DigitsOf(fullcode, count - i)) == Letters(DigitsOf(n, count))
    {
      ghost var rest := Letters(DigitsOf(fullcode / 26, count - i - 1));
      FirstLetter(fullcode, count - i);
      Reassociate(code, [Letter(fullcode % 26)], rest);
      code := code + [Letter(fullcode % 26)];
      fullcode := fullcode / 26;
    }
    assert code + Letters([]) == code;
  }

  lemma FirstLetter(n: nat, count: nat)
    requires count > 0
    ensures Letters(DigitsOf(n, count)) == [Letter(n % 26)] + Letters(DigitsOf(n / 26, count - 1))
  {
    var ds := DigitsOf(n, count);
    assert ds[0] == n % 26 && ds[1..] == DigitsOf(n / 26, count - 1);
  }

  function Power(k: nat): (p: nat)
    ensures p > 0
  {
    if k == 0 then 1 else 26 * Power(k - 1)
  }

  lemma {:induction false} DigitAt(n: nat, count: nat, k: nat)
    requires k < count
    ensures DigitsOf(n, count)[k] == n / Power(k) % 26
  {
    if k > 0 {
      DigitAt(n / 26, count - 1, k - 1);
      DivideTwice(n, Power(k - 1));
    }
  }

  lemma DivideTwice(n: nat, p: nat)
    requires p > 0
    ensures n / 26 / p == n / (26 * p)
  {
    var q, m := n / 26 / p, n / 26 % p;
    assert n / 26 == p * q + m;
    assert (26 * p) * q == 26 * (p * q);
    Quotient(n, 26 * p, q, 26 * m + n % 26);
  }

  /** Each character of a code is the letter of the alphabet that its base-26 digit of the truncated hash names. */
  lemma CodeLetter(hash: seq<byte>, k: nat)
    requires |hash| == 20 && k < 5
    ensures Letters(DigitsOf(Truncated(hash), 5))[k] == "23456789BCDFGHJKMNPQRTVWXY"[Truncated(hash) / Power(k) % 26]
  {
    DigitAt(Truncated(hash), 5, k);
  }

  /** Those are the last digits of n: it is their value plus a multiple of 26^count. */
  lemma {:induction false} DigitsValue(n: nat, count: nat) returns (q: nat)
    ensures n == Value(DigitsOf(n, count)) + Power(count) * q && Value(DigitsOf(n, count)) < Power(count)
  {
    if count == 0 {
      q := n;
    } else {
      q := DigitsValue(n / 26, count - 1);
      Carry(n, Value(DigitsOf(n / 26, count - 1)), Power(count - 1), q);
    }
  }

  lemma Carry(n: nat, v: nat, p: nat, q: nat)
    requires n / 26 == v + p * q
    ensures n == (n % 26 + 26 * v) + (26 * p) * q
  {
    assert (26 * p) * q == 26 * (p * q);
  }

  /** A code stands for the truncated hash modulo 26^5. */
  lemma CodeValue(n: nat)
    ensures Value(DigitsOf(n, 5)) == n % 11881376
  {
    var q := DigitsValue(n, 5);
    FifthPower();
    LastDigits(n, Value(DigitsOf(n, 5)), q);
  }

  lemma LastDigits(n: nat, v: nat, q: nat)
    requires n == v + 11881376 * q && v < 11881376
    ensures n % 11881376 == v
  {}

  lemma FifthPower()
    ensures Power(5) == 11881376
  {
    assert Power(1) == 26 && Power(2) == 676 && Power(3) == 17576 && Power(4) == 456976;
  }

  lemma {:induction false} ValueInjective(a: seq<nat>, b: seq<nat>)
    requires |a| == |b| && IsDigits(a) && IsDigits(b) && Value(a) == Value(b)
    ensures a == b
  {
    if a != [] {
      assert a[0] == Value(a) % 26 && b[0] == Value(b) % 26;
      ValueInjective(a[1..], b[1..]);
      assert a == [a[0]] + a[1..] && b == [b[0]] + b[1..];
    }
  }

  lemma CharsDiffer(i: nat, j: nat)
    requires i < 26 && j < 26 && Letter(i) == Letter(j)
    ensures i == j
  {}

  lemma LettersInjective(a: seq<nat>, b: seq<nat>)
    requires IsDigits(a) && IsDigits(b) && Letters(a) == Letters(b)
    ensures a == b
  {
    assert |a| == |Letters(a)| == |b|;
    forall k | 0 <= k < |a| ensures a[k] == b[k] {
      assert Letters(a)[k] == Letter(a[k]) && Letters(b)[k] == Letter(b[k]);
      CharsDiffer(a[k], b[k]);
    }
  }

  /** The codes of two hashes are equal exactly when their truncations agree modulo 26^5. */
  lemma SameCodeIff(h: seq<byte>, i: seq<byte>)
    requires |h| == 20 && |i| == 20
    ensures Letters(DigitsOf(Truncated(h), 5)) == Letters(DigitsOf(Truncated(i), 5))
            <==> Truncated(h) % 11881376 == Truncated(i) % 11881376
  {
    var a, b := DigitsOf(Truncated(h), 5), DigitsOf(Truncated(i), 5);
    CodeValue(Truncated(h));
    CodeValue(Truncated(i));
    if Letters(a) == Letters(b) { LettersInjective(a, b); }
    if Value(a) == Value(b) { ValueInjective(a, b); }
  }
}
