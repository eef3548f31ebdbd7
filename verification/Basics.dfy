/** Shared vocabulary: results, bytes, little-endian numbers and short reads. */
module Basics {

  datatype Option<+T> = None | Some(value: T)

  /** What a Go call ends in: a value, an error return, or a run-time panic. */
  datatype Outcome<+T> = Ok(value: T) | Err | Panic

  type byte = x: int | 0 <= x < 256

  const TWO31: int := 0x8000_0000
  const TWO32: int := 0x1_0000_0000
  const TWO64: int := 0x1_0000_0000_0000_0000

  function Pow256(w: nat): (p: int)
    ensures p >= 1
  {
    if w == 0 then 1 else 256 * Pow256(w - 1)
  }

  /** The w low-order bytes of x, least significant first. */
  function LE(x: nat, w: nat): (b: seq<byte>)
    ensures |b| == w
  {
    if w == 0 then [] else [x % 256] + LE(x / 256, w - 1)
  }

  /** The number a little-endian byte string denotes. */
  function UnLE(b: seq<byte>): (x: nat)
    ensures x < Pow256(|b|)
  {
    if b == [] then 0 else b[0] + 256 * UnLE(b[1..])
  }

  lemma {:induction false} UnLELE(x: nat, w: nat)
    requires x < Pow256(w)
    ensures UnLE(LE(x, w)) == x
  {
    if w > 0 {
      UnLELE(x / 256, w - 1);
      assert LE(x, w)[1..] == LE(x / 256, w - 1);
    }
  }

  /** Every byte string is the little-endian form of the number it denotes. */
  lemma {:induction false} LEUnLE(b: seq<byte>)
    ensures LE(UnLE(b), |b|) == b
  {
    if b != [] {
      LEUnLE(b[1..]);
      assert UnLE(b) % 256 == b[0] && UnLE(b) / 256 == UnLE(b[1..]);
    }
  }

  /** Byte k counts the multiples of 256^k: the first byte is the least significant one. */
  lemma {:induction false} LEByte(x: nat, w: nat, k: nat)
    requires k < w
    ensures LE(x, w)[k] == x / Pow256(k) % 256
  {
    if k > 0 {
      LEByte(x / 256, w - 1, k - 1);
      DivDiv(x, Pow256(k - 1));
    }
  }

  lemma UnLEByte(b: seq<byte>, k: nat)
    requires k < |b|
    ensures UnLE(b) / Pow256(k) % 256 == b[k]
  {
    LEUnLE(b);
    LEByte(UnLE(b), |b|, k);
  }

  lemma DivDiv(x: nat, n: nat)
    requires n > 0
    ensures x / 256 / n == x / (256 * n)
  {
    var q, m := x / 256 / n, x / 256 % n;
    assert x / 256 == n * q + m;
    assert (256 * n) * q == 256 * (n * q);
    Quotient(x, 256 * n, q, 256 * m + x % 256);
  }

  lemma Quotient(x: nat, n: nat, q: nat, r: nat)
    requires r < n && x == n * q + r
    ensures x / n == q
  {
    assert x == n * (x / n) + x % n;
    assert n * (x / n) - n * q == n * (x / n - q);
    Multiples(n, x / n - q);
  }

  lemma Multiples(n: nat, d: int)
    ensures d >= 1 ==> n * d >= n
    ensures d <= -1 ==> n * d + n <= 0
  {}

  lemma Pow256Values()
    ensures Pow256(0) == 1 && Pow256(3) == 0x100_0000
    ensures Pow256(1) == 0x100 && Pow256(2) == 0x1_0000
    ensures Pow256(4) == TWO32 && Pow256(8) == TWO64
  {
    assert Pow256(2) == 256 * Pow256(1);
    assert Pow256(3) == 256 * Pow256(2);
    assert Pow256(4) == 256 * Pow256(3);
    assert Pow256(5) == 256 * Pow256(4);
    assert Pow256(6) == 256 * Pow256(5);
    assert Pow256(7) == 256 * Pow256(6);
  }

  lemma Reassociate<T>(a: seq<T>, b: seq<T>, c: seq<T>)
    ensures (a + b) + c == a + (b + c)
  {}

  lemma Halves<T>(a: seq<T>, b: seq<T>)
    ensures (a + b)[..|a|] == a && (a + b)[|a|..] == b
  {}

  /** The concatenation of a list of strings of bytes (or of anything else). */
  function Flatten<T>(ss: seq<seq<T>>): seq<T> {
    if ss == [] then [] else ss[0] + Flatten(ss[1..])
  }

  lemma {:induction false} FlattenAppend<T>(ss: seq<seq<T>>, ts: seq<seq<T>>)
    ensures Flatten(ss + ts) == Flatten(ss) + Flatten(ts)
  {
    if ss == [] {
      assert ss + ts == ts;
    } else {
      FlattenAppend(ss[1..], ts);
      assert (ss + ts)[1..] == ss[1..] + ts;
      Reassociate(ss[0], Flatten(ss[1..]), Flatten(ts));
    }
  }

  lemma FlattenOne<T>(ss: seq<seq<T>>, t: seq<T>)
    ensures Flatten(ss + [t]) == Flatten(ss) + t
  {
    FlattenAppend(ss, [t]);
    assert Flatten([t]) == t + Flatten<T>([]) == t;
  }
}
