/**
 SymmetricEncrypt and SymmetricDecrypt: an ECB-wrapped IV, then CBC (section 6.2 of NIST SP 800-38A)
 over PKCS7 padding (section 6.3 of RFC 5652), worked in place on byte arrays. The block size is 16.
 */
module Crypto {
  import opened Basics

  /** cipher.Block, what AES with one key does to a block, and the combination of bytes CBC chains with. */
  datatype Cipher = Cipher(enc: seq<byte> -> seq<byte>, dec: seq<byte> -> seq<byte>, xor: (byte, byte) -> byte)

  predicate Inverts(c: Cipher, b: seq<byte>) {
    |b| == 16 ==> |c.enc(b)| == 16 && |c.dec(b)| == 16 && c.dec(c.enc(b)) == b && c.enc(c.dec(b)) == b
  }

  predicate Cancels(xor: (byte, byte) -> byte, a: byte, b: byte) { xor(xor(a, b), b) == a }

  /** An invertible permutation of 16-byte blocks, and a combination that cancels itself. */
  ghost predicate IsCipher(c: Cipher) {
    (forall b :: Inverts(c, b)) && (forall a, b :: Cancels(c.xor, a, b))
  }

  predicate KeepsBlocks(f: seq<byte> -> seq<byte>, b: seq<byte>) { |b| == 16 ==> |f(b)| == 16 }

  // ----- exclusive or -----

  function Pow2(n: nat): (p: int)
    ensures p >= 1
  {
    if n == 0 then 1 else 2 * Pow2(n - 1)
  }

  /** Bit by bit, least significant first. */
  function XorBits(a: nat, b: nat, n: nat): (r: nat)
    ensures r < Pow2(n)
  {
    if n == 0 then 0 else (if a % 2 == b % 2 then 0 else 1) + 2 * XorBits(a / 2, b / 2, n - 1)
  }

  lemma {:induction false} XorBitsTwice(a: nat, b: nat, n: nat)
    requires a < Pow2(n)
    ensures XorBits(XorBits(a, b, n), b, n) == a
  {
    if n > 0 {
      var r := XorBits(a, b, n);
      assert r % 2 == (if a % 2 == b % 2 then 0 else 1) && r / 2 == XorBits(a / 2, b / 2, n - 1);
      XorBitsTwice(a / 2, b / 2, n - 1);
    }
  }

  function XorByte(a: byte, b: byte): byte {
    assert Pow2(8) == 256 by { assert Pow2(4) == 16; assert Pow2(6) == 64; }
    XorBits(a, b, 8)
  }

  /** The exclusive or of bytes is such a combination. */
  lemma XorByteCancels(a: byte, b: byte)
    ensures Cancels(XorByte, a, b)
  {
    assert Pow2(8) == 256 by { assert Pow2(4) == 16; assert Pow2(6) == 64; }
    XorBitsTwice(a, b, 8);
  }

  /** So a block function and its inverse make a cipher with it, and make one only if they are inverse. */
  lemma XorMakesCipher(enc: seq<byte> -> seq<byte>, dec: seq<byte> -> seq<byte>)
    ensures IsCipher(Cipher(enc, dec, XorByte)) <==> forall b :: Inverts(Cipher(enc, dec, XorByte), b)
  {
    forall a, b ensures Cancels(XorByte, a, b) { XorByteCancels(a, b); }
  }

  /** Bit k of it is set exactly if one of the two bits k is, and the other is not. */
  lemma XorByteBit(a: byte, b: byte, k: nat)
    requires k < 8
    ensures XorByte(a, b) / Pow2(k) % 2 == if a / Pow2(k) % 2 == b / Pow2(k) % 2 then 0 else 1
  {
    assert Pow2(8) == 256 by { assert Pow2(4) == 16; assert Pow2(6) == 64; }
    XorBit(a, b, 8, k);
  }

  lemma {:induction false} XorBit(a: nat, b: nat, n: nat, k: nat)
    requires k < n
    ensures XorBits(a, b, n) / Pow2(k) % 2 == if a / Pow2(k) % 2 == b / Pow2(k) % 2 then 0 else 1
  {
    var r := XorBits(a, b, n);
    assert r % 2 == (if a % 2 == b % 2 then 0 else 1) && r / 2 == XorBits(a / 2, b / 2, n - 1);
    if k > 0 {
      XorBit(a / 2, b / 2, n - 1, k - 1);
      HalfTwice(r, k);
      HalfTwice(a, k);
      HalfTwice(b, k);
    }
  }

  lemma HalfTwice(x: nat, k: nat)
    requires k > 0
    ensures x / Pow2(k) == x / 2 / Pow2(k - 1)
  {
    var p := Pow2(k - 1);
    var q, m := x / 2 / p, x / 2 % p;
    assert x / 2 == p * q + m;
    assert (2 * p) * q == 2 * (p * q);
    Quotient(x, 2 * p, q, 2 * m + x % 2);
  }

  function Xor(c: Cipher, a: seq<byte>, b: seq<byte>): (r: seq<byte>)
    requires |a| == |b|
    ensures |r| == |a|
  {
    seq<byte>(|a|, i requires 0 <= i < |a| => c.xor(a[i], b[i]))
  }

  lemma XorTwice(c: Cipher, a: seq<byte>, b: seq<byte>)
    requires IsCipher(c) && |a| == |b|
    ensures Xor(c, Xor(c, a, b), b) == a
  {
    forall i | 0 <= i < |a| ensures Xor(c, Xor(c, a, b), b)[i] == a[i] {
      assert Cancels(c.xor, a[i], b[i]);
    }
  }

  // ----- the modes, on values -----

  /** Block number j. */
  function Block(s: seq<byte>, j: nat): (b: seq<byte>)
    requires 16 * j + 16 <= |s|
    ensures |b| == 16
  {
    s[16 * j..16 * j + 16]
  }

  /** The block before block j: the initialisation vector before the first. */
  function Before(iv: seq<byte>, s: seq<byte>, j: nat): (b: seq<byte>)
    requires |iv| == 16 && 16 * j <= |s|
    ensures |b| == 16
  {
    if j == 0 then iv else Block(s, j - 1)
  }

  /** ECB of the first n blocks: every block on its own. */
  ghost function Ecb(f: seq<byte> -> seq<byte>, s: seq<byte>, n: nat): (r: seq<byte>)
    requires 16 * n <= |s| && forall b :: KeepsBlocks(f, b)
    ensures |r| == 16 * n
  {
    if n == 0 then [] else
      assert KeepsBlocks(f, Block(s, n - 1));
      Ecb(f, s, n - 1) + f(Block(s, n - 1))
  }

  lemma {:induction false} EcbBlock(f: seq<byte> -> seq<byte>, s: seq<byte>, n: nat, j: nat)
    requires j < n && 16 * n <= |s| && forall b :: KeepsBlocks(f, b)
    ensures Block(Ecb(f, s, n), j) == f(Block(s, j))
  {
    assert KeepsBlocks(f, Block(s, n - 1));
    if j < n - 1 {
      EcbBlock(f, s, n - 1, j);
      assert Block(Ecb(f, s, n), j) == Block(Ecb(f, s, n - 1), j);
    }
  }

  predicate Undoes(g: seq<byte> -> seq<byte>, f: seq<byte> -> seq<byte>, b: seq<byte>) {
    |b| == 16 ==> g(f(b)) == b
  }

  /** ECB with a block function and with its inverse undo each other, for any number of blocks. */
  lemma {:induction false} EcbInverse(f: seq<byte> -> seq<byte>, g: seq<byte> -> seq<byte>, s: seq<byte>,
                                      n: nat, k: nat)
    requires k <= n && 16 * n <= |s| && (forall b :: KeepsBlocks(f, b)) && (forall b :: KeepsBlocks(g, b))
    requires forall b :: Undoes(g, f, b)
    ensures Ecb(g, Ecb(f, s, n), k) == s[..16 * k]
  {
    if k > 0 {
      EcbInverse(f, g, s, n, k - 1);
      EcbBlock(f, s, n, k - 1);
      assert Undoes(g, f, Block(s, k - 1));
      assert s[..16 * k] == s[..16 * (k - 1)] + Block(s, k - 1);
    }
  }

  /** CBC encryption of the first n blocks: each is xored with the ciphertext before it. */
  ghost function CbcEnc(c: Cipher, iv: seq<byte>, s: seq<byte>, n: nat): (r: seq<byte>)
    requires IsCipher(c) && |iv| == 16 && 16 * n <= |s|
    ensures |r| == 16 * n
    decreases n
  {
    if n == 0 then [] else
      var r := CbcEnc(c, iv, s, n - 1);
      assert Inverts(c, Xor(c, Block(s, n - 1), Before(iv, r, n - 1)));
      r + c.enc(Xor(c, Block(s, n - 1), Before(iv, r, n - 1)))
  }

  /** CBC decryption of the first n blocks: each decrypted block is xored with the ciphertext before it. */
  ghost function CbcDec(c: Cipher, iv: seq<byte>, s: seq<byte>, n: nat): (r: seq<byte>)
    requires IsCipher(c) && |iv| == 16 && 16 * n <= |s|
    ensures |r| == 16 * n
    decreases n
  {
    if n == 0 then [] else
      assert Inverts(c, Block(s, n - 1));
      CbcDec(c, iv, s, n - 1) + Xor(c, c.dec(Block(s, n - 1)), Before(iv, s, n - 1))
  }

  /** Every block of the ciphertext, by the ciphertext before it. */
  lemma {:induction false} CbcBlock(c: Cipher, iv: seq<byte>, s: seq<byte>, n: nat, j: nat)
    requires IsCipher(c) && |iv| == 16 && j < n && 16 * n <= |s|
    ensures var r := CbcEnc(c, iv, s, n); Block(r, j) == c.enc(Xor(c, Block(s, j), Before(iv, r, j)))
  {
    var r, shorter := CbcEnc(c, iv, s, n), CbcEnc(c, iv, s, n - 1);
    var last := c.enc(Xor(c, Block(s, n - 1), Before(iv, shorter, n - 1)));
    assert Inverts(c, Xor(c, Block(s, n - 1), Before(iv, shorter, n - 1)));
    LastBlock(iv, shorter, last, n - 1, j);
    if j < n - 1 { CbcBlock(c, iv, s, n - 1, j); }
  }

  /** Appending a block changes no earlier one. */
  lemma LastBlock(iv: seq<byte>, r: seq<byte>, last: seq<byte>, n: nat, j: nat)
    requires |iv| == 16 && |r| == 16 * n && |last| == 16 && j <= n
    ensures Before(iv, r + last, j) == Before(iv, r, j)
    ensures if j < n then Block(r + last, j) == Block(r, j) else Block(r + last, j) == last
  {}

  /** Block j of r is block j of s, encrypted in CBC. */
  predicate Chained(c: Cipher, iv: seq<byte>, s: seq<byte>, r: seq<byte>, j: nat)
    requires |iv| == 16 && 16 * j + 16 <= |s| && 16 * j + 16 <= |r|
  {
    Block(r, j) == c.enc(Xor(c, Block(s, j), Before(iv, r, j)))
  }

  lemma {:induction false} CbcDecOf(c: Cipher, iv: seq<byte>, s: seq<byte>, r: seq<byte>, k: nat)
    requires IsCipher(c) && |iv| == 16 && 16 * k <= |s| && 16 * k <= |r|
    requires forall j | 0 <= j < k :: Chained(c, iv, s, r, j)
    ensures CbcDec(c, iv, r, k) == s[..16 * k]
  {
    if k > 0 {
      CbcDecOf(c, iv, s, r, k - 1);
      assert Chained(c, iv, s, r, k - 1);
      BlockBack(c, Block(s, k - 1), Before(iv, r, k - 1));
      OneBlockMore(s, k - 1);
    }
  }

  /** CBC decryption undoes CBC encryption, for any number of blocks. */
  lemma CbcInverse(c: Cipher, iv: seq<byte>, s: seq<byte>, n: nat, k: nat)
    requires IsCipher(c) && |iv| == 16 && k <= n && 16 * n <= |s|
    ensures CbcDec(c, iv, CbcEnc(c, iv, s, n), k) == s[..16 * k]
  {
    var r := CbcEnc(c, iv, s, n);
    forall j | 0 <= j < k ensures Chained(c, iv, s, r, j) {
      CbcBlock(c, iv, s, n, j);
    }
    CbcDecOf(c, iv, s, r, k);
  }

  lemma OneBlockMore(s: seq<byte>, k: nat)
    requires 16 * k + 16 <= |s|
    ensures s[..16 * (k + 1)] == s[..16 * k] + Block(s, k)
  {}

  lemma BlockBack(c: Cipher, b: seq<byte>, prev: seq<byte>)
    requires IsCipher(c) && |b| == 16 && |prev| == 16
    ensures |c.dec(c.enc(Xor(c, b, prev)))| == 16 && Xor(c, c.dec(c.enc(Xor(c, b, prev))), prev) == b
  {
    assert Inverts(c, Xor(c, b, prev));
    XorTwice(c, b, prev);
  }

  /** How many blocks PKCS7 fills: one more than the message does. */
  function PaddedBlocks(s: seq<byte>): nat { |s| / 16 + 1 }

  /** PKCS7: between 1 and 16 bytes, each saying how many they are. */
  function Padded(s: seq<byte>): (r: seq<byte>)
    ensures |r| == 16 * PaddedBlocks(s) && |s| < |r| <= |s| + 16 && r[..|s|] == s
    ensures forall k | |s| <= k < |r| :: r[k] == |r| - |s|
  {
    var missing := 16 - |s| % 16;
    s + seq(missing, _ => missing)
  }

  /** unpadPKCS7: only the last byte is looked at; slicing past the start panics. */
  function Unpadded(s: seq<byte>): Outcome<seq<byte>> {
    if s == [] || s[|s| - 1] > |s| then Panic else Ok(s[..|s| - s[|s| - 1]])
  }

  lemma UnpadPad(s: seq<byte>)
    ensures Unpadded(Padded(s)) == Ok(s)
  {}

  // ----- the whole transformation, on values -----

  ghost function Encrypted(c: Cipher, iv: seq<byte>, s: seq<byte>): (r: seq<byte>)
    requires IsCipher(c) && |iv| == 16
    ensures |r| == 16 * (|s| / 16 + 2)
  {
    assert Inverts(c, iv);
    c.enc(iv) + CbcEnc(c, iv, Padded(s), PaddedBlocks(s))
  }

  /** Input that is not whole blocks, or holds no IV or no padding, panics. */
  ghost function Decrypted(c: Cipher, s: seq<byte>): Outcome<seq<byte>>
    requires IsCipher(c)
  {
    if |s| < 16 || |s| % 16 != 0 then Panic else
      assert Inverts(c, s[..16]);
      Unpadded(CbcDec(c, c.dec(s[..16]), s[16..], |s| / 16 - 1))
  }

  lemma FirstAndRest(a: seq<byte>, b: seq<byte>)
    requires |a| == 16
    ensures (a + b)[..16] == a && (a + b)[16..] == b
  {}

  lemma DecryptHalves(c: Cipher, a: seq<byte>, b: seq<byte>, n: nat)
    requires IsCipher(c) && |a| == 16 && |b| == 16 * n
    ensures |c.dec(a)| == 16 && Decrypted(c, a + b) == Unpadded(CbcDec(c, c.dec(a), b, n))
  {
    assert Inverts(c, a);
    FirstAndRest(a, b);
    assert |a + b| == 16 * (n + 1) && |a + b| % 16 == 0 && |a + b| / 16 - 1 == n;
  }

  /** For every cipher, IV and message, decryption gives the message back. */
  lemma DecryptEncrypt(c: Cipher, iv: seq<byte>, s: seq<byte>)
    requires IsCipher(c) && |iv| == 16
    ensures Decrypted(c, Encrypted(c, iv, s)) == Ok(s)
  {
    assert Inverts(c, iv);
    var n := PaddedBlocks(s);
    DecryptHalves(c, c.enc(iv), CbcEnc(c, iv, Padded(s), n), n);
    CbcInverse(c, iv, Padded(s), n, n);
    assert Padded(s)[..16 * n] == Padded(s);
    UnpadPad(s);
  }

  // ----- in place -----

  /** s is s0 with b written over it from index at on. */
  ghost predicate Patched(s: seq<byte>, s0: seq<byte>, at: nat, b: seq<byte>) {
    |s| == |s0| && at + |b| <= |s| && forall k | 0 <= k < |s| :: s[k] == if at <= k < at + |b| then b[k - at] else s0[k]
  }

  lemma PatchedTwice(s2: seq<byte>, s1: seq<byte>, s0: seq<byte>, at: nat, a: seq<byte>, b: seq<byte>)
    requires Patched(s1, s0, at, a) && Patched(s2, s1, at + |a|, b)
    ensures Patched(s2, s0, at, a + b)
  {}

  /** copy(dst[at:], b). */
  method CopyInto(dst: array<byte>, at: nat, b: seq<byte>)
    requires at + |b| <= dst.Length
    modifies dst
    ensures Patched(dst[..], old(dst[..]), at, b)
  {
    for i := 0 to |b|
      invariant forall k | 0 <= k < dst.Length :: dst[k] == if at <= k < at + i then b[k - at] else old(dst[k])
    {
      dst[at + i] := b[i];
    }
  }

  /**
   ecbEncrypter.CryptBlocks and ecbDecrypter.CryptBlocks on dst and src[..n]; the two arrays may be one.
   Input that is not whole blocks, or too little room for the output, panics.
   */
  method EcbCryptBlocks(f: seq<byte> -> seq<byte>, dst: array<byte>, src: array<byte>, n: nat) returns (panicked: bool)
    requires n <= src.Length && forall b :: KeepsBlocks(f, b)
    modifies dst
    ensures panicked <==> n % 16 != 0 || dst.Length < n
    ensures panicked ==> dst[..] == old(dst[..])
    ensures !panicked ==> Patched(dst[..], old(dst[..]), 0, Ecb(f, old(src[..n]), n / 16))
  {
    panicked := n % 16 != 0 || dst.Length < n;
    if !panicked {
      EcbLoop(f, dst, src, n / 16);
    }
  }

  method EcbLoop(f: seq<byte> -> seq<byte>, dst: array<byte>, src: array<byte>, n: nat)
    requires 16 * n <= src.Length && 16 * n <= dst.Length && forall b :: KeepsBlocks(f, b)
    modifies dst
    ensures Patched(dst[..], old(dst[..]), 0, Ecb(f, old(src[..16 * n]), n))
  {
    ghost var dst0, input := dst[..], src[..16 * n];
    for j := 0 to n
      invariant Patched(dst[..], dst0, 0, Ecb(f, input, j))
      invariant forall k | 16 * j <= k < 16 * n :: src[k] == input[k]
    {
      ghost var mid := dst[..];
      var block := src[16 * j..16 * j + 16];
      assert block == Block(input, j);
      assert KeepsBlocks(f, block);
      CopyInto(dst, 16 * j, f(block));
      PatchedTwice(dst[..], mid, dst0, 0, Ecb(f, input, j), f(block));
    }
  }

  /** The two loops one after the other on one buffer: with inverse block functions they restore it. */
  method EcbThereAndBack(f: seq<byte> -> seq<byte>, g: seq<byte> -> seq<byte>, a: array<byte>, n: nat)
    returns (panicked: bool)
    requires n <= a.Length && (forall b :: KeepsBlocks(f, b)) && (forall b :: KeepsBlocks(g, b))
             && forall b :: Undoes(g, f, b)
    modifies a
    ensures panicked <==> n % 16 != 0
    ensures a[..] == old(a[..])
  {
    ghost var a0 := a[..];
    panicked := EcbCryptBlocks(f, a, a, n);
    if panicked { return; }
    ghost var a1 := a[..];
    assert a0[..n] == old(a[..n]);
    var again := EcbCryptBlocks(g, a, a, n);
    assert a1[..n] == Ecb(f, a0[..n], n / 16);
    EcbInverse(f, g, a0[..n], n / 16, n / 16);
    assert a0[..n][..16 * (n / 16)] == a0[..n];
    Restored(a[..], a1, a0, a1[..n], n);
  }

  lemma Restored(s2: seq<byte>, s1: seq<byte>, s0: seq<byte>, b: seq<byte>, n: nat)
    requires |b| == n <= |s0| && Patched(s1, s0, 0, b) && Patched(s2, s1, 0, s0[..n])
    ensures s2 == s0
  {}

  /** What the loops have not reached yet still holds the input. */
  lemma BlockAhead(s: seq<byte>, s0: seq<byte>, done: seq<byte>, j: nat)
    requires Patched(s, s0, 16, done) && |done| == 16 * j && 32 + 16 * j <= |s|
    ensures s[16 + 16 * j..32 + 16 * j] == Block(s0[16..], j)
  {}

  lemma CbcEncStep(c: Cipher, iv: seq<byte>, s0: seq<byte>, s1: seq<byte>, s2: seq<byte>, input: seq<byte>, j: nat)
    requires IsCipher(c) && |iv| == 16 && 16 * j + 16 <= |input|
    requires Patched(s1, s0, 16, CbcEnc(c, iv, input, j))
    requires var x := Xor(c, Block(input, j), Before(iv, CbcEnc(c, iv, input, j), j));
             Patched(s2, s1, 16 + 16 * j, c.enc(x))
    ensures Patched(s2, s0, 16, CbcEnc(c, iv, input, j + 1))
    ensures var r := CbcEnc(c, iv, input, j);
            c.enc(Xor(c, Block(input, j), Before(iv, r, j))) == Before(iv, CbcEnc(c, iv, input, j + 1), j + 1)
  {
    var r := CbcEnc(c, iv, input, j);
    var out := c.enc(Xor(c, Block(input, j), Before(iv, r, j)));
    assert Inverts(c, Xor(c, Block(input, j), Before(iv, r, j)));
    PatchedTwice(s2, s1, s0, 16, r, out);
    assert CbcEnc(c, iv, input, j + 1) == r + out;
    Halves(r, out);
    assert (r + out)[16 * j..16 * j + 16] == out;
  }

  /** cipher.NewCBCEncrypter(c, iv).CryptBlocks(a[16:], a[16:]). */
  method CbcEncryptInPlace(c: Cipher, iv: seq<byte>, a: array<byte>, n: nat)
    requires IsCipher(c) && |iv| == 16 && a.Length == 16 + 16 * n
    modifies a
    ensures Patched(a[..], old(a[..]), 16, CbcEnc(c, iv, old(a[16..]), n))
  {
    ghost var a0, input := a[..], a[16..];
    assert input == a0[16..];
    var prev := iv;
    for j := 0 to n
      invariant prev == Before(iv, CbcEnc(c, iv, input, j), j)
      invariant Patched(a[..], a0, 16, CbcEnc(c, iv, input, j))
    {
      prev := EncryptNext(c, iv, a, a0, input, j, prev);
    }
  }

  method EncryptNext(c: Cipher, ghost iv: seq<byte>, a: array<byte>, ghost s0: seq<byte>, ghost input: seq<byte>,
                     j: nat, prev: seq<byte>) returns (out: seq<byte>)
    requires IsCipher(c) && |iv| == 16 && |s0| >= 16 && input == s0[16..] && 32 + 16 * j <= a.Length == |s0|
    requires prev == Before(iv, CbcEnc(c, iv, input, j), j) && Patched(a[..], s0, 16, CbcEnc(c, iv, input, j))
    modifies a
    ensures out == Before(iv, CbcEnc(c, iv, input, j + 1), j + 1) && Patched(a[..], s0, 16, CbcEnc(c, iv, input, j + 1))
  {
    ghost var mid := a[..];
    var block := a[16 + 16 * j..32 + 16 * j];
    BlockAhead(mid, s0, CbcEnc(c, iv, input, j), j);
    out := EncryptBlock(c, a, 16 + 16 * j, block, prev);
    CbcEncStep(c, iv, s0, mid, a[..], input, j);
  }

  method EncryptBlock(c: Cipher, a: array<byte>, at: nat, block: seq<byte>, prev: seq<byte>) returns (out: seq<byte>)
    requires IsCipher(c) && |block| == 16 && |prev| == 16 && at + 16 <= a.Length
    modifies a
    ensures out == c.enc(Xor(c, block, prev)) && |out| == 16 && Patched(a[..], old(a[..]), at, out)
  {
    assert Inverts(c, Xor(c, block, prev));
    out := c.enc(Xor(c, block, prev));
    CopyInto(a, at, out);
  }

  lemma CbcDecStep(c: Cipher, iv: seq<byte>, s0: seq<byte>, s1: seq<byte>, s2: seq<byte>, input: seq<byte>, j: nat)
    requires IsCipher(c) && |iv| == 16 && 16 * j + 16 <= |input| && |c.dec(Block(input, j))| == 16
    requires Patched(s1, s0, 16, CbcDec(c, iv, input, j))
    requires Patched(s2, s1, 16 + 16 * j, Xor(c, c.dec(Block(input, j)), Before(iv, input, j)))
    ensures Patched(s2, s0, 16, CbcDec(c, iv, input, j + 1))
  {
    var r := CbcDec(c, iv, input, j);
    var out := Xor(c, c.dec(Block(input, j)), Before(iv, input, j));
    PatchedTwice(s2, s1, s0, 16, r, out);
    assert CbcDec(c, iv, input, j + 1) == r + out;
  }

  /** cipher.NewCBCDecrypter(c, iv).CryptBlocks(a[16:], a[16:]). */
  method CbcDecryptInPlace(c: Cipher, iv: seq<byte>, a: array<byte>, n: nat)
    requires IsCipher(c) && |iv| == 16 && a.Length == 16 + 16 * n
    modifies a
    ensures Patched(a[..], old(a[..]), 16, CbcDec(c, iv, old(a[16..]), n))
  {
    ghost var a0, input := a[..], a[16..];
    assert input == a0[16..];
    var prev := iv;
    for j := 0 to n
      invariant prev == Before(iv, input, j)
      invariant Patched(a[..], a0, 16, CbcDec(c, iv, input, j))
    {
      prev := DecryptNext(c, iv, a, a0, input, j, prev);
    }
  }

  method DecryptNext(c: Cipher, ghost iv: seq<byte>, a: array<byte>, ghost s0: seq<byte>, ghost input: seq<byte>,
                     j: nat, prev: seq<byte>) returns (block: seq<byte>)
    requires IsCipher(c) && |iv| == 16 && |s0| >= 16 && input == s0[16..] && 32 + 16 * j <= a.Length == |s0|
    requires prev == Before(iv, input, j) && Patched(a[..], s0, 16, CbcDec(c, iv, input, j))
    modifies a
    ensures block == Before(iv, input, j + 1) && Patched(a[..], s0, 16, CbcDec(c, iv, input, j + 1))
  {
    ghost var mid := a[..];
    block := a[16 + 16 * j..32 + 16 * j];
    BlockAhead(mid, s0, CbcDec(c, iv, input, j), j);
    DecryptBlock(c, a, 16 + 16 * j, block, prev);
    CbcDecStep(c, iv, s0, mid, a[..], input, j);
  }

  method DecryptBlock(c: Cipher, a: array<byte>, at: nat, block: seq<byte>, prev: seq<byte>)
    requires IsCipher(c) && |block| == 16 && |prev| == 16 && at + 16 <= a.Length
    modifies a
    ensures |c.dec(block)| == 16 && Patched(a[..], old(a[..]), at, Xor(c, c.dec(block), prev))
  {
    assert Inverts(c, block);
    CopyInto(a, at, Xor(c, c.dec(block), prev));
  }

  /** padPKCS7WithIV: room for the IV, the message, the padding. */
  method PadWithIV(src: array<byte>) returns (dest: array<byte>)
    ensures fresh(dest) && dest.Length == 16 + |Padded(src[..])| && dest[16..] == Padded(src[..])
    ensures dest.Length % 16 == 0 && src.Length + 16 < dest.Length <= src.Length + 32
    ensures forall k | 0 <= k < src.Length :: dest[16 + k] == src[k]
    ensures forall k | 16 + src.Length <= k < dest.Length :: dest[k] == dest.Length - 16 - src.Length
  {
    var missing := 16 - src.Length % 16;
    var newSize := src.Length + 16 + missing;
    dest := new byte[newSize](_ => 0);
    CopyInto(dest, 16, src[..]);
    for i := newSize - missing to newSize
      invariant forall k | 0 <= k < src.Length :: dest[16 + k] == src[k]
      invariant forall k | newSize - missing <= k < i :: dest[k] == missing
    {
      dest[i] := missing;
    }
  }

  /** padded is the message s and p bytes that all equal p, with p from 1 to 16 and whole blocks in all. */
  predicate IsPadded(padded: seq<byte>, s: seq<byte>) {
    && |padded| % 16 == 0 && |s| < |padded| <= |s| + 16 && padded[..|s|] == s
    && forall k | |s| <= k < |padded| :: padded[k] == |padded| - |s|
  }

  /** r holds the blocks of s encrypted in CBC, and decrypting them gives s. */
  ghost predicate IsCbcOf(c: Cipher, iv: seq<byte>, s: seq<byte>, r: seq<byte>)
    requires IsCipher(c) && |iv| == 16
  {
    && |r| == |s| && |s| % 16 == 0 && (forall j: nat | 16 * j + 16 <= |s| :: Chained(c, iv, s, r, j))
    && CbcDec(c, iv, r, |s| / 16) == s
  }

  /** The encrypted IV and, behind it, the padded message in CBC. */
  ghost predicate IsCiphertext(c: Cipher, iv: seq<byte>, padded: seq<byte>, r: seq<byte>)
    requires IsCipher(c) && |iv| == 16
  {
    |r| >= 16 && r[..16] == c.enc(iv) && IsCbcOf(c, iv, padded, r[16..])
  }

  lemma CbcIs(c: Cipher, iv: seq<byte>, s: seq<byte>, n: nat)
    requires IsCipher(c) && |iv| == 16 && |s| == 16 * n
    ensures IsCbcOf(c, iv, s, CbcEnc(c, iv, s, n))
  {
    forall j: nat | 16 * j + 16 <= |s| ensures Chained(c, iv, s, CbcEnc(c, iv, s, n), j) {
      CbcBlock(c, iv, s, n, j);
    }
    CbcInverse(c, iv, s, n, n);
    assert s[..16 * n] == s;
  }

  /**
   The ciphertext of s: the encrypted IV, and behind it the blocks of the padded message, each combined with
   the block before it, the first with the IV itself, and encrypted. Decrypting them in CBC shows the padding.
   */
  lemma EncryptedIs(c: Cipher, iv: seq<byte>, s: seq<byte>) returns (padded: seq<byte>)
    requires IsCipher(c) && |iv| == 16
    ensures IsPadded(padded, s)
    ensures IsCiphertext(c, iv, padded, Encrypted(c, iv, s))
  {
    assert Inverts(c, iv);
    padded := Padded(s);
    CbcIs(c, iv, padded, PaddedBlocks(s));
    FirstAndRest(c.enc(iv), CbcEnc(c, iv, padded, PaddedBlocks(s)));
  }

  /** A decrypted byte: that of its block decrypted, combined with the one sixteen before it, or the IV's. */
  lemma {:induction false} CbcDecByte(c: Cipher, iv: seq<byte>, s: seq<byte>, n: nat, j: nat, k: nat)
    requires IsCipher(c) && |iv| == 16 && j < n && 16 * n <= |s| && k < 16
    ensures var at := 16 * j + k;
            |c.dec(s[16 * j..16 * j + 16])| == 16 &&
            CbcDec(c, iv, s, n)[at] == c.xor(c.dec(s[16 * j..16 * j + 16])[k], if j == 0 then iv[k] else s[at - 16])
  {
    assert Inverts(c, Block(s, j)) && Inverts(c, Block(s, n - 1));
    var before, last := CbcDec(c, iv, s, n - 1), Xor(c, c.dec(Block(s, n - 1)), Before(iv, s, n - 1));
    if j < n - 1 {
      CbcDecByte(c, iv, s, n - 1, j, k);
      assert (before + last)[16 * j + k] == before[16 * j + k];
    } else {
      assert (before + last)[16 * j + k] == last[k];
    }
  }

  /**
   What decryption returns: the blocks behind the first are decrypted in CBC with the first, decrypted, as the
   IV; the last byte says how many to drop, and there is a panic if there are not as many, or if the input is
   not a first block and whole blocks behind it.
   */
  lemma DecryptedIs(c: Cipher, s: seq<byte>)
    requires IsCipher(c)
    ensures if |s| < 32 || |s| % 16 != 0 then Decrypted(c, s) == Panic else
              && |c.dec(s[..16])| == 16
              && var data := CbcDec(c, c.dec(s[..16]), s[16..], |s| / 16 - 1); var drop := data[|data| - 1];
              Decrypted(c, s) == if drop > |data| then Panic else Ok(data[..|data| - drop])
  {
    if |s| >= 16 { assert Inverts(c, s[..16]); }
  }

  /** SymmetricEncrypt, with the IV that rand.Read delivered. */
  method SymmetricEncrypt(c: Cipher, src: array<byte>, iv: array<byte>)
    returns (encrypted: array<byte>, ghost padded: seq<byte>)
    requires IsCipher(c) && iv.Length == 16
    ensures fresh(encrypted) && encrypted[..] == Encrypted(c, iv[..], src[..])
    ensures IsPadded(padded, src[..]) && IsCiphertext(c, iv[..], padded, encrypted[..])
  {
    var encryptedIv := new byte[16](_ => 0);
    CipherKeepsBlocks(c);
    var panicked := EcbCryptBlocks(c.enc, encryptedIv, iv, 16);
    OneBlock(c.enc, iv[..]);
    assert iv[..16] == iv[..];
    assert encryptedIv[..] == c.enc(iv[..]);
    encrypted := PadWithIV(src);
    EncryptData(c, iv[..], encryptedIv[..], encrypted, src[..]);
    padded := EncryptedIs(c, iv[..], src[..]);
  }

  /** The second half: the encrypted IV in front, the padded message encrypted behind it. */
  method EncryptData(c: Cipher, iv: seq<byte>, encryptedIv: seq<byte>, a: array<byte>, s: seq<byte>)
    requires IsCipher(c) && |iv| == 16 && |encryptedIv| == 16
    requires a.Length == 16 + |Padded(s)| && a[16..] == Padded(s)
    modifies a
    ensures a[..] == encryptedIv + CbcEnc(c, iv, Padded(s), PaddedBlocks(s))
  {
    CopyInto(a, 0, encryptedIv);
    assert a[16..] == Padded(s);
    ghost var mid := a[..];
    CbcEncryptInPlace(c, iv, a, |s| / 16 + 1);
    FrontAndBack(a[..], mid, encryptedIv, CbcEnc(c, iv, Padded(s), PaddedBlocks(s)));
  }

  lemma FrontAndBack(s: seq<byte>, s0: seq<byte>, a: seq<byte>, b: seq<byte>)
    requires |a| == 16 && |s| == 16 + |b| && Patched(s, s0, 16, b) && s0[..16] == a
    ensures s == a + b
  {
    assert forall k | 0 <= k < 16 :: s0[k] == s0[..16][k];
  }

  lemma CipherKeepsBlocks(c: Cipher)
    requires IsCipher(c)
    ensures (forall b :: KeepsBlocks(c.enc, b)) && (forall b :: KeepsBlocks(c.dec, b))
  {
    forall b ensures KeepsBlocks(c.enc, b) && KeepsBlocks(c.dec, b) {
      assert Inverts(c, b);
    }
  }

  lemma OneBlock(f: seq<byte> -> seq<byte>, s: seq<byte>)
    requires |s| == 16 && forall b :: KeepsBlocks(f, b)
    ensures |f(s)| == 16 && Ecb(f, s, 1) == f(s)
  {
    assert KeepsBlocks(f, s);
    assert Block(s, 0) == s && Ecb(f, s, 0) == [];
  }

  /** SymmetricDecrypt, in place: src holds the IV and the padded message afterwards. */
  method SymmetricDecrypt(c: Cipher, src: array<byte>) returns (r: Outcome<seq<byte>>)
    requires IsCipher(c)
    modifies src
    ensures r == Decrypted(c, old(src[..]))
  {
    if src.Length < 16 || src.Length % 16 != 0 { return Panic; }
    CipherKeepsBlocks(c);
    ghost var input := src[..];
    var panicked := EcbCryptBlocks(c.dec, src, src, 16);
    assert input[..16] == old(src[..16]);
    OneBlock(c.dec, input[..16]);
    assert src[..16] == c.dec(input[..16]) && src[16..] == input[16..];
    r := DecryptData(c, src, src.Length / 16 - 1);
  }

  /** The second half: the data behind the decrypted IV. */
  method DecryptData(c: Cipher, src: array<byte>, n: nat) returns (r: Outcome<seq<byte>>)
    requires IsCipher(c) && src.Length == 16 + 16 * n
    modifies src
    ensures r == Unpadded(CbcDec(c, old(src[..16]), old(src[16..]), n))
  {
    ghost var data := src[16..];
    var iv := src[..16];
    CbcDecryptInPlace(c, iv, src, n);
    assert src[16..] == CbcDec(c, iv, data, n);
    r := Unpadded(src[16..]);
  }
}
