/** Package rwu's readers: on an error they have taken what there was and return the zero value. */
module Rwu {
  import opened Basics
  import opened Schema

  /** The bytes before the first zero, and what follows it; all there is, if there is none. */
  function Text(s: seq<byte>): (r: (seq<byte>, seq<byte>))
    ensures |r.1| <= |s|
  {
    if s == [] then ([], [])
    else if s[0] == 0 then ([], s[1..])
    else var (c, rest) := Text(s[1..]); ([s[0]] + c, rest)
  }

  /** A zero ends the text: whatever precedes the first one is read, and it is consumed. */
  lemma {:induction false} TextBefore(c: seq<byte>, rest: seq<byte>)
    requires 0 !in c
    ensures Text(c + [0] + rest) == (c, rest)
  {
    var s := c + [0] + rest;
    if c == [] {
      assert s[1..] == rest;
    } else {
      TextBefore(c[1..], rest);
      assert s[0] == c[0] && s[1..] == c[1..] + [0] + rest && [c[0]] + c[1..] == c;
    }
  }

  /** w bytes as a number, and what is left. */
  function Unsigned(s: seq<byte>, w: nat): (nat, seq<byte>) { if |s| < w then (0, []) else (UnLE(s[..w]), s[w..]) }

  function Signed32(s: seq<byte>): (int, seq<byte>) { if |s| < 4 then (0, []) else (DecodeNum(Int32, s[..4]), s[4..]) }

  function Skip(s: seq<byte>, n: nat): seq<byte> { if |s| < n then [] else s[n..] }

  lemma UintBefore(v: nat, w: nat, rest: seq<byte>)
    requires v < Pow256(w)
    ensures Unsigned(LE(v, w) + rest, w) == (v, rest)
  {
    UnLELE(v, w);
    Halves(LE(v, w), rest);
  }

  lemma IntBefore(v: int, rest: seq<byte>)
    requires Int32.InRange(v)
    ensures Signed32(EncodeNum(Int32, v) + rest) == (v, rest)
  {
    NumRoundTrip(Int32, v);
    Halves(EncodeNum(Int32, v), rest);
  }

  class Reader {
    var input: seq<byte>

    constructor (input: seq<byte>)
      ensures this.input == input
    {
      this.input := input;
    }

    method ReadString() returns (c: seq<byte>, failed: bool)
      modifies this
      ensures (c, input) == Text(old(input)) && (failed <==> 0 !in old(input))
    {
      c := [];
      ghost var all := input;
      assert [] + Text(all).0 == Text(all).0;
      while true
        invariant Text(all) == (c + Text(input).0, Text(input).1) && (0 in all <==> 0 in input)
        decreases |input|
      {
        if input == [] {
          assert c + [] == c;
          return c, true;
        }
        var b := input[0];
        assert input == [b] + input[1..];
        if b == 0 {
          assert c + [] == c;
          input := input[1..];
          return c, false;
        }
        assert c + ([b] + Text(input[1..]).0) == (c + [b]) + Text(input[1..]).0;
        c, input := c + [b], input[1..];
      }
    }

    method ReadByte()
      modifies this
      ensures input == Skip(old(input), 1)
    {
      input := if |input| < 1 then [] else input[1..];
    }

    method ReadBytes(n: nat)
      modifies this
      ensures input == Skip(old(input), n)
    {
      input := if |input| < n then [] else input[n..];
    }

    method ReadUint64() returns (v: nat)
      modifies this
      ensures (v, input) == Unsigned(old(input), 8)
    {
      if |input| < 8 {
        v, input := 0, [];
      } else {
        v, input := UnLE(input[..8]), input[8..];
      }
    }

    method ReadInt32() returns (v: int)
      modifies this
      ensures (v, input) == Signed32(old(input))
    {
      if |input| < 4 {
        v, input := 0, [];
      } else {
        v, input := DecodeNum(Int32, input[..4]), input[4..];
      }
    }
  }
}
