/** quotedWriter: a marker before the first byte and after every newline, over a sink that may fill up. */
module QuotedWriter {
  import opened Basics

  const NEWLINE: byte := 10
  const MARK: seq<byte> := [62, 32]  // "> "

  /** Every newline is followed by the marker. */
  function Quoted(s: seq<byte>): seq<byte> {
    if s == [] then [] else [s[0]] + (if s[0] == NEWLINE then MARK else []) + Quoted(s[1..])
  }

  lemma {:induction false} QuotedAppend(a: seq<byte>, b: seq<byte>)
    ensures Quoted(a + b) == Quoted(a) + Quoted(b)
  {
    if a == [] {
      assert a + b == b;
    } else {
      QuotedAppend(a[1..], b);
      assert (a + b)[1..] == a[1..] + b;
    }
  }

  lemma {:induction false} QuotedPlain(s: seq<byte>)
    requires NEWLINE !in s
    ensures Quoted(s) == s
  {
    if s != [] { QuotedPlain(s[1..]); }
  }

  lemma QuotedLine(s: seq<byte>)
    requires NEWLINE !in s
    ensures Quoted(s + [NEWLINE]) == (s + [NEWLINE]) + MARK
    ensures MARK == [0x3E, 0x20] && NEWLINE == 0x0A
  {
    QuotedAppend(s, [NEWLINE]);
    QuotedPlain(s);
    assert Quoted([NEWLINE]) == [NEWLINE] + MARK + Quoted([NEWLINE][1..]);
  }

  /** Removing the marker after every newline. */
  function UnquotedLines(t: seq<byte>): seq<byte> {
    if t == [] then []
    else if t[0] == NEWLINE && |t| >= 3 && t[1..3] == MARK then [NEWLINE] + UnquotedLines(t[3..])
    else [t[0]] + UnquotedLines(t[1..])
  }

  /** Removing it at the start as well. */
  function Unquoted(t: seq<byte>): seq<byte> {
    if |t| >= 2 && t[..2] == MARK then UnquotedLines(t[2..]) else UnquotedLines(t)
  }

  lemma {:induction false} UnquoteLines(s: seq<byte>)
    ensures UnquotedLines(Quoted(s)) == s
  {
    if s != [] {
      var t := Quoted(s);
      UnquoteLines(s[1..]);
      if s[0] == NEWLINE {
        assert t == [NEWLINE] + MARK + Quoted(s[1..]);
        assert t[1..3] == MARK && t[3..] == Quoted(s[1..]);
      } else {
        assert t[1..] == Quoted(s[1..]);
      }
    }
  }

  /** What was written can be read off the output. */
  lemma UnquoteQuoted(s: seq<byte>)
    ensures Unquoted(MARK + Quoted(s)) == s
  {
    var t := MARK + Quoted(s);
    assert t[..2] == MARK && t[2..] == Quoted(s);
    UnquoteLines(s);
  }

  /** How many bytes of s are among the first k bytes of its quotation. */
  function Covered(s: seq<byte>, k: nat): (n: nat)
    ensures n <= |s|
  {
    if s == [] || k == 0 then 0
    else 1 + Covered(s[1..], if s[0] != NEWLINE then k - 1 else if k >= 3 then k - 3 else 0)
  }

  lemma {:induction false} CoveredAppend(a: seq<byte>, b: seq<byte>, k: nat)
    ensures Covered(a + b, |Quoted(a)| + k) == |a| + Covered(b, k)
  {
    if a == [] {
      assert a + b == b;
    } else {
      CoveredAppend(a[1..], b, k);
      assert (a + b)[1..] == a[1..] + b;
    }
  }

  lemma CoveredRoom(s: seq<byte>, k: nat)
    ensures k >= |Quoted(s)| ==> Covered(s, k) == |s|
  {
    if k >= |Quoted(s)| {
      CoveredAppend(s, [], k - |Quoted(s)|);
      assert s + [] == s;
    }
  }

  /** Of bytes without a newline, the first k are covered by k. */
  lemma {:induction false} CoveredPlain(a: seq<byte>, b: seq<byte>, k: nat)
    requires NEWLINE !in a && k <= |a|
    ensures Covered(a + b, k) == k
  {
    if k > 0 {
      CoveredPlain(a[1..], b, k - 1);
      assert (a + b)[1..] == a[1..] + b;
    }
  }

  lemma MarkAndMore(before: seq<byte>, q: seq<byte>, room: nat)
    ensures room < 2 ==> Fitting(MARK + q, room) == Fitting(MARK, room)
    ensures room >= 2 ==> (before + MARK) + Fitting(q, room - 2) == before + Fitting(MARK + q, room)
                          && Fitting(MARK, room) == MARK
  {}

  lemma StillClean(before: seq<byte>, started: bool, written: seq<byte>, p: seq<byte>)
    ensures started && before == MARK + Quoted(written) ==> before + Quoted(p) == MARK + Quoted(written + p)
    ensures !started && before == [] && written == [] ==> before + MARK + Quoted(p) == MARK + Quoted(written + p)
  {
    QuotedAppend(written, p);
    Reassociate(MARK, Quoted(written), Quoted(p));
  }

  /** As much of b as there is room for. */
  function Fitting(b: seq<byte>, room: nat): seq<byte> { if |b| <= room then b else b[..room] }

  class Writer {
    var sink: seq<byte>
    var room: nat          // what the sink still takes before it fails
    var started: bool
    ghost var written: seq<byte>

    /** Nothing has failed so far. */
    ghost predicate Clean()
      reads this
    {
      sink == if started then MARK + Quoted(written) else []
    }

    constructor (room: nat)
      ensures Clean() && !started && written == [] && this.room == room
    {
      sink, this.room, started, written := [], room, false, [];
    }

    /** w.w.Write: a short write comes with an error. */
    method SinkWrite(b: seq<byte>) returns (n: nat, failed: bool)
      modifies this`sink, this`room
      ensures sink == old(sink) + Fitting(b, old(room)) && n == |Fitting(b, old(room))|
      ensures room == old(room) - n && (failed <==> old(room) < |b|)
    {
      failed := room < |b|;
      n := if failed then room else |b|;
      sink := sink + Fitting(b, room);
      room := room - n;
    }

    /**
     The sink gets the quotation of p, with the marker in front of the first one, as far as there is room;
     n counts the bytes of p in what it got, and an error says that it did not get everything.
     */
    method Write(p: seq<byte>) returns (n: nat, failed: bool)
      modifies this
      ensures var all := (if old(started) then [] else MARK) + Quoted(p);
              && sink == old(sink) + Fitting(all, old(room)) && (failed <==> old(room) < |all|)
              && n == Covered(p, if old(started) then old(room) else if old(room) < 2 then 0 else old(room) - 2)
              && room == old(room) - |Fitting(all, old(room))|
      ensures started <==> old(started) || old(room) >= 2
      ensures !failed ==> n == |p|
      ensures old(Clean()) && (!old(started) ==> old(written) == []) && !failed ==>
                Clean() && started && written == old(written) + p
    {
      ghost var before := written;
      assert [] + Quoted(p) == Quoted(p);
      if !started {
        MarkAndMore(sink, Quoted(p), room);
        n, failed := SinkWrite(MARK);
        if failed { return 0, true; }
        started := true;
      }
      ghost var k := room;
      n, failed := WriteLines(p);
      written := before + p;
      CoveredRoom(p, k);
      StillClean(old(sink), old(started), before, p);
    }

    /** A line and the marker behind it; n does not count the marker. */
    method WriteLine(line: seq<byte>) returns (n: nat, failed: bool)
      modifies this`sink, this`room
      ensures sink == old(sink) + Fitting(line + MARK, old(room)) && (failed <==> old(room) < |line + MARK|)
      ensures n == |Fitting(line, old(room))| && room == old(room) - |Fitting(line + MARK, old(room))|
    {
      n, failed := SinkWrite(line);
      if !failed {
        var marked;
        marked, failed := SinkWrite(MARK);
      }
    }

    /** The line from n to the newline at i, after all before it. */
    method NextLine(p: seq<byte>, n: nat, i: nat, ghost before: seq<byte>, ghost all: nat)
      returns (n': nat, failed: bool)
      requires n <= i < |p| && p[i] == NEWLINE && NEWLINE !in p[n..i]
      requires sink == before + Quoted(p[..n]) && all == |Quoted(p[..n])| + room
      modifies this`sink, this`room
      ensures failed ==> sink == before + Fitting(Quoted(p), all) && all < |Quoted(p)| && n' == Covered(p, all)
                         && room == 0
      ensures !failed ==> n' == i + 1 && sink == before + Quoted(p[..i + 1]) && all == |Quoted(p[..i + 1])| + room
    {
      ghost var k := room;
      var nw;
      nw, failed := WriteLine(p[n..i + 1]);
      n' := n + nw;
      if failed {
        LineFailed(before, p, n, i, k);
      } else {
        LineDone(before, p, n, i, k);
      }
    }

    method WriteLines(p: seq<byte>) returns (n: nat, failed: bool)
      modifies this`sink, this`room
      ensures sink == old(sink) + Fitting(Quoted(p), old(room)) && (failed <==> old(room) < |Quoted(p)|)
      ensures n == Covered(p, old(room)) && room == old(room) - |Fitting(Quoted(p), old(room))|
    {
      n := 0;
      ghost var before, all := sink, room;
      assert before + Quoted(p[..0]) == before;
      for i := 0 to |p|
        invariant n <= i && NEWLINE !in p[n..i]
        invariant sink == before + Quoted(p[..n]) && all == |Quoted(p[..n])| + room
      {
        if p[i] == NEWLINE {
          n, failed := NextLine(p, n, i, before, all);
          if failed { return n, true; }
          assert p[n..i + 1] == [];
        } else {
          assert p[n..i + 1] == p[n..i] + [p[i]];
        }
      }
      assert p[n..|p|] == p[n..];
      RestDone(before, p, n, room);
      if n != |p| {
        var nw;
        nw, failed := SinkWrite(p[n..]);
        n := n + nw;
        return;
      }
      failed := false;
    }
  }

  /** The line and its marker went through. */
  lemma LineDone(before: seq<byte>, p: seq<byte>, n: nat, i: nat, k: nat)
    requires n <= i < |p| && p[i] == NEWLINE && NEWLINE !in p[n..i] && k >= |p[n..i + 1] + MARK|
    ensures (before + Quoted(p[..n])) + Fitting(p[n..i + 1] + MARK, k) == before + Quoted(p[..i + 1])
    ensures |Quoted(p[..i + 1])| == |Quoted(p[..n])| + |Fitting(p[n..i + 1] + MARK, k)|
    ensures n + |Fitting(p[n..i + 1], k)| == i + 1
  {
    UpToLine(p, n, i);
    Fitted(p[n..i + 1], k);
    Reassociate(before, Quoted(p[..n]), p[n..i + 1] + MARK);
  }

  /** The sink filled up in the line or in the marker behind it. */
  lemma LineFailed(before: seq<byte>, p: seq<byte>, n: nat, i: nat, k: nat)
    requires n <= i < |p| && p[i] == NEWLINE && NEWLINE !in p[n..i] && k < |p[n..i + 1] + MARK|
    ensures var all := |Quoted(p[..n])| + k;
            && (before + Quoted(p[..n])) + Fitting(p[n..i + 1] + MARK, k) == before + Fitting(Quoted(p), all)
            && all < |Quoted(p)| && Covered(p, all) == n + |Fitting(p[n..i + 1], k)|
            && |Fitting(p[n..i + 1] + MARK, k)| == k
  {
    LineFits(p, n, i, k);
    LineCovers(p, n, i, k);
    Reassociate(before, Quoted(p[..n]), Fitting(p[n..i + 1] + MARK, k));
  }

  /** Where the bytes after the last newline went. */
  lemma RestDone(before: seq<byte>, p: seq<byte>, n: nat, k: nat)
    requires n <= |p| && NEWLINE !in p[n..]
    ensures var q := Quoted(p[..n]);
            && (before + q) + Fitting(p[n..], k) == before + Fitting(Quoted(p), |q| + k)
            && |Quoted(p)| == |q| + |p[n..]| && Covered(p, |q| + k) == n + |Fitting(p[n..], k)|
            && |Fitting(Quoted(p), |q| + k)| == |q| + |Fitting(p[n..], k)|
    ensures n == |p| ==> before + Quoted(p[..n]) == before + Fitting(Quoted(p), |Quoted(p[..n])| + k)
  {
    RestSoFar(p, n, k);
    Reassociate(before, Quoted(p[..n]), Fitting(p[n..], k));
    assert (before + Quoted(p[..n])) + [] == before + Quoted(p[..n]);
  }

  lemma Fitted(line: seq<byte>, k: nat)
    requires k >= |line + MARK|
    ensures Fitting(line + MARK, k) == line + MARK && Fitting(line, k) == line
  {}

  lemma UpToLine(p: seq<byte>, n: nat, i: nat)
    requires n <= i < |p| && p[i] == NEWLINE && NEWLINE !in p[n..i]
    ensures Quoted(p[..i + 1]) == Quoted(p[..n]) + (p[n..i + 1] + MARK)
  {
    QuotedLine(p[n..i]);
    assert p[n..i + 1] == p[n..i] + [NEWLINE] && p[..i + 1] == p[..n] + p[n..i + 1];
    QuotedAppend(p[..n], p[n..i + 1]);
  }

  lemma LineCovers(p: seq<byte>, n: nat, i: nat, k: nat)
    requires n <= i < |p| && p[i] == NEWLINE && NEWLINE !in p[n..i] && k < |p[n..i + 1] + MARK|
    ensures Covered(p, |Quoted(p[..n])| + k) == n + |Fitting(p[n..i + 1], k)|
  {
    assert p == p[..n] + (p[n..i] + p[i..]);
    CoveredAppend(p[..n], p[n..i] + p[i..], k);
    CoveredLine(p[n..i], p[i..], k);
  }

  lemma LineFits(p: seq<byte>, n: nat, i: nat, k: nat)
    requires n <= i < |p| && p[i] == NEWLINE && NEWLINE !in p[n..i] && k < |p[n..i + 1] + MARK|
    ensures var q := Quoted(p[..n]);
            |q| + k < |Quoted(p)| && Fitting(Quoted(p), |q| + k) == q + Fitting(p[n..i + 1] + MARK, k)
  {
    UpToLine(p, n, i);
    assert p == p[..i + 1] + p[i + 1..];
    QuotedAppend(p[..i + 1], p[i + 1..]);
    TakeInto(Quoted(p[..n]), p[n..i + 1] + MARK, Quoted(p[i + 1..]), k);
  }

  lemma CoveredLine(line: seq<byte>, rest: seq<byte>, k: nat)
    requires NEWLINE !in line && rest != [] && rest[0] == NEWLINE && k < |line| + 3
    ensures Covered(line + rest, k) == if k <= |line| + 1 then k else |line| + 1
  {
    if k <= |line| {
      CoveredPlain(line, rest, k);
    } else {
      QuotedPlain(line);
      CoveredAppend(line, rest, k - |line|);
    }
  }

  lemma TakeInto(a: seq<byte>, b: seq<byte>, c: seq<byte>, k: nat)
    requires k < |b|
    ensures Fitting((a + b) + c, |a| + k) == a + Fitting(b, k)
  {}

  /** Where the bytes after the last newline go. */
  lemma RestSoFar(p: seq<byte>, n: nat, k: nat)
    requires n <= |p| && NEWLINE !in p[n..]
    ensures var q := Quoted(p[..n]);
            && Quoted(p) == q + p[n..]
            && Fitting(Quoted(p), |q| + k) == q + Fitting(p[n..], k)
            && Covered(p, |q| + k) == n + |Fitting(p[n..], k)|
  {
    var q := Quoted(p[..n]);
    assert p == p[..n] + p[n..];
    QuotedAppend(p[..n], p[n..]);
    QuotedPlain(p[n..]);
    CoveredAppend(p[..n], p[n..], k);
    PlainCovered(p[n..], k);
  }

  lemma PlainCovered(a: seq<byte>, k: nat)
    requires NEWLINE !in a
    ensures Covered(a, k) == |Fitting(a, k)|
  {
    QuotedPlain(a);
    if k <= |a| {
      CoveredPlain(a, [], k);
      assert a + [] == a;
    } else {
      CoveredRoom(a, k);
    }
  }
}
