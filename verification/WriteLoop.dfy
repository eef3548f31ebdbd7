/** Client.writeLoop within one session: from the messages the channel accepted to the frames on the connection. */
module WriteLoop {
  import opened Basics

  /** What msg.Serialize appends to the buffer, and whether it returns an error after that. */
  datatype Written = Written(bytes: seq<byte>, failed: bool)

  /**
   One session: what the channel delivers before it is closed, in the order it was accepted; whether conn is
   still set at the head of turn i; and whether conn.Write succeeds in turn i.
   */
  datatype Session<!M> = Session(accepted: seq<M>, serialize: M -> Written, connected: nat -> bool, writes: nat -> bool)

  /** How many messages are handed to the connection from turn i on. */
  function Handed<M>(s: Session<M>, i: nat): (n: nat)
    requires i <= |s.accepted|
    ensures i + n <= |s.accepted|
    decreases |s.accepted| - i
  {
    if i == |s.accepted| || !s.connected(i) || s.serialize(s.accepted[i]).failed then 0
    else if !s.writes(i) then 1
    else 1 + Handed(s, i + 1)
  }

  /** Every message from i to j as a frame of its own. */
  function Frames<M>(s: Session<M>, i: nat, j: nat): (fs: seq<seq<byte>>)
    requires i <= j <= |s.accepted|
    ensures |fs| == j - i
  {
    seq(j - i, k requires 0 <= k < j - i => s.serialize(s.accepted[i + k]).bytes)
  }

  class Writer {
    var writeBuf: seq<byte>
    var frames: seq<seq<byte>>  // every argument conn.Write was called with

    constructor ()
      ensures writeBuf == [] && frames == []
    {
      writeBuf, frames := [], [];
    }

    /** msg.Serialize(c.writeBuf). */
    method Serialize(w: Written) returns (failed: bool)
      modifies this`writeBuf
      ensures writeBuf == old(writeBuf) + w.bytes && failed == w.failed
    {
      writeBuf, failed := writeBuf + w.bytes, w.failed;
    }

    /** What the connection gets is the messages the channel accepted, one frame each, up to the first failure. */
    method Loop<M>(s: Session<M>)
      requires writeBuf == []
      modifies this
      ensures writeBuf == []
      ensures frames == old(frames) + Frames(s, 0, Handed(s, 0))
    {
      var i := 0;
      while true
        invariant writeBuf == [] && i <= |s.accepted|
        invariant Handed(s, 0) == i + Handed(s, i) && frames == old(frames) + Frames(s, 0, i)
        decreases |s.accepted| - i
      {
        if i == |s.accepted| || !s.connected(i) { return; }
        var failed := Serialize(s.serialize(s.accepted[i]));
        if failed {
          writeBuf := [];
          return;
        }
        assert writeBuf == s.serialize(s.accepted[i]).bytes;
        assert Frames(s, 0, i + 1) == Frames(s, 0, i) + [writeBuf];
        frames := frames + [writeBuf];
        writeBuf := [];
        if !s.writes(i) { return; }
        i := i + 1;
      }
    }
  }

  /** A frame was handed over exactly if nothing failed before it and its own message serialises. */
  lemma {:induction false} HandedIff<M>(s: Session<M>, i: nat, j: nat)
    requires i <= j < |s.accepted|
    ensures j < i + Handed(s, i) <==>
            (forall k | i <= k < j :: s.connected(k) && !s.serialize(s.accepted[k]).failed && s.writes(k))
            && s.connected(j) && !s.serialize(s.accepted[j]).failed
    decreases j - i
  {
    if i < j { HandedIff(s, i + 1, j); }
  }
}
