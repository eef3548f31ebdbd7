/** A session's messages from the write channel to the peer's packets. */
module EndToEnd {
  import opened Basics
  import opened Compiler
  import opened Crypto
  import opened DeserializerProof
  import opened Headers
  import opened Machine
  import opened Packets
  import opened Schema
  import Lifecycle
  import Transport
  import WriteLoop

  /**
   What the write loop hands to an encrypted connection, cut after any number of bytes, is read by the peer as
   the serialisations of the first n accepted messages, in order, for some n: no message is lost between two
   others, doubled, split or reordered.
   */
  lemma PeerReadsPrefix<M>(s: WriteLoop.Session<M>, keys: nat -> Option<Cipher>, items: seq<Transport.Item>, k: nat)
    returns (n: nat)
    requires Transport.SameKeys(keys, items)
    requires Transport.Messages(items) == WriteLoop.Frames(s, 0, WriteLoop.Handed(s, 0))
    ensures n <= WriteLoop.Handed(s, 0) && Transport.IsReader(Transport.TcpReader(keys))
    ensures var stream := Flatten(Transport.Frames(items));
            k <= |stream| ==>
            Transport.ReadAll(Transport.TcpReader(keys), 0, stream[..k]) == (WriteLoop.Frames(s, 0, n), Err)
  {
    Transport.CutTcpStream(keys, items, k);
    n := Transport.Whole(Transport.Frames(items), k);
    assert Transport.Messages(items)[..n] == WriteLoop.Frames(s, 0, n);
  }

  /** The loop's calls of conn.Write: what the connection has written is what it was handed. */
  method WriteFrames(conn: Transport.TcpConnection, frames: seq<seq<byte>>, ivs: nat -> seq<byte>)
    requires conn.Valid() && forall i: nat :: HasIv(ivs, i)
    modifies conn`outgoing, conn`written
    ensures conn.Valid() && Transport.Messages(conn.written) == Transport.Messages(old(conn.written)) + frames
  {
    ghost var start := Transport.Messages(conn.written);
    assert start + [] == start;
    for i := 0 to |frames|
      invariant conn.Valid() && Transport.Messages(conn.written) == start + frames[..i]
    {
      assert HasIv(ivs, i);
      WriteFrame(conn, frames[i], ivs(i));
      OneFrameMore(start, frames, i);
    }
    assert frames[..|frames|] == frames;
  }

  method WriteFrame(conn: Transport.TcpConnection, frame: seq<byte>, ivBytes: seq<byte>)
    requires conn.Valid() && |ivBytes| == 16
    modifies conn`outgoing, conn`written
    ensures conn.Valid() && Transport.Messages(conn.written) == Transport.Messages(old(conn.written)) + [frame]
  {
    ghost var before := conn.written;
    var message := new byte[|frame|](k requires 0 <= k < |frame| => frame[k]);
    var iv := new byte[16](k requires 0 <= k < 16 => ivBytes[k]);
    assert message[..] == frame;
    var sent, padded := conn.Write(message, iv);
    MessagesOne(before, Transport.Item(conn.ciph, iv[..], frame));
  }

  lemma OneFrameMore(start: seq<seq<byte>>, frames: seq<seq<byte>>, i: nat)
    requires i < |frames|
    ensures (start + frames[..i]) + [frames[i]] == start + frames[..i + 1]
  {}

  predicate HasIv(ivs: nat -> seq<byte>, i: nat) { |ivs(i)| == 16 }

  lemma MessagesOne(items: seq<Transport.Item>, it: Transport.Item)
    ensures Transport.Messages(items + [it]) == Transport.Messages(items) + [it.m]
  {}

  /** A message that the demultiplexer, and then the matching Read method, can give back. */
  ghost predicate Deliverable<M(!new)>(w: Proto<M>, enums: Enums, m: Msg<M>) {
    match m
    case PlainMsg(msg, target, source, body, _) =>
      IsChannelEncrypt(msg) && IsUint64(target) && IsUint64(source) && GoodBody(w.c, enums, body)
    case ClientMsg(msg, target, source, steamId, sessionId, body, _) =>
      && 0 <= msg < TWO31 && !IsChannelEncrypt(msg) && IsUint64(target) && IsUint64(source)
      && IsUint64(steamId) && IsInt32(sessionId) && GoodBody(w.c, enums, body)
    case ClientMsgProtobuf(msg, header, message) =>
      && 0 <= msg < TWO31 && !IsChannelEncrypt(msg)
      && w.c.kind(header) == HEADER_KIND && w.c.marshal(message).Some?
      && w.c.marshal(header).Some? && |w.c.marshal(header).value| < TWO31
  }

  /** The packet NewPacket makes of a message's bytes. */
  function PacketOf<M>(w: Proto<M>, m: Msg<M>, buf: seq<byte>): Packet {
    if m.ClientMsgProtobuf? then Packet(m.msg, true, w.targetJob(m.header), w.sourceJob(m.header), buf)
    else Packet(m.msg, false, m.target, m.source, buf)
  }

  /** A struct body read into a fresh object of its class: the fields as they were sent, and the payload. */
  ghost predicate ReadsBody<M(!new)>(w: Proto<M>, enums: Enums, m: Msg<M>, buf: seq<byte>, b0: Body<M>)
    requires !m.ClientMsgProtobuf?
  {
    b0.nodes == m.body.nodes && Typed(w.c, b0.nodes, enums, b0.d) ==>
      var p := PacketOf(w, m, buf);
      var r := if m.PlainMsg? then ReadMsg(w, p, b0, enums) else ReadClientMsg(w, p, b0, enums);
      var sent := Serialize(w.c, SerializerCode(m.body.nodes), m.body.d);
      r.Ok? && r.value.1 == m.payload && sent.Ok? && ReadSoFar(b0.nodes, |b0.nodes|, r.value.0, sent.value.0)
  }

  /** The peer recovers the message from the buffer: its kind, its job ids and its body. */
  ghost predicate Delivers<M(!new)>(w: Proto<M>, enums: Enums, m: Msg<M>, buf: seq<byte>) {
    && NewPacket(w, buf) == Ok(PacketOf(w, m, buf))
    && if m.ClientMsgProtobuf?
       then ReadProtoMsg(w, PacketOf(w, m, buf), w.c.kind(m.message)) == Ok(Some(m.message))
       else forall b0 :: ReadsBody(w, enums, m, buf, b0)
  }

  lemma SerializedDelivers<M(!new)>(w: Proto<M>, enums: Enums, m: Msg<M>, buf: seq<byte>)
    requires Faithful(w) && Deliverable(w, enums, m) && SerializeMsg(w.c, m) == Ok(buf)
    ensures Delivers(w, enums, m, buf)
  {
    if m.ClientMsgProtobuf? {
      ClientMsgProtobufRoundTrip(w, m);
    } else if m.PlainMsg? {
      MsgRoundTrip(w, m, m.body, enums);
      forall b0 ensures ReadsBody(w, enums, m, buf, b0) {
        if b0.nodes == m.body.nodes && Typed(w.c, b0.nodes, enums, b0.d) { MsgRoundTrip(w, m, b0, enums); }
      }
    } else {
      ClientMsgRoundTrip(w, m, m.body, enums);
      forall b0 ensures ReadsBody(w, enums, m, buf, b0) {
        if b0.nodes == m.body.nodes && Typed(w.c, b0.nodes, enums, b0.d) { ClientMsgRoundTrip(w, m, b0, enums); }
      }
    }
  }

  /** What msg.Serialize does, unless it fails. */
  predicate SerializesAs<M>(w: Proto<M>, m: Msg<M>, r: WriteLoop.Written) {
    !r.failed ==> SerializeMsg(w.c, m) == Ok(r.bytes)
  }

  /** The session's messages are those received from the channel in a run of the client, of whatever kinds. */
  ghost predicate ComesFrom<M(!new)>(w: Proto<M>, steps: seq<Lifecycle.Step>, contents: nat -> Msg<M>,
                                     s: WriteLoop.Session<nat>) {
    var end := Lifecycle.Run(Lifecycle.Initial(), steps);
    && end.Some? && !end.value.crashed && end.value.chan.Some?
    && var ch := end.value.chan.value;
    && |ch.queue| <= |ch.accepted| && s.accepted == Lifecycle.Taken(ch)
    && forall m | m in s.accepted :: SerializesAs(w, contents(m), s.serialize(m))
  }

  /** Buffer j is message j's bytes, and the message can be recovered from it. */
  ghost predicate Arrives<M(!new)>(w: Proto<M>, enums: Enums, m: Msg<M>, buf: seq<byte>) {
    SerializeMsg(w.c, m) == Ok(buf) && (Deliverable(w, enums, m) ==> Delivers(w, enums, m, buf))
  }

  /** No more of it was accepted than was sent, and sent than Write was called with. */
  ghost predicate WasWritten(steps: seq<Lifecycle.Step>, accepted: seq<nat>, m: nat) {
    var end := Lifecycle.Run(Lifecycle.Initial(), steps);
    end.Some? && multiset(accepted)[m] <= Lifecycle.Sent(end.value.writers, m) <= multiset(Lifecycle.Calls(steps))[m]
  }

  /**
   From Write to the peer: in any run of the client, what the peer reads from the stream, cut anywhere, is the
   bytes of the first n messages its channel accepted, in that order, each in a buffer of its own; from each of
   them that can be told apart by its kind the peer recovers kind, job ids and body; and none was accepted more
   often than writers have sent it, or sent more often than Write was called with it.
   */
  lemma PeerGetsAccepted<M(!new)>(w: Proto<M>, enums: Enums, steps: seq<Lifecycle.Step>, contents: nat -> Msg<M>,
                                  s: WriteLoop.Session<nat>, keys: nat -> Option<Cipher>,
                                  items: seq<Transport.Item>, k: nat)
    returns (n: nat)
    requires Faithful(w) && ComesFrom(w, steps, contents, s) && Transport.SameKeys(keys, items)
    requires Transport.Messages(items) == WriteLoop.Frames(s, 0, WriteLoop.Handed(s, 0))
    ensures var accepted := Lifecycle.Run(Lifecycle.Initial(), steps).value.chan.value.accepted;
            && n <= |accepted| && Transport.IsReader(Transport.TcpReader(keys))
            && (k <= |Flatten(Transport.Frames(items))| ==>
                  var stream := Flatten(Transport.Frames(items))[..k];
                  var (bufs, end) := Transport.ReadAll(Transport.TcpReader(keys), 0, stream);
                  && |bufs| == n && end == Err
                  && forall j | 0 <= j < n :: Arrives(w, enums, contents(accepted[j]), bufs[j]))
            && (forall m :: WasWritten(steps, accepted, m))
  {
    n := PeerReadsPrefix(s, keys, items, k);
    var accepted := Lifecycle.Run(Lifecycle.Initial(), steps).value.chan.value.accepted;
    forall m ensures WasWritten(steps, accepted, m) { Lifecycle.AcceptedWasWritten(steps, m); }
    forall j | 0 <= j < n
      ensures Arrives(w, enums, contents(accepted[j]), WriteLoop.Frames(s, 0, n)[j])
    {
      assert s.accepted[j] == accepted[j] && s.accepted[j] in s.accepted;
      WriteLoop.HandedIff(s, 0, j);
      var m, buf := contents(accepted[j]), s.serialize(accepted[j]).bytes;
      assert SerializesAs(w, m, s.serialize(accepted[j]));
      if Deliverable(w, enums, m) { SerializedDelivers(w, enums, m, buf); }
    }
  }
}
