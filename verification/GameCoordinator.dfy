/** Messages to and from a game coordinator, and the client envelope they travel in. */
module GameCoordinator {
  import opened Basics
  import opened Schema
  import opened Compiler
  import opened Machine
  import opened DeserializerProof
  import opened Headers
  import opened Packets

  datatype GCMsg<M> =
    | GCStruct(appId: int, msgType: int, target: int, source: int, body: seq<byte>)
    | GCProtobuf(appId: int, msgType: int, header: M, message: M)
  {
    predicate IsProto() { GCProtobuf? }
  }

  /** CMsgGCClient. */
  datatype Envelope = Envelope(msgType: int, appId: int, gcName: string, payload: seq<byte>)

  datatype GCPacket = GCPacket(appId: int, msgType: int, isProto: bool, gcName: string, body: seq<byte>, target: int)

  /** What Serialize leaves in the buffer: GameCoordinator.Write does not look at the error. */
  function Buffered(first: Outcome<seq<byte>>, second: Outcome<seq<byte>>): seq<byte> {
    if first.Ok? then first.value + (if second.Ok? then second.value else []) else []
  }

  function SerializeGC<M>(c: ProtoCodec<M>, m: GCMsg<M>): seq<byte> {
    match m
    case GCStruct(_, _, target, source, body) =>
      Buffered(SerializeClass(c, MsgGCHdr, MsgGCHdrOf(1, target, source)), Ok(body))
    case GCProtobuf(_, msgType, header, message) =>
      Buffered(SerializeClass(c, MsgGCHdrProtoBuf, ProtoHdrOf(Uint32, msgType, 0, header)), Marshalled(c, message))
  }

  /** The envelope GameCoordinator.Write builds. */
  function Wrap<M>(c: ProtoCodec<M>, m: GCMsg<M>): Envelope
    requires IsUint32(m.msgType)
  {
    Envelope(if m.IsProto() then SetMask(m.msgType) else m.msgType, m.appId, "", SerializeGC(c, m))
  }

  function NewGCPacket<M>(w: Proto<M>, e: Envelope): Outcome<GCPacket>
    requires IsUint32(e.msgType)
  {
    if e.msgType >= TWO31 then
      GCFromProto(w, Deserialize(w.c, DeserializerCode(MsgGCHdrProtoBuf, ENUMS),
                                      ProtoHdrOf(Uint32, 0, 0, w.blank), e.payload), e)
    else
      GCFromStruct(Deserialize(w.c, DeserializerCode(MsgGCHdr, ENUMS), MsgGCHdrOf(1, NO_JOB, NO_JOB), e.payload), e)
  }

  function GCFromProto<M>(w: Proto<M>, o: Outcome<(Object<M>, seq<byte>)>, e: Envelope): Outcome<GCPacket>
    requires IsUint32(e.msgType)
  {
    match o
    case Ok((d, rest)) =>
      if "Proto" in d && d["Proto"].Message?
      then Ok(GCPacket(e.appId, ClearMask(e.msgType), true, e.gcName, rest, w.targetJob(d["Proto"].m))) else Panic
    case Err => Err
    case Panic => Panic
  }

  function GCFromStruct<M>(o: Outcome<(Object<M>, seq<byte>)>, e: Envelope): Outcome<GCPacket> {
    match o
    case Ok((d, rest)) => Ok(GCPacket(e.appId, e.msgType, false, e.gcName, rest, NumOf(d, "TargetJobID")))
    case Err => Err
    case Panic => Panic
  }

  /** What a well-typed message can be: a marshallable protobuf, or a struct with 64-bit job ids. */
  ghost predicate Sendable<M>(c: ProtoCodec<M>, m: GCMsg<M>) {
    IsUint32(m.msgType) && IsUint32(m.appId) &&
    match m
    case GCStruct(_, _, target, source, _) => IsUint64(target) && IsUint64(source)
    case GCProtobuf(_, _, header, message) =>
      c.kind(header) == HEADER_KIND && c.marshal(message).Some?
      && c.marshal(header).Some? && |c.marshal(header).value| < TWO31
  }

  function TargetOf<M>(w: Proto<M>, m: GCMsg<M>): int {
    if m.GCStruct? then m.target else w.targetJob(m.header)
  }

  function BodyOf<M>(c: ProtoCodec<M>, m: GCMsg<M>): seq<byte> {
    if m.GCStruct? then m.body else if c.marshal(m.message).Some? then c.marshal(m.message).value else []
  }

  lemma GCJobs<M>(d: Object<M>, target: int, source: int)
    requires ReadSoFar(MsgGCHdr, |MsgGCHdr|, d, MsgGCHdrOf(1, target, source))
    ensures NumOf(d, "TargetJobID") == target
  {
    Fields(MsgGCHdr, 1, d, MsgGCHdrOf(1, target, source));
  }

  lemma GCHeaderSent<M(!new)>(c: ProtoCodec<M>, target: int, source: int)
    requires IsUint64(target) && IsUint64(source)
    ensures SerializeClass(c, MsgGCHdr, MsgGCHdrOf(1, target, source))
            == Ok(Encode(c, MsgGCHdr, MsgGCHdrOf(1, target, source)))
  {
    PlainHeadersWellFormed();
    MsgGCHdrOnWire(c, 1, target, source);
    SentAsIs(c, MsgGCHdr, ENUMS, MsgGCHdrOf(1, target, source));
  }

  /** The struct header and a body behind it, read back. */
  lemma GCHeaderRead<M(!new)>(w: Proto<M>, target: int, source: int, body: seq<byte>)
    requires Faithful(w) && IsUint64(target) && IsUint64(source)
    ensures var data := Encode(w.c, MsgGCHdr, MsgGCHdrOf(1, target, source)) + body;
            var r := Deserialize(w.c, DeserializerCode(MsgGCHdr, ENUMS), MsgGCHdrOf(1, NO_JOB, NO_JOB), data);
            r.Ok? && r.value.1 == body && NumOf(r.value.0, "TargetJobID") == target
  {
    var h: Object<M>, d: Object<M> := MsgGCHdrOf(1, target, source), MsgGCHdrOf(1, NO_JOB, NO_JOB);
    PlainHeadersWellFormed();
    MsgGCHdrOnWire(w.c, 1, target, source);
    MsgGCHdrOnWire(w.c, 1, NO_JOB, NO_JOB);
    DeserializeEncoded(w.c, MsgGCHdr, ENUMS, d, h, body);
    GCJobs(Deserialize(w.c, DeserializerCode(MsgGCHdr, ENUMS), d, Encode(w.c, MsgGCHdr, h) + body).value.0,
           target, source);
  }

  lemma StructEnvelope<M(!new)>(w: Proto<M>, m: GCMsg<M>)
    requires Faithful(w) && m.GCStruct? && Sendable(w.c, m)
    ensures m.msgType < TWO31 ==>
              NewGCPacket(w, Wrap(w.c, m)) == Ok(GCPacket(m.appId, m.msgType, false, "", m.body, m.target))
  {
    GCHeaderSent(w.c, m.target, m.source);
    GCHeaderRead(w, m.target, m.source, m.body);
  }

  lemma ProtoEnvelope<M(!new)>(w: Proto<M>, m: GCMsg<M>)
    requires Faithful(w) && m.GCProtobuf? && Sendable(w.c, m)
    ensures NewGCPacket(w, Wrap(w.c, m)) ==
            Ok(GCPacket(m.appId, ClearMask(m.msgType), true, "", BodyOf(w.c, m), TargetOf(w, m)))
  {
    ProtoSent(w.c, MsgGCHdrProtoBuf, Uint32, m.msgType, m.header);
    var h: Object<M> := ProtoHdrOf(Uint32, m.msgType, |w.c.marshal(m.header).value|, m.header);
    ProtoDeserialized(w, MsgGCHdrProtoBuf, Uint32, 0, h, w.c.marshal(m.message).value);
  }

  /**
   A GC message read back from its envelope: application, message type, proto flag, target job id and
   body are recovered exactly when the message type leaves the top bit to the proto flag.
   */
  lemma EnvelopeRoundTrip<M(!new)>(w: Proto<M>, m: GCMsg<M>)
    requires Faithful(w) && Sendable(w.c, m)
    ensures NewGCPacket(w, Wrap(w.c, m)) ==
            Ok(GCPacket(m.appId, m.msgType, m.IsProto(), "", BodyOf(w.c, m), TargetOf(w, m)))
            <==> m.msgType < TWO31
  {
    if m.GCStruct? {
      StructEnvelope(w, m);
    } else {
      ProtoEnvelope(w, m);
    }
  }

  /**
   The envelope through the whole stack: wrapped into a protobuf message, serialised as a client
   message of a kind below 2^31, demultiplexed, read, unwrapped and parsed.
   */
  lemma EnvelopeThroughWire<M(!new)>(w: Proto<M>, pack: Envelope -> M, unpack: M -> Envelope,
                                     m: GCMsg<M>, emsg: int, header: M)
    requires Faithful(w) && Sendable(w.c, m) && m.msgType < TWO31
    requires 0 <= emsg < TWO31 && !IsChannelEncrypt(emsg) && w.c.kind(header) == HEADER_KIND
    requires w.c.marshal(header).Some? && |w.c.marshal(header).value| < TWO31
    requires var e := Wrap(w.c, m); unpack(pack(e)) == e && w.c.marshal(pack(e)).Some?
    ensures var out := pack(Wrap(w.c, m));
            var s := SerializeMsg(w.c, ClientMsgProtobuf(emsg, header, out));
            s.Ok? && NewPacket(w, s.value).Ok? &&
            var r := ReadProtoMsg(w, NewPacket(w, s.value).value, w.c.kind(out));
            r.Ok? && r.value.Some? && IsUint32(unpack(r.value.value).msgType) &&
            NewGCPacket(w, unpack(r.value.value)) ==
            Ok(GCPacket(m.appId, m.msgType, m.IsProto(), "", BodyOf(w.c, m), TargetOf(w, m)))
  {
    ClientMsgProtobufRoundTrip(w, ClientMsgProtobuf(emsg, header, pack(Wrap(w.c, m))));
    EnvelopeRoundTrip(w, m);
  }
}
