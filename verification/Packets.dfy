/** Outgoing messages, and the demultiplexer that turns their bytes back into packets. */
module Packets {
  import opened Basics
  import opened Schema
  import opened Compiler
  import opened Machine
  import opened SerializerProof
  import opened DeserializerProof
  import opened Headers

  /** The protobuf side: marshalling, an empty header, and the header's job-id getters. */
  datatype Proto<!M> = Proto(c: ProtoCodec<M>, blank: M, targetJob: M -> nat, sourceJob: M -> nat)

  ghost predicate Faithful<M(!new)>(w: Proto<M>) {
    InversePair(w.c) && w.c.kind(w.blank) == HEADER_KIND
  }

  /** A message body: a class of the schema and its field values. */
  datatype Body<M> = Body(nodes: Class, d: Object<M>)

  ghost predicate GoodBody<M>(c: ProtoCodec<M>, enums: Enums, b: Body<M>) {
    WellFormed(b.nodes, enums) && Typed(c, b.nodes, enums, b.d) && Marshals(c, b.nodes, b.d)
  }

  // ----- messages -----

  datatype Msg<M> =
    | PlainMsg(msg: int, target: int, source: int, body: Body<M>, payload: seq<byte>)
    | ClientMsg(msg: int, target: int, source: int, steamId: int, sessionId: int, body: Body<M>, payload: seq<byte>)
    | ClientMsgProtobuf(msg: int, header: M, message: M)

  function Written<M>(o: Outcome<(Object<M>, seq<byte>)>): Outcome<seq<byte>> {
    match o
    case Ok(p) => Ok(p.1)
    case Err => Err
    case Panic => Panic
  }

  /** One write after another into the same buffer: the first failure is returned. */
  function Both(first: Outcome<seq<byte>>, second: Outcome<seq<byte>>): Outcome<seq<byte>> {
    match first
    case Ok(a) => (match second case Ok(b) => Ok(a + b) case e => e)
    case e => e
  }

  function Marshalled<M>(c: ProtoCodec<M>, m: M): Outcome<seq<byte>> {
    match c.marshal(m)
    case Some(b) => Ok(b)
    case None => Err
  }

  function SerializeClass<M>(c: ProtoCodec<M>, nodes: Class, d: Object<M>): Outcome<seq<byte>> {
    Written(Serialize(c, SerializerCode(nodes), d))
  }

  function SerializeMsg<M>(c: ProtoCodec<M>, m: Msg<M>): Outcome<seq<byte>> {
    match m
    case PlainMsg(msg, target, source, body, payload) =>
      Both(Both(SerializeClass(c, MsgHdr, MsgHdrOf(msg, target, source)), SerializeClass(c, body.nodes, body.d)),
           Ok(payload))
    case ClientMsg(msg, target, source, steamId, sessionId, body, payload) =>
      Both(Both(SerializeClass(c, ExtendedClientMsgHdr,
                               ExtendedClientMsgHdrOf(msg, target, source, steamId, sessionId)),
                SerializeClass(c, body.nodes, body.d)), Ok(payload))
    case ClientMsgProtobuf(msg, header, message) =>
      Both(SerializeClass(c, MsgHdrProtoBuf, ProtoHdrOf(Int32, msg, 0, header)), Marshalled(c, message))
  }

  // ----- packets -----

  datatype Packet = Packet(emsg: int, isProto: bool, target: int, source: int, data: seq<byte>)

  /** The raw message type at the head of a packet. */
  function RawEMsg(data: seq<byte>): (raw: nat)
    requires |data| >= 4
    ensures raw < TWO32
  {
    Pow256Values();
    UnLE(data[..4])
  }

  predicate IsChannelEncrypt(emsg: int) {
    emsg == EMSG_CHANNEL_ENCRYPT_REQUEST || emsg == EMSG_CHANNEL_ENCRYPT_RESULT
  }

  function FromStruct<M>(o: Outcome<(Object<M>, seq<byte>)>, emsg: int, data: seq<byte>): Outcome<Packet> {
    match o
    case Ok((d, _)) => Ok(Packet(emsg, false, NumOf(d, "TargetJobID"), NumOf(d, "SourceJobID"), data))
    case Err => Err
    case Panic => Panic
  }

  function FromProto<M>(w: Proto<M>, o: Outcome<(Object<M>, seq<byte>)>, emsg: int, data: seq<byte>): Outcome<Packet> {
    match o
    case Ok((d, _)) =>
      if "Proto" in d && d["Proto"].Message?
      then Ok(Packet(emsg, true, w.targetJob(d["Proto"].m), w.sourceJob(d["Proto"].m), data)) else Panic
    case Err => Err
    case Panic => Panic
  }

  function NewPacket<M>(w: Proto<M>, data: seq<byte>): Outcome<Packet> {
    if |data| < 4 then Err else
      var raw := RawEMsg(data);
      var emsg := ClearMask(raw);
      if IsChannelEncrypt(emsg) then
        FromStruct(Deserialize(w.c, DeserializerCode(MsgHdr, ENUMS), MsgHdrOf(emsg, NO_JOB, NO_JOB), data), emsg, data)
      else if raw >= TWO31 then
        FromProto(w, Deserialize(w.c, DeserializerCode(MsgHdrProtoBuf, ENUMS),
                                      ProtoHdrOf(Int32, emsg, 0, w.blank), data),
                  emsg, data)
      else
        FromStruct(Deserialize(w.c, DeserializerCode(ExtendedClientMsgHdr, ENUMS),
                               ExtendedClientMsgHdrOf(emsg, NO_JOB, NO_JOB, 0, 0), data), emsg, data)
  }

  /** ReadMsg and ReadClientMsg: header, body into b, and the rest as payload; errors are ignored. */
  function ReadStruct<M>(c: ProtoCodec<M>, hdr: Class, d0: Object<M>, b: Body<M>, enums: Enums, data: seq<byte>)
    : Outcome<(Object<M>, seq<byte>)>
  {
    match DeserializeInto(c, DeserializerCode(hdr, ENUMS), d0, data)
    case Ok((_, rest, _)) =>
      (match DeserializeInto(c, DeserializerCode(b.nodes, enums), b.d, rest)
       case Ok((d, payload, _)) => Ok((d, payload))
       case _ => Panic)
    case _ => Panic
  }

  function ReadMsg<M>(w: Proto<M>, p: Packet, b: Body<M>, enums: Enums): Outcome<(Object<M>, seq<byte>)> {
    ReadStruct(w.c, MsgHdr, MsgHdrOf(0, NO_JOB, NO_JOB), b, enums, p.data)
  }

  function ReadClientMsg<M>(w: Proto<M>, p: Packet, b: Body<M>, enums: Enums): Outcome<(Object<M>, seq<byte>)> {
    ReadStruct(w.c, ExtendedClientMsgHdr, ExtendedClientMsgHdrOf(0, NO_JOB, NO_JOB, 0, 0), b, enums, p.data)
  }

  /** ReadProtoMsg into a message of the given kind; None where Unmarshal reports an error that is ignored. */
  function ReadProtoMsg<M>(w: Proto<M>, p: Packet, kind: string): Outcome<Option<M>> {
    match DeserializeInto(w.c, DeserializerCode(MsgHdrProtoBuf, ENUMS), ProtoHdrOf(Int32, 0, 0, w.blank), p.data)
    case Ok((_, rest, _)) => Ok(w.c.unmarshal(kind, rest))
    case _ => Panic
  }

  // ----- proofs -----

  /** The first four bytes of an encoding whose first field takes four bytes. */
  lemma FirstField<M>(c: ProtoCodec<M>, nodes: Class, d: Object<M>, tail: seq<byte>)
    requires |nodes| > 0 && |FieldBytes(c, nodes[0], d)| == 4
    ensures (Encode(c, nodes, d) + tail)[..4] == FieldBytes(c, nodes[0], d)
  {
    assert Encode(c, nodes, d) == FieldBytes(c, nodes[0], d) + EncodeFrom(c, nodes, 1, d);
  }

  /** A class whose fields carry no protobuf is sent as it is. */
  lemma SentAsIs<M>(c: ProtoCodec<M>, nodes: Class, enums: Enums, d: Object<M>)
    requires WellFormed(nodes, enums) && Typed(c, nodes, enums, d)
    requires forall i | 0 <= i < |nodes| :: !nodes[i].flags.Proto?
    ensures Serialize(c, SerializerCode(nodes), d) == Ok((d, Encode(c, nodes, d)))
  {
    SerializeCorrect(c, nodes, enums, d);
    var d' := Serialize(c, SerializerCode(nodes), d).value.0;
    assert d'.Keys == d.Keys && forall x | x in d :: d'[x] == d[x];
    assert d' == d;
  }

  lemma Fields<M>(nodes: Class, i: nat, d: Object<M>, sent: Object<M>)
    requires i < |nodes| && !nodes[i].flags.Const? && ReadSoFar(nodes, |nodes|, d, sent)
    ensures nodes[i].name in d && nodes[i].name in sent && d[nodes[i].name] == Kept(nodes[i], sent[nodes[i].name])
  {}

  /** Reading a body that follows a header: the body as it was sent, and the payload after it. */
  lemma StructRead<M(!new)>(c: ProtoCodec<M>, hdr: Class, d0: Object<M>, h: Object<M>, b0: Body<M>, enums: Enums,
                            sent: Object<M>, payload: seq<byte>)
    requires InversePair(c) && WellFormed(hdr, ENUMS) && Typed(c, hdr, ENUMS, d0) && OnWire(c, hdr, ENUMS, h)
    requires WellFormed(b0.nodes, enums) && Typed(c, b0.nodes, enums, b0.d) && OnWire(c, b0.nodes, enums, sent)
    ensures var r := ReadStruct(c, hdr, d0, b0, enums, Encode(c, hdr, h) + (Encode(c, b0.nodes, sent) + payload));
            r.Ok? && r.value.1 == payload && ReadSoFar(b0.nodes, |b0.nodes|, r.value.0, sent)
  {
    DeserializeEncoded(c, hdr, ENUMS, d0, h, Encode(c, b0.nodes, sent) + payload);
    DeserializeEncoded(c, b0.nodes, enums, b0.d, sent, payload);
  }

  /** The two little-endian forms of a message type, read back. */
  lemma RawOfPlain(msg: int, data: seq<byte>)
    requires 0 <= msg < TWO31 && |data| >= 4 && data[..4] == LE(msg, 4)
    ensures RawEMsg(data) == msg
  {
    Pow256Values();
    UnLELE(msg, 4);
  }

  lemma RawOfMasked(msg: int, data: seq<byte>)
    requires 0 <= msg < TWO31 && |data| >= 4 && data[..4] == LE(SetMask(msg), 4)
    ensures RawEMsg(data) == msg + TWO31
  {
    Pow256Values();
    UnLELE(SetMask(msg), 4);
  }

  /** What the three serialisers of a structured message put one after the other. */
  lemma StructSent<M>(c: ProtoCodec<M>, hdr: Class, h: Object<M>, body: Body<M>, enums: Enums, payload: seq<byte>)
    requires WellFormed(hdr, ENUMS) && Typed(c, hdr, ENUMS, h) && forall i | 0 <= i < |hdr| :: !hdr[i].flags.Proto?
    requires GoodBody(c, enums, body)
    ensures var sent := Serialize(c, SerializerCode(body.nodes), body.d);
            sent.Ok? && OnWire(c, body.nodes, enums, sent.value.0) &&
            Both(Both(SerializeClass(c, hdr, h), SerializeClass(c, body.nodes, body.d)), Ok(payload)) ==
            Ok(Encode(c, hdr, h) + (Encode(c, body.nodes, sent.value.0) + payload))
  {
    SentAsIs(c, hdr, ENUMS, h);
    SerializeCorrect(c, body.nodes, enums, body.d);
    var sent := Serialize(c, SerializerCode(body.nodes), body.d).value.0;
    Reassociate(Encode(c, hdr, h), Encode(c, body.nodes, sent), payload);
  }

  lemma PlainJobs<M>(d: Object<M>, h: Object<M>)
    requires ReadSoFar(MsgHdr, |MsgHdr|, d, h)
    ensures NumOf(d, "TargetJobID") == NumOf(h, "TargetJobID") && NumOf(d, "SourceJobID") == NumOf(h, "SourceJobID")
  {
    Fields(MsgHdr, 1, d, h);
    Fields(MsgHdr, 2, d, h);
  }

  lemma ExtendedJobs<M>(d: Object<M>, h: Object<M>)
    requires ReadSoFar(ExtendedClientMsgHdr, |ExtendedClientMsgHdr|, d, h)
    ensures NumOf(d, "TargetJobID") == NumOf(h, "TargetJobID") && NumOf(d, "SourceJobID") == NumOf(h, "SourceJobID")
  {
    Fields(ExtendedClientMsgHdr, 3, d, h);
    Fields(ExtendedClientMsgHdr, 4, d, h);
  }

  lemma PlainRaw<M>(c: ProtoCodec<M>, h: Object<M>, msg: int, tail: seq<byte>)
    requires "Msg" in h && h["Msg"] == Num(Int32, msg) && 0 <= msg < TWO31
    ensures var data := Encode(c, MsgHdr, h) + tail;
            |data| >= 4 && RawEMsg(data) == msg
  {
    Pow256Values();
    assert FieldBytes(c, MsgHdr[0], h) == LE(msg, 4);
    FirstField(c, MsgHdr, h, tail);
    RawOfPlain(msg, Encode(c, MsgHdr, h) + tail);
  }

  /** NewPacket on a plain header of a ChannelEncrypt kind, and anything after it. */
  lemma PlainHeaderRead<M(!new)>(w: Proto<M>, msg: int, target: int, source: int, tail: seq<byte>)
    requires Faithful(w) && IsChannelEncrypt(msg) && IsUint64(target) && IsUint64(source)
    ensures var data := Encode(w.c, MsgHdr, MsgHdrOf(msg, target, source)) + tail;
            NewPacket(w, data) == Ok(Packet(msg, false, target, source, data))
  {
    var h: Object<M> := MsgHdrOf(msg, target, source);
    var data := Encode(w.c, MsgHdr, h) + tail;
    PlainHeadersWellFormed();
    MsgHdrOnWire(w.c, msg, target, source);
    MsgHdrOnWire(w.c, msg, NO_JOB, NO_JOB);
    PlainRaw(w.c, h, msg, tail);
    DeserializeEncoded(w.c, MsgHdr, ENUMS, MsgHdrOf(msg, NO_JOB, NO_JOB), h, tail);
    var r := Deserialize(w.c, DeserializerCode(MsgHdr, ENUMS), MsgHdrOf(msg, NO_JOB, NO_JOB), data).value.0;
    PlainJobs(r, h);
  }

  /** NewPacket on an extended header of any other kind below 2^31. */
  lemma ExtendedDemux<M(!new)>(w: Proto<M>, msg: int, h: Object<M>, tail: seq<byte>)
    requires Faithful(w) && 0 <= msg < TWO31 && !IsChannelEncrypt(msg) && OnWire(w.c, ExtendedClientMsgHdr, ENUMS, h)
    requires "Msg" in h && h["Msg"] == Num(Int32, msg)
    ensures var data := Encode(w.c, ExtendedClientMsgHdr, h) + tail;
            NewPacket(w, data) == Ok(Packet(msg, false, NumOf(h, "TargetJobID"), NumOf(h, "SourceJobID"), data))
  {
    ExtendedRaw(w.c, h, msg, tail);
    ExtendedDeserialized(w.c, msg, h, tail);
  }

  lemma ExtendedDeserialized<M(!new)>(c: ProtoCodec<M>, msg: int, h: Object<M>, tail: seq<byte>)
    requires InversePair(c) && 0 <= msg < TWO31 && OnWire(c, ExtendedClientMsgHdr, ENUMS, h)
    ensures var data := Encode(c, ExtendedClientMsgHdr, h) + tail;
            FromStruct(Deserialize(c, DeserializerCode(ExtendedClientMsgHdr, ENUMS),
                                   ExtendedClientMsgHdrOf(msg, NO_JOB, NO_JOB, 0, 0), data), msg, data) ==
            Ok(Packet(msg, false, NumOf(h, "TargetJobID"), NumOf(h, "SourceJobID"), data))
  {
    var d0: Object<M> := ExtendedClientMsgHdrOf(msg, NO_JOB, NO_JOB, 0, 0);
    ExtendedWellFormed();
    ExtendedOnWire(c, msg, NO_JOB, NO_JOB, 0, 0);
    DeserializeEncoded(c, ExtendedClientMsgHdr, ENUMS, d0, h, tail);
    ExtendedJobs(Deserialize(c, DeserializerCode(ExtendedClientMsgHdr, ENUMS), d0,
                             Encode(c, ExtendedClientMsgHdr, h) + tail).value.0, h);
  }

  lemma ExtendedRaw<M>(c: ProtoCodec<M>, h: Object<M>, msg: int, tail: seq<byte>)
    requires "Msg" in h && h["Msg"] == Num(Int32, msg) && 0 <= msg < TWO31
    ensures var data := Encode(c, ExtendedClientMsgHdr, h) + tail;
            |data| >= 4 && RawEMsg(data) == msg
  {
    Pow256Values();
    assert FieldBytes(c, ExtendedClientMsgHdr[0], h) == LE(msg, 4);
    FirstField(c, ExtendedClientMsgHdr, h, tail);
    RawOfPlain(msg, Encode(c, ExtendedClientMsgHdr, h) + tail);
  }

  /**
   A serialised Msg of an incoming ChannelEncrypt kind: NewPacket recovers its type and job ids, and
   ReadMsg its body and payload.
   */
  lemma MsgRoundTrip<M(!new)>(w: Proto<M>, m: Msg<M>, b0: Body<M>, enums: Enums)
    requires Faithful(w) && m.PlainMsg? && IsChannelEncrypt(m.msg) && IsUint64(m.target) && IsUint64(m.source)
    requires GoodBody(w.c, enums, m.body) && b0.nodes == m.body.nodes && Typed(w.c, b0.nodes, enums, b0.d)
    ensures var s := SerializeMsg(w.c, m);
            s.Ok? && NewPacket(w, s.value) == Ok(Packet(m.msg, false, m.target, m.source, s.value)) &&
            var r := ReadMsg(w, Packet(m.msg, false, m.target, m.source, s.value), b0, enums);
            var sent := Serialize(w.c, SerializerCode(m.body.nodes), m.body.d);
            r.Ok? && r.value.1 == m.payload && sent.Ok? && ReadSoFar(b0.nodes, |b0.nodes|, r.value.0, sent.value.0)
  {
    var h: Object<M> := MsgHdrOf(m.msg, m.target, m.source);
    PlainHeadersWellFormed();
    MsgHdrOnWire(w.c, m.msg, m.target, m.source);
    MsgHdrOnWire(w.c, 0, NO_JOB, NO_JOB);
    StructSent(w.c, MsgHdr, h, m.body, enums, m.payload);
    var sent := Serialize(w.c, SerializerCode(m.body.nodes), m.body.d).value.0;
    PlainHeaderRead(w, m.msg, m.target, m.source, Encode(w.c, m.body.nodes, sent) + m.payload);
    StructRead(w.c, MsgHdr, MsgHdrOf(0, NO_JOB, NO_JOB), h, b0, enums, sent, m.payload);
  }

  /** The same for a ClientMsg of any other kind below 2^31. */
  lemma ClientMsgRoundTrip<M(!new)>(w: Proto<M>, m: Msg<M>, b0: Body<M>, enums: Enums)
    requires Faithful(w) && m.ClientMsg? && 0 <= m.msg < TWO31 && !IsChannelEncrypt(m.msg)
    requires IsUint64(m.target) && IsUint64(m.source) && IsUint64(m.steamId) && IsInt32(m.sessionId)
    requires GoodBody(w.c, enums, m.body) && b0.nodes == m.body.nodes && Typed(w.c, b0.nodes, enums, b0.d)
    ensures var s := SerializeMsg(w.c, m);
            s.Ok? && NewPacket(w, s.value) == Ok(Packet(m.msg, false, m.target, m.source, s.value)) &&
            var r := ReadClientMsg(w, Packet(m.msg, false, m.target, m.source, s.value), b0, enums);
            var sent := Serialize(w.c, SerializerCode(m.body.nodes), m.body.d);
            r.Ok? && r.value.1 == m.payload && sent.Ok? && ReadSoFar(b0.nodes, |b0.nodes|, r.value.0, sent.value.0)
  {
    ExtendedOnWire(w.c, m.msg, m.target, m.source, m.steamId, m.sessionId);
    ExtendedNums<M>(m.msg, m.target, m.source, m.steamId, m.sessionId);
    ExtendedRoundTrip(w, m, ExtendedClientMsgHdrOf(m.msg, m.target, m.source, m.steamId, m.sessionId), b0, enums);
  }

  lemma ExtendedRoundTrip<M(!new)>(w: Proto<M>, m: Msg<M>, h: Object<M>, b0: Body<M>, enums: Enums)
    requires Faithful(w) && m.ClientMsg? && 0 <= m.msg < TWO31 && !IsChannelEncrypt(m.msg)
    requires OnWire(w.c, ExtendedClientMsgHdr, ENUMS, h) && "Msg" in h && h["Msg"] == Num(Int32, m.msg)
    requires NumOf(h, "TargetJobID") == m.target && NumOf(h, "SourceJobID") == m.source
    requires GoodBody(w.c, enums, m.body) && b0.nodes == m.body.nodes && Typed(w.c, b0.nodes, enums, b0.d)
    ensures var s := Both(Both(SerializeClass(w.c, ExtendedClientMsgHdr, h),
                               SerializeClass(w.c, m.body.nodes, m.body.d)), Ok(m.payload));
            s.Ok? && NewPacket(w, s.value) == Ok(Packet(m.msg, false, m.target, m.source, s.value)) &&
            var r := ReadClientMsg(w, Packet(m.msg, false, m.target, m.source, s.value), b0, enums);
            var sent := Serialize(w.c, SerializerCode(m.body.nodes), m.body.d);
            r.Ok? && r.value.1 == m.payload && sent.Ok? && ReadSoFar(b0.nodes, |b0.nodes|, r.value.0, sent.value.0)
  {
    ExtendedWellFormed();
    ExtendedIsPlain();
    StructSent(w.c, ExtendedClientMsgHdr, h, m.body, enums, m.payload);
    var sent := Serialize(w.c, SerializerCode(m.body.nodes), m.body.d).value.0;
    ExtendedDemux(w, m.msg, h, Encode(w.c, m.body.nodes, sent) + m.payload);
    ExtendedBodyRead(w.c, h, b0, enums, sent, m.payload);
  }

  lemma ExtendedBodyRead<M(!new)>(c: ProtoCodec<M>, h: Object<M>, b0: Body<M>, enums: Enums, sent: Object<M>,
                                  payload: seq<byte>)
    requires InversePair(c) && OnWire(c, ExtendedClientMsgHdr, ENUMS, h)
    requires WellFormed(b0.nodes, enums) && Typed(c, b0.nodes, enums, b0.d) && OnWire(c, b0.nodes, enums, sent)
    ensures var d0: Object<M> := ExtendedClientMsgHdrOf(0, NO_JOB, NO_JOB, 0, 0);
            var data := Encode(c, ExtendedClientMsgHdr, h) + (Encode(c, b0.nodes, sent) + payload);
            var r := ReadStruct(c, ExtendedClientMsgHdr, d0, b0, enums, data);
            r.Ok? && r.value.1 == payload && ReadSoFar(b0.nodes, |b0.nodes|, r.value.0, sent)
  {
    ExtendedWellFormed();
    ExtendedOnWire(c, 0, NO_JOB, NO_JOB, 0, 0);
    StructRead(c, ExtendedClientMsgHdr, ExtendedClientMsgHdrOf(0, NO_JOB, NO_JOB, 0, 0), h, b0, enums, sent, payload);
  }

  /**
   A serialised ClientMsgProtobuf of kind below 2^31 comes back as a protobuf packet exactly when its
   kind is not one of the two that NewPacket always reads with the plain header; then the type, the
   job ids and the body are recovered.
   */
  lemma ClientMsgProtobufRoundTrip<M(!new)>(w: Proto<M>, m: Msg<M>)
    requires Faithful(w) && m.ClientMsgProtobuf? && 0 <= m.msg < TWO31
    requires w.c.kind(m.header) == HEADER_KIND && w.c.marshal(m.message).Some?
    requires w.c.marshal(m.header).Some? && |w.c.marshal(m.header).value| < TWO31
    ensures var s := SerializeMsg(w.c, m);
            s.Ok? &&
            var p := NewPacket(w, s.value);
            ((p.Ok? && p.value.isProto) <==> !IsChannelEncrypt(m.msg)) &&
            (!IsChannelEncrypt(m.msg) ==>
              p == Ok(Packet(m.msg, true, w.targetJob(m.header), w.sourceJob(m.header), s.value)) &&
              ReadProtoMsg(w, p.value, w.c.kind(m.message)) == Ok(Some(m.message)))
  {
    var h: Object<M> := ProtoHdrOf(Int32, m.msg, |w.c.marshal(m.header).value|, m.header);
    ProtoSent(w.c, MsgHdrProtoBuf, Int32, m.msg, m.header);
    ProtoRaw(w.c, h, m.msg, w.c.marshal(m.message).value);
    if !IsChannelEncrypt(m.msg) {
      ProtoDemux(w, m.msg, h, w.c.marshal(m.message).value);
      ProtoBodyRead(w, m.msg, h, m.message);
    }
  }

  /** NewPacket on a protobuf header of a kind that is read with one. */
  lemma ProtoDemux<M(!new)>(w: Proto<M>, msg: int, h: Object<M>, tail: seq<byte>)
    requires Faithful(w) && 0 <= msg < TWO31 && !IsChannelEncrypt(msg) && OnWire(w.c, MsgHdrProtoBuf, ENUMS, h)
    requires "Msg" in h && h["Msg"] == Num(Int32, msg) && "Proto" in h && h["Proto"].Message?
    ensures var data := Encode(w.c, MsgHdrProtoBuf, h) + tail;
            NewPacket(w, data) == Ok(Packet(msg, true, w.targetJob(h["Proto"].m), w.sourceJob(h["Proto"].m), data))
  {
    ProtoRaw(w.c, h, msg, tail);
    ProtoDeserialized(w, MsgHdrProtoBuf, Int32, msg, h, tail);
  }

  /** ReadProtoMsg on a protobuf header and a marshalled body. */
  lemma ProtoBodyRead<M(!new)>(w: Proto<M>, msg: int, h: Object<M>, m: M)
    requires Faithful(w) && OnWire(w.c, MsgHdrProtoBuf, ENUMS, h) && "Proto" in h && w.c.marshal(m).Some?
    ensures forall p: Packet | p.data == Encode(w.c, MsgHdrProtoBuf, h) + w.c.marshal(m).value ::
              ReadProtoMsg(w, p, w.c.kind(m)) == Ok(Some(m))
  {
    ProtoDeserialized(w, MsgHdrProtoBuf, Int32, 0, h, w.c.marshal(m).value);
  }

  lemma ProtoRaw<M>(c: ProtoCodec<M>, h: Object<M>, msg: int, tail: seq<byte>)
    requires "Msg" in h && h["Msg"] == Num(Int32, msg) && 0 <= msg < TWO31
    ensures var data := Encode(c, MsgHdrProtoBuf, h) + tail;
            |data| >= 4 && RawEMsg(data) == msg + TWO31
  {
    assert FieldBytes(c, MsgHdrProtoBuf[0], h) == LE(SetMask(msg), 4);
    FirstField(c, MsgHdrProtoBuf, h, tail);
    RawOfMasked(msg, Encode(c, MsgHdrProtoBuf, h) + tail);
  }

  /** Reading either protobuf header, whatever the receiver's own message type: the header message and the rest. */
  lemma ProtoDeserialized<M(!new)>(w: Proto<M>, nodes: Class, t: GoType, msg: int, h: Object<M>, tail: seq<byte>)
    requires Faithful(w) && 0 <= msg < TWO31 && OnWire(w.c, nodes, ENUMS, h) && "Proto" in h
    requires (nodes == MsgHdrProtoBuf && t == Int32) || (nodes == MsgGCHdrProtoBuf && t == Uint32)
    ensures var r := Deserialize(w.c, DeserializerCode(nodes, ENUMS), ProtoHdrOf(t, msg, 0, w.blank),
                                 Encode(w.c, nodes, h) + tail);
            r.Ok? && r.value.1 == tail && "Proto" in r.value.0 && r.value.0["Proto"] == h["Proto"]
  {
    ProtoHeadersWellFormed();
    ProtoHdrTyped(w.c, msg, 0, w.blank);
    DeserializeEncoded(w.c, nodes, ENUMS, ProtoHdrOf(t, msg, 0, w.blank), h, tail);
    Fields(nodes, 2, Deserialize(w.c, DeserializerCode(nodes, ENUMS), ProtoHdrOf(t, msg, 0, w.blank),
                                 Encode(w.c, nodes, h) + tail).value.0, h);
  }

  /** A protobuf header is sent with its length filled in. */
  lemma ProtoSent<M(!new)>(c: ProtoCodec<M>, nodes: Class, t: GoType, msg: int, header: M)
    requires (nodes == MsgHdrProtoBuf && t == Int32 && IsInt32(msg))
             || (nodes == MsgGCHdrProtoBuf && t == Uint32 && IsUint32(msg))
    requires c.kind(header) == HEADER_KIND && c.marshal(header).Some? && |c.marshal(header).value| < TWO31
    ensures var h: Object<M> := ProtoHdrOf(t, msg, |c.marshal(header).value|, header);
            OnWire(c, nodes, ENUMS, h)
            && Serialize(c, SerializerCode(nodes), ProtoHdrOf(t, msg, 0, header)) == Ok((h, Encode(c, nodes, h)))
  {
    var d: Object<M> := ProtoHdrOf(t, msg, 0, header);
    ProtoHeadersWellFormed();
    ProtoHdrTyped(c, msg, 0, header);
    SerializeCorrect(c, nodes, ENUMS, d);
    OnlyLengthChanges(c, nodes, t, msg, header, Serialize(c, SerializerCode(nodes), d).value.0);
  }

  lemma OnlyLengthChanges<M>(c: ProtoCodec<M>, nodes: Class, t: GoType, msg: int, header: M, d': Object<M>)
    requires nodes == MsgHdrProtoBuf || nodes == MsgGCHdrProtoBuf
    requires Sent(c, nodes, ProtoHdrOf(t, msg, 0, header), d')
    ensures c.marshal(header).Some? && d' == ProtoHdrOf(t, msg, |c.marshal(header).value|, header)
  {
    var d: Object<M> := ProtoHdrOf(t, msg, 0, header);
    assert nodes[2].flags.Proto? && LengthSet(c, nodes[2], d');
    assert d'["Proto"] == d["Proto"] && d'["Msg"] == d["Msg"];
  }
}
