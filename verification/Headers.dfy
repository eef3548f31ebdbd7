/** The message headers, as field lists for the compiler, with their constructors' values. */
module Headers {
  import opened Basics
  import opened Schema

  const ENUMS: Enums := map["EMsg" := Int32]

  const NO_JOB: nat := TWO64 - 1

  const EMSG_MULTI := 1
  const EMSG_CHANNEL_ENCRYPT_REQUEST := 1303
  const EMSG_CHANNEL_ENCRYPT_RESULT := 1305

  const HEADER_KIND := "CMsgProtoBufHeader"

  predicate IsInt32(v: int) { -TWO31 <= v < TWO31 }
  predicate IsUint32(v: int) { 0 <= v < TWO32 }
  predicate IsUint64(v: int) { 0 <= v < TWO64 }

  const MsgHdr: Class := [
    PropNode("Msg", EnumType("EMsg"), NoFlag, NoOpt),
    PropNode("TargetJobID", Builtin(ULong), NoFlag, NoOpt),
    PropNode("SourceJobID", Builtin(ULong), NoFlag, NoOpt)]

  function MsgHdrOf<M>(msg: int, target: int, source: int): Object<M> {
    map["Msg" := Num(Int32, msg), "TargetJobID" := Num(Uint64, target), "SourceJobID" := Num(Uint64, source)]
  }

  const ExtendedClientMsgHdr: Class := [
    PropNode("Msg", EnumType("EMsg"), NoFlag, NoOpt),
    PropNode("HeaderSize", Builtin(Byte), NoFlag, NoOpt),
    PropNode("HeaderVersion", Builtin(UShort), NoFlag, NoOpt),
    PropNode("TargetJobID", Builtin(ULong), NoFlag, NoOpt),
    PropNode("SourceJobID", Builtin(ULong), NoFlag, NoOpt),
    PropNode("HeaderCanary", Builtin(Byte), NoFlag, NoOpt),
    PropNode("SteamID", Builtin(ULong), SteamIdMarshal, NoOpt),
    PropNode("SessionID", Builtin(Int), NoFlag, NoOpt)]

  /** One with any values in it. */
  function ExtendedHdr<M>(msg: int, size: int, version: int, target: int, source: int, canary: int,
                          steamId: int, sessionId: int): Object<M>
  {
    map["Msg" := Num(Int32, msg), "HeaderSize" := Num(Uint8, size), "HeaderVersion" := Num(Uint16, version),
        "TargetJobID" := Num(Uint64, target), "SourceJobID" := Num(Uint64, source),
        "HeaderCanary" := Num(Uint8, canary), "SteamID" := Num(Uint64, steamId), "SessionID" := Num(Int32, sessionId)]
  }

  /** The constructor's values in the fields that nobody sets. */
  function ExtendedClientMsgHdrOf<M>(msg: int, target: int, source: int, steamId: int, sessionId: int): Object<M> {
    ExtendedHdr(msg, 36, 2, target, source, 239, steamId, sessionId)
  }

  const MsgHdrProtoBuf: Class := [
    PropNode("Msg", EnumType("EMsg"), ProtoMask, NoOpt),
    PropNode("HeaderLength", Builtin(Int), NoFlag, NoOpt),
    PropNode("Proto", ProtoType(HEADER_KIND), Proto, LengthField("HeaderLength"))]

  const MsgGCHdrProtoBuf: Class := [
    PropNode("Msg", Builtin(UInt), ProtoMaskGc, NoOpt),
    PropNode("HeaderLength", Builtin(Int), NoFlag, NoOpt),
    PropNode("Proto", ProtoType(HEADER_KIND), Proto, LengthField("HeaderLength"))]

  /** Both protobuf headers; t is the Go type of Msg. */
  function ProtoHdrOf<M>(t: GoType, msg: int, length: int, header: M): Object<M> {
    map["Msg" := Num(t, msg), "HeaderLength" := Num(Int32, length), "Proto" := Message(header)]
  }

  const MsgGCHdr: Class := [
    PropNode("HeaderVersion", Builtin(UShort), NoFlag, NoOpt),
    PropNode("TargetJobID", Builtin(ULong), NoFlag, NoOpt),
    PropNode("SourceJobID", Builtin(ULong), NoFlag, NoOpt)]

  function MsgGCHdrOf<M>(version: int, target: int, source: int): Object<M> {
    map["HeaderVersion" := Num(Uint16, version), "TargetJobID" := Num(Uint64, target),
        "SourceJobID" := Num(Uint64, source)]
  }

  /** Names are told apart by their lengths, or by their first letters. */
  predicate Apart(a: string, b: string) { |a| != |b| || (|a| > 0 && a[0] != b[0]) }

  /** A class without protobufs needs declared types and distinct names. */
  lemma PlainWellFormed(nodes: Class)
    requires forall i | 0 <= i < |nodes|
               :: nodes[i].flags != Flags.Proto && !nodes[i].flags.Const? && FieldTypeOf(nodes[i], ENUMS).Some?
    requires forall i, j | 0 <= i < j < |nodes| :: Apart(nodes[i].name, nodes[j].name)
    ensures WellFormed(nodes, ENUMS)
  {}

  /** The field lists meet the compiler's well-formedness. */
  lemma PlainHeadersWellFormed()
    ensures WellFormed(MsgHdr, ENUMS) && WellFormed(MsgGCHdr, ENUMS)
  {
    MsgHdrNames();
    MsgGCHdrNames();
    PlainWellFormed(MsgHdr);
    PlainWellFormed(MsgGCHdr);
  }

  lemma MsgHdrNames()
    ensures forall i, j | 0 <= i < j < |MsgHdr| :: Apart(MsgHdr[i].name, MsgHdr[j].name)
  {}

  lemma MsgGCHdrNames()
    ensures forall i, j | 0 <= i < j < |MsgGCHdr| :: Apart(MsgGCHdr[i].name, MsgGCHdr[j].name)
  {}

  lemma ExtendedWellFormed()
    ensures WellFormed(ExtendedClientMsgHdr, ENUMS)
  {
    ExtendedNames();
    PlainWellFormed(ExtendedClientMsgHdr);
  }

  lemma ExtendedNames()
    ensures forall i, j | 0 <= i < j < |ExtendedClientMsgHdr|
              :: Apart(ExtendedClientMsgHdr[i].name, ExtendedClientMsgHdr[j].name)
  {
    var h := ExtendedClientMsgHdr;
    // all the lengths differ but one pair, which differs in its first letter
    assert |h[0].name| == 3 && |h[1].name| == 10 && |h[2].name| == 13 && |h[3].name| == 11;
    assert |h[4].name| == 11 && |h[5].name| == 12 && |h[6].name| == 7 && |h[7].name| == 9;
    assert h[3].name[0] != h[4].name[0];
  }

  lemma ProtoHeadersWellFormed()
    ensures WellFormed(MsgHdrProtoBuf, ENUMS) && WellFormed(MsgGCHdrProtoBuf, ENUMS)
  {
    assert IsLengthFor(MsgHdrProtoBuf[1], "HeaderLength");
    assert IsLengthFor(MsgGCHdrProtoBuf[1], "HeaderLength");
  }

  /** A plain number field of the right range. */
  lemma NumOk<M>(c: ProtoCodec<M>, node: PropNode, d: Object<M>, t: GoType)
    requires !node.flags.Const? && FieldTypeOf(node, ENUMS) == Some(NumField(t))
    requires node.name in d && d[node.name].Num? && d[node.name].t == t && t.InRange(d[node.name].v)
    ensures FieldOk(c, node, ENUMS, d)
  {}

  lemma ProtoOk<M>(c: ProtoCodec<M>, node: PropNode, d: Object<M>)
    requires node.flags == Flags.Proto && node.opt.LengthField? && node.typ == ProtoType(HEADER_KIND)
    requires node.name in d && d[node.name].Message? && c.kind(d[node.name].m) == HEADER_KIND
    ensures FieldOk(c, node, ENUMS, d)
  {}

  /** A class without protobufs is on the wire as soon as it is typed. */
  lemma TypedOnWire<M>(c: ProtoCodec<M>, nodes: Class, d: Object<M>)
    requires Typed(c, nodes, ENUMS, d) && forall i | 0 <= i < |nodes| :: !nodes[i].flags.Proto?
    ensures OnWire(c, nodes, ENUMS, d)
  {}

  lemma Range8(v: int)
    requires 0 <= v < 0x100
    ensures Uint8.InRange(v)
  {
    Pow256Values();
  }

  lemma Range16(v: int)
    requires 0 <= v < 0x1_0000
    ensures Uint16.InRange(v)
  {
    Pow256Values();
  }

  lemma Range32(v: int)
    ensures IsInt32(v) ==> Int32.InRange(v)
    ensures IsUint32(v) ==> Uint32.InRange(v)
  {
    Pow256Values();
  }

  lemma Range64(v: int)
    requires IsUint64(v)
    ensures Uint64.InRange(v)
  {
    Pow256Values();
  }

  lemma MsgHdrOnWire<M>(c: ProtoCodec<M>, msg: int, target: int, source: int)
    requires IsInt32(msg) && IsUint64(target) && IsUint64(source)
    ensures OnWire(c, MsgHdr, ENUMS, MsgHdrOf(msg, target, source))
  {
    var d: Object<M> := MsgHdrOf(msg, target, source);
    Range32(msg);
    Range64(target);
    Range64(source);
    NumOk(c, MsgHdr[0], d, Int32);
    NumOk(c, MsgHdr[1], d, Uint64);
    NumOk(c, MsgHdr[2], d, Uint64);
    TypedOnWire(c, MsgHdr, d);
  }

  lemma ExtendedOnWire<M>(c: ProtoCodec<M>, msg: int, target: int, source: int, steamId: int, sessionId: int)
    requires IsInt32(msg) && IsUint64(target) && IsUint64(source) && IsUint64(steamId) && IsInt32(sessionId)
    ensures OnWire(c, ExtendedClientMsgHdr, ENUMS, ExtendedClientMsgHdrOf(msg, target, source, steamId, sessionId))
  {
    ExtendedHdrOnWire(c, msg, 36, 2, target, source, 239, steamId, sessionId);
  }

  lemma ExtendedHdrOnWire<M>(c: ProtoCodec<M>, msg: int, size: int, version: int, target: int, source: int,
                             canary: int, steamId: int, sessionId: int)
    requires IsInt32(msg) && 0 <= size < 0x100 && 0 <= version < 0x1_0000 && IsUint64(target) && IsUint64(source)
    requires 0 <= canary < 0x100 && IsUint64(steamId) && IsInt32(sessionId)
    ensures OnWire(c, ExtendedClientMsgHdr, ENUMS,
                   ExtendedHdr(msg, size, version, target, source, canary, steamId, sessionId))
  {
    var d: Object<M> := ExtendedHdr(msg, size, version, target, source, canary, steamId, sessionId);
    ExtendedFields01(c, msg, size, version, target, source, canary, steamId, sessionId);
    ExtendedFields23(c, msg, size, version, target, source, canary, steamId, sessionId);
    ExtendedFields45(c, msg, size, version, target, source, canary, steamId, sessionId);
    ExtendedFields67(c, msg, size, version, target, source, canary, steamId, sessionId);
    assert Typed(c, ExtendedClientMsgHdr, ENUMS, d);
    ExtendedIsPlain();
    TypedOnWire(c, ExtendedClientMsgHdr, d);
  }

  lemma ExtendedIsPlain()
    ensures forall i | 0 <= i < |ExtendedClientMsgHdr| :: !ExtendedClientMsgHdr[i].flags.Proto?
  {}

  lemma ExtendedFields01<M>(c: ProtoCodec<M>, msg: int, size: int, version: int, target: int, source: int,
                            canary: int, steamId: int, sessionId: int)
    requires IsInt32(msg) && 0 <= size < 0x100
    ensures var d: Object<M> := ExtendedHdr(msg, size, version, target, source, canary, steamId, sessionId);
            FieldOk(c, ExtendedClientMsgHdr[0], ENUMS, d) && FieldOk(c, ExtendedClientMsgHdr[1], ENUMS, d)
  {
    var d: Object<M> := ExtendedHdr(msg, size, version, target, source, canary, steamId, sessionId);
    Range32(msg);
    Range8(size);
    NumOk(c, ExtendedClientMsgHdr[0], d, Int32);
    NumOk(c, ExtendedClientMsgHdr[1], d, Uint8);
  }

  lemma ExtendedFields23<M>(c: ProtoCodec<M>, msg: int, size: int, version: int, target: int, source: int,
                            canary: int, steamId: int, sessionId: int)
    requires 0 <= version < 0x1_0000 && IsUint64(target)
    ensures var d: Object<M> := ExtendedHdr(msg, size, version, target, source, canary, steamId, sessionId);
            FieldOk(c, ExtendedClientMsgHdr[2], ENUMS, d) && FieldOk(c, ExtendedClientMsgHdr[3], ENUMS, d)
  {
    var d: Object<M> := ExtendedHdr(msg, size, version, target, source, canary, steamId, sessionId);
    Range16(version);
    Range64(target);
    NumOk(c, ExtendedClientMsgHdr[2], d, Uint16);
    NumOk(c, ExtendedClientMsgHdr[3], d, Uint64);
  }

  lemma ExtendedFields45<M>(c: ProtoCodec<M>, msg: int, size: int, version: int, target: int, source: int,
                            canary: int, steamId: int, sessionId: int)
    requires IsUint64(source) && 0 <= canary < 0x100
    ensures var d: Object<M> := ExtendedHdr(msg, size, version, target, source, canary, steamId, sessionId);
            FieldOk(c, ExtendedClientMsgHdr[4], ENUMS, d) && FieldOk(c, ExtendedClientMsgHdr[5], ENUMS, d)
  {
    var d: Object<M> := ExtendedHdr(msg, size, version, target, source, canary, steamId, sessionId);
    Range64(source);
    Range8(canary);
    NumOk(c, ExtendedClientMsgHdr[4], d, Uint64);
    NumOk(c, ExtendedClientMsgHdr[5], d, Uint8);
  }

  lemma ExtendedFields67<M>(c: ProtoCodec<M>, msg: int, size: int, version: int, target: int, source: int,
                            canary: int, steamId: int, sessionId: int)
    requires IsUint64(steamId) && IsInt32(sessionId)
    ensures var d: Object<M> := ExtendedHdr(msg, size, version, target, source, canary, steamId, sessionId);
            FieldOk(c, ExtendedClientMsgHdr[6], ENUMS, d) && FieldOk(c, ExtendedClientMsgHdr[7], ENUMS, d)
  {
    var d: Object<M> := ExtendedHdr(msg, size, version, target, source, canary, steamId, sessionId);
    Range64(steamId);
    Range32(sessionId);
    NumOk(c, ExtendedClientMsgHdr[6], d, Uint64);
    NumOk(c, ExtendedClientMsgHdr[7], d, Int32);
  }

  function NumOf<M>(d: Object<M>, f: string): int {
    if f in d && d[f].Num? then d[f].v else 0
  }

  lemma ExtendedNums<M>(msg: int, target: int, source: int, steamId: int, sessionId: int)
    ensures var h: Object<M> := ExtendedClientMsgHdrOf(msg, target, source, steamId, sessionId);
            "Msg" in h && h["Msg"] == Num(Int32, msg)
            && NumOf(h, "TargetJobID") == target && NumOf(h, "SourceJobID") == source
  {}

  lemma MsgGCHdrOnWire<M>(c: ProtoCodec<M>, version: int, target: int, source: int)
    requires 0 <= version < 0x1_0000 && IsUint64(target) && IsUint64(source)
    ensures OnWire(c, MsgGCHdr, ENUMS, MsgGCHdrOf(version, target, source))
  {
    var d: Object<M> := MsgGCHdrOf(version, target, source);
    Range16(version);
    Range64(target);
    Range64(source);
    NumOk(c, MsgGCHdr[0], d, Uint16);
    NumOk(c, MsgGCHdr[1], d, Uint64);
    NumOk(c, MsgGCHdr[2], d, Uint64);
    TypedOnWire(c, MsgGCHdr, d);
  }

  lemma ProtoHdrTyped<M>(c: ProtoCodec<M>, msg: int, length: int, header: M)
    requires IsInt32(length) && c.kind(header) == HEADER_KIND
    ensures IsInt32(msg) ==> Typed(c, MsgHdrProtoBuf, ENUMS, ProtoHdrOf(Int32, msg, length, header))
    ensures IsUint32(msg) ==> Typed(c, MsgGCHdrProtoBuf, ENUMS, ProtoHdrOf(Uint32, msg, length, header))
  {
    if IsInt32(msg) { MsgProtoTyped(c, msg, length, header); }
    if IsUint32(msg) { GCProtoTyped(c, msg, length, header); }
  }

  lemma MsgProtoTyped<M>(c: ProtoCodec<M>, msg: int, length: int, header: M)
    requires IsInt32(msg) && IsInt32(length) && c.kind(header) == HEADER_KIND
    ensures Typed(c, MsgHdrProtoBuf, ENUMS, ProtoHdrOf(Int32, msg, length, header))
  {
    var d: Object<M> := ProtoHdrOf(Int32, msg, length, header);
    Range32(msg);
    Range32(length);
    NumOk(c, MsgHdrProtoBuf[0], d, Int32);
    NumOk(c, MsgHdrProtoBuf[1], d, Int32);
    ProtoOk(c, MsgHdrProtoBuf[2], d);
  }

  lemma GCTypeOk<M>(c: ProtoCodec<M>, msg: int, length: int, header: M)
    requires IsUint32(msg)
    ensures FieldOk(c, MsgGCHdrProtoBuf[0], ENUMS, ProtoHdrOf(Uint32, msg, length, header))
  {
    Range32(msg);
    NumOk(c, MsgGCHdrProtoBuf[0], ProtoHdrOf(Uint32, msg, length, header), Uint32);
  }

  lemma GCProtoFieldOk<M>(c: ProtoCodec<M>, msg: int, length: int, header: M)
    requires c.kind(header) == HEADER_KIND
    ensures FieldOk(c, MsgGCHdrProtoBuf[2], ENUMS, ProtoHdrOf(Uint32, msg, length, header))
  {
    ProtoOk(c, MsgGCHdrProtoBuf[2], ProtoHdrOf(Uint32, msg, length, header));
  }

  lemma GCProtoTyped<M>(c: ProtoCodec<M>, msg: int, length: int, header: M)
    requires IsUint32(msg) && IsInt32(length) && c.kind(header) == HEADER_KIND
    ensures Typed(c, MsgGCHdrProtoBuf, ENUMS, ProtoHdrOf(Uint32, msg, length, header))
  {
    var d: Object<M> := ProtoHdrOf(Uint32, msg, length, header);
    Range32(length);
    GCTypeOk(c, msg, length, header);
    NumOk(c, MsgGCHdrProtoBuf[1], d, Int32);
    GCProtoFieldOk(c, msg, length, header);
  }
}
