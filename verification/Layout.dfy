/** What is on the wire, byte by byte, in terms of the values alone: classes, headers, messages, and packets. */
module Layout {
  import opened Basics
  import opened Schema
  import opened Compiler
  import opened Machine
  import opened SerializerProof
  import opened DeserializerProof
  import opened Headers
  import opened Packets
  import opened GameCoordinator

  // ----- any class -----

  /** Byte k is floor(v / 256^k) modulo 256. */
  ghost predicate TwosComplement(p: seq<byte>, v: int) { forall k | 0 <= k < |p| :: p[k] == v / Pow256(k) % 256 }

  /** What one field of a struct looks like on the wire. */
  ghost predicate Shows<M>(c: ProtoCodec<M>, node: PropNode, v: Value<M>, p: seq<byte>) {
    match node.flags
    case Const => p == []
    case BoolMarshal => v.Flag? && p == [if v.on then 1 else 0]
    case ProtoMask => v.Num? && Masked(v.v, p)
    case ProtoMaskGc => v.Num? && Masked(v.v, p)
    case Proto => v.Message? && c.marshal(v.m) == Some(p)
    case _ =>
      if v.Num? then |p| == v.t.Width() && TwosComplement(p, v.v)
      else
        && v.Nums? && |p| == |v.vs| * v.t.Width()
        && forall j | 0 <= j < |v.vs| :: ShowsElement(p, v.t.Width(), v.vs[j], j)
  }

  /** Four bytes with the top bit set. */
  ghost predicate Masked(v: int, p: seq<byte>) {
    && |p| == 4 && p[0] == v % 256 && p[1] == v / 0x100 % 256 && p[2] == v / 0x1_0000 % 256
    && p[3] == v / 0x100_0000 % 128 + 128
  }

  ghost predicate ShowsElement(p: seq<byte>, w: nat, v: int, j: nat) {
    var at := j * w;
    at + w <= |p| && TwosComplement(p[at..at + w], v)
  }

  lemma NumShows(t: GoType, v: int)
    requires t.InRange(v)
    ensures TwosComplement(EncodeNum(t, v), v)
  {
    forall k | 0 <= k < t.Width() ensures EncodeNum(t, v)[k] == v / Pow256(k) % 256 {
      NumByte(t, v, k);
    }
  }

  lemma ElementShows(t: GoType, vs: seq<int>, j: nat)
    requires (forall v | v in vs :: t.InRange(v)) && j < |vs|
    ensures ShowsElement(EncodeNums(t, vs), t.Width(), vs[j], j)
  {
    var w, p := t.Width(), EncodeNums(t, vs);
    var at := j * w;
    NumsPlace(t, vs, j, at);
    NumShows(t, vs[j]);
    assert TwosComplement(p[at..at + w], vs[j]);
  }

  lemma NumsShow(t: GoType, vs: seq<int>)
    requires forall v | v in vs :: t.InRange(v)
    ensures forall j | 0 <= j < |vs| :: ShowsElement(EncodeNums(t, vs), t.Width(), vs[j], j)
  {
    forall j | 0 <= j < |vs| ensures ShowsElement(EncodeNums(t, vs), t.Width(), vs[j], j) {
      ElementShows(t, vs, j);
    }
  }

  /** The mask keeps the low 31 bits of the two's complement. */
  lemma MaskShows(v: int)
    requires -TWO31 <= v < TWO32
    ensures Masked(v, LE(SetMask(Uint32Of(v)), 4))
  {
    MaskedNumber(v);
    LE4(SetMask(Uint32Of(v)));
  }

  lemma LE4(x: nat)
    ensures LE(x, 4) == [x % 256, x / 0x100 % 256, x / 0x1_0000 % 256, x / 0x100_0000 % 256]
  {
    Pow256Values();
    LEByte(x, 4, 0);
    LEByte(x, 4, 1);
    LEByte(x, 4, 2);
    LEByte(x, 4, 3);
  }

  lemma MaskedNumber(v: int)
    requires -TWO31 <= v < TWO32
    ensures var u := SetMask(Uint32Of(v));
            && u % 256 == v % 256 && u / 0x100 % 256 == v / 0x100 % 256
            && u / 0x1_0000 % 256 == v / 0x1_0000 % 256 && u / 0x100_0000 % 256 == v / 0x100_0000 % 128 + 128
  {
    var m := SetMask(Uint32Of(v)) - v;
    assert m == 0 || m == TWO31 || m == TWO32;
    LowByte(v, 1, m / 256);
    LowByte(v, 0x100, m / 0x1_0000);
    LowByte(v, 0x1_0000, m / 0x100_0000);
    Shifted(v, 0x100_0000, m / 0x100_0000);
    TopByte(v);
  }

  /** Adding a multiple of 256 n changes nothing of the byte that counts the ns. */
  lemma LowByte(v: int, n: int, q: int)
    requires n > 0
    ensures (v + n * 256 * q) / n % 256 == v / n % 256
  {
    assert n * 256 * q == n * (256 * q);
    Shifted(v, n, 256 * q);
    Wrapped(v / n, q);
  }

  lemma TopByte(v: int)
    requires -TWO31 <= v < TWO32
    ensures v / 0x100_0000 % 128 + 128 ==
            (v / 0x100_0000 + (if v < 0 then 256 else if v < TWO31 then 128 else 0)) % 256
  {}

  lemma FieldShows<M>(c: ProtoCodec<M>, node: PropNode, enums: Enums, d: Object<M>)
    requires !node.flags.Const? && FieldOk(c, node, enums, d) && MarshalsField(c, node, d)
    ensures node.name in d && Shows(c, node, d[node.name], FieldBytes(c, node, d))
  {
    TypedEncodable(c, node, enums, d);
    var v := d[node.name];
    match node.flags {
      case ProtoMask => Range32Of(Int32, v.v); MaskShows(v.v);
      case ProtoMaskGc => Range32Of(Uint32, v.v); MaskShows(v.v);
      case NoFlag => if v.Num? { NumShows(v.t, v.v); } else { NumsShow(v.t, v.vs); }
      case SteamIdMarshal => NumShows(v.t, v.v);
      case _ =>
    }
  }

  lemma Range32Of(t: GoType, v: int)
    requires t.InRange(v) && (t == Int32 || t == Uint32)
    ensures -TWO31 <= v < TWO32
  {
    Pow256Values();
  }

  ghost function Pieces<M>(c: ProtoCodec<M>, nodes: Class, d: Object<M>): (ps: seq<seq<byte>>)
    ensures |ps| == |nodes|
  {
    seq(|nodes|, i requires 0 <= i < |nodes| => FieldBytes(c, nodes[i], d))
  }

  lemma {:induction false} EncodeIsFlat<M>(c: ProtoCodec<M>, nodes: Class, i: nat, d: Object<M>)
    requires i <= |nodes|
    ensures EncodeFrom(c, nodes, i, d) == Flatten(Pieces(c, nodes, d)[i..])
    decreases |nodes| - i
  {
    var ps := Pieces(c, nodes, d);
    if i < |nodes| {
      EncodeIsFlat(c, nodes, i + 1, d);
      assert ps[i..][0] == FieldBytes(c, nodes[i], d) && ps[i..][1..] == ps[i + 1..];
    }
  }

  /**
   What the generated Serialize writes is the fields one after the other in the order of their declaration:
   numbers in two's complement, least significant byte first, a masked type with its top bit set, a bool as 1
   or 0, a message as it marshals; and the struct changes in nothing but its length fields.
   */
  lemma FieldsInOrder<M>(c: ProtoCodec<M>, nodes: Class, enums: Enums, d: Object<M>) returns (ps: seq<seq<byte>>)
    requires WellFormed(nodes, enums) && Typed(c, nodes, enums, d) && Marshals(c, nodes, d)
    ensures var r := Serialize(c, SerializerCode(nodes), d);
            && r.Ok? && r.value.1 == Flatten(ps) && |ps| == |nodes| && Sent(c, nodes, d, r.value.0)
            && (forall i | 0 <= i < |nodes| && nodes[i].flags.Const? :: ps[i] == [])
            && (forall i | 0 <= i < |nodes| && !nodes[i].flags.Const? ::
                  nodes[i].name in r.value.0 && Shows(c, nodes[i], r.value.0[nodes[i].name], ps[i]))
  {
    SerializeCorrect(c, nodes, enums, d);
    var sent := Serialize(c, SerializerCode(nodes), d).value.0;
    ps := Pieces(c, nodes, sent);
    EncodeIsFlat(c, nodes, 0, sent);
    assert ps[0..] == ps;
    forall i | 0 <= i < |nodes| && !nodes[i].flags.Const?
      ensures nodes[i].name in sent && Shows(c, nodes[i], sent[nodes[i].name], ps[i])
    {
      assert FieldOk(c, nodes[i], enums, sent) && MarshalsField(c, nodes[i], sent);
      FieldShows(c, nodes[i], enums, sent);
    }
  }

  // ----- the headers -----

  /** An int32 in four bytes. */
  function Int32Bytes(v: int): (b: seq<byte>)
    requires IsInt32(v)
    ensures |b| == 4
  {
    LE(if v < 0 then v + TWO32 else v, 4)
  }

  /** A number without a mask is followed by the other fields. */
  lemma NumThen<M>(c: ProtoCodec<M>, nodes: Class, i: nat, d: Object<M>, t: GoType, v: int)
    requires i < |nodes| && (nodes[i].flags.NoFlag? || nodes[i].flags.SteamIdMarshal?)
    requires nodes[i].name in d && d[nodes[i].name] == Num(t, v) && t.InRange(v)
    ensures EncodeFrom(c, nodes, i, d) == EncodeNum(t, v) + EncodeFrom(c, nodes, i + 1, d)
  {}

  predicate IsNumber<M>(node: PropNode, d: Object<M>, t: GoType, v: int) {
    (node.flags.NoFlag? || node.flags.SteamIdMarshal?) && node.name in d && d[node.name] == Num(t, v)
  }

  lemma Int32Then<M>(c: ProtoCodec<M>, nodes: Class, i: nat, d: Object<M>, v: int)
    requires i < |nodes| && IsNumber(nodes[i], d, Int32, v) && IsInt32(v)
    ensures EncodeFrom(c, nodes, i, d) == Int32Bytes(v) + EncodeFrom(c, nodes, i + 1, d)
  {
    Pow256Values();
    NumThen(c, nodes, i, d, Int32, v);
  }

  lemma Uint64Then<M>(c: ProtoCodec<M>, nodes: Class, i: nat, d: Object<M>, v: int)
    requires i < |nodes| && IsNumber(nodes[i], d, Uint64, v) && IsUint64(v)
    ensures EncodeFrom(c, nodes, i, d) == LE(v, 8) + EncodeFrom(c, nodes, i + 1, d)
  {
    Pow256Values();
    NumThen(c, nodes, i, d, Uint64, v);
  }

  lemma Uint8Then<M>(c: ProtoCodec<M>, nodes: Class, i: nat, d: Object<M>, v: int)
    requires i < |nodes| && IsNumber(nodes[i], d, Uint8, v) && 0 <= v < 0x100
    ensures EncodeFrom(c, nodes, i, d) == [v] + EncodeFrom(c, nodes, i + 1, d)
  {
    Pow256Values();
    LEByte(v, 1, 0);
    assert LE(v, 1) == [v];
    NumThen(c, nodes, i, d, Uint8, v);
  }

  lemma Uint16Then<M>(c: ProtoCodec<M>, nodes: Class, i: nat, d: Object<M>, v: int)
    requires i < |nodes| && IsNumber(nodes[i], d, Uint16, v) && 0 <= v < 0x1_0000
    ensures EncodeFrom(c, nodes, i, d) == LE(v, 2) + EncodeFrom(c, nodes, i + 1, d)
  {
    Pow256Values();
    NumThen(c, nodes, i, d, Uint16, v);
  }

  lemma LE2(v: nat)
    requires v < 0x1_0000
    ensures LE(v, 2) == [v % 256, v / 256]
  {
    Pow256Values();
    LEByte(v, 2, 0);
    LEByte(v, 2, 1);
  }

  lemma MsgHdrLayout<M>(c: ProtoCodec<M>, msg: int, target: int, source: int)
    requires IsInt32(msg) && IsUint64(target) && IsUint64(source)
    ensures Encode(c, MsgHdr, MsgHdrOf(msg, target, source)) == Int32Bytes(msg) + (LE(target, 8) + LE(source, 8))
  {
    var h: Object<M> := MsgHdrOf(msg, target, source);
    Int32Then(c, MsgHdr, 0, h, msg);
    Uint64Then(c, MsgHdr, 1, h, target);
    Uint64Then(c, MsgHdr, 2, h, source);
    assert LE(source, 8) + [] == LE(source, 8);
  }

  /** A game coordinator's struct header; v is its version in two bytes. */
  lemma MsgGCHdrLayout<M>(c: ProtoCodec<M>, version: int, v: seq<byte>, target: int, source: int)
    requires 0 <= version < 0x1_0000 && v == LE(version, 2) && IsUint64(target) && IsUint64(source)
    ensures Encode(c, MsgGCHdr, MsgGCHdrOf(version, target, source)) ==
            v + (LE(target, 8) + LE(source, 8))
  {
    var h: Object<M> := MsgGCHdrOf(version, target, source);
    Uint16Then(c, MsgGCHdr, 0, h, version);
    Uint64Then(c, MsgGCHdr, 1, h, target);
    Uint64Then(c, MsgGCHdr, 2, h, source);
    assert LE(source, 8) + [] == LE(source, 8);
  }

  /** The extended header; v is its version in two bytes. */
  lemma ExtendedLayout<M>(c: ProtoCodec<M>, msg: int, size: int, version: int, v: seq<byte>, target: int,
                          source: int, canary: int, steamId: int, sessionId: int)
    requires 0 <= version < 0x1_0000 && v == LE(version, 2)
    requires IsInt32(msg) && 0 <= size < 0x100 && 0 <= version < 0x1_0000 && IsUint64(target) && IsUint64(source)
    requires 0 <= canary < 0x100 && IsUint64(steamId) && IsInt32(sessionId)
    ensures Encode(c, ExtendedClientMsgHdr,
                   ExtendedHdr(msg, size, version, target, source, canary, steamId, sessionId)) ==
            Int32Bytes(msg) + ([size] + (v + (LE(target, 8) + (LE(source, 8) +
            ([canary] + (LE(steamId, 8) + Int32Bytes(sessionId)))))))
  {
    var h: Object<M> := ExtendedHdr(msg, size, version, target, source, canary, steamId, sessionId);
    ExtendedNumbers03<M>(msg, size, version, target, source, canary, steamId, sessionId);
    ExtendedNumbers47<M>(msg, size, version, target, source, canary, steamId, sessionId);
    EightNumbers(c, ExtendedClientMsgHdr, h, msg, size, version, target, source, canary, steamId, sessionId);
  }

  lemma EightNumbers<M>(c: ProtoCodec<M>, nodes: Class, h: Object<M>, msg: int, size: int, version: int, target: int,
                        source: int, canary: int, steamId: int, sessionId: int)
    requires |nodes| == 8 && IsInt32(msg) && 0 <= size < 0x100 && 0 <= version < 0x1_0000 && IsUint64(target)
    requires IsUint64(source) && 0 <= canary < 0x100 && IsUint64(steamId) && IsInt32(sessionId)
    requires IsNumber(nodes[0], h, Int32, msg) && IsNumber(nodes[1], h, Uint8, size)
    requires IsNumber(nodes[2], h, Uint16, version) && IsNumber(nodes[3], h, Uint64, target)
    requires IsNumber(nodes[4], h, Uint64, source) && IsNumber(nodes[5], h, Uint8, canary)
    requires IsNumber(nodes[6], h, Uint64, steamId) && IsNumber(nodes[7], h, Int32, sessionId)
    ensures Encode(c, nodes, h) ==
            Int32Bytes(msg) + ([size] + (LE(version, 2) + (LE(target, 8) + (LE(source, 8) +
            ([canary] + (LE(steamId, 8) + Int32Bytes(sessionId)))))))
  {
    ExtendedFront(c, nodes, 0, h, msg, size);
    ExtendedMiddle(c, nodes, 2, h, version, target);
    ExtendedBack(c, nodes, 4, h, source, canary);
    ExtendedEnd(c, nodes, 6, h, steamId, sessionId);
  }

  lemma ExtendedNumbers03<M>(msg: int, size: int, version: int, target: int, source: int, canary: int,
                             steamId: int, sessionId: int)
    ensures var h: Object<M> := ExtendedHdr(msg, size, version, target, source, canary, steamId, sessionId);
            && IsNumber(ExtendedClientMsgHdr[0], h, Int32, msg) && IsNumber(ExtendedClientMsgHdr[1], h, Uint8, size)
            && IsNumber(ExtendedClientMsgHdr[2], h, Uint16, version)
            && IsNumber(ExtendedClientMsgHdr[3], h, Uint64, target)
  {}

  lemma ExtendedNumbers47<M>(msg: int, size: int, version: int, target: int, source: int, canary: int,
                             steamId: int, sessionId: int)
    ensures var h: Object<M> := ExtendedHdr(msg, size, version, target, source, canary, steamId, sessionId);
            && IsNumber(ExtendedClientMsgHdr[4], h, Uint64, source)
            && IsNumber(ExtendedClientMsgHdr[5], h, Uint8, canary)
            && IsNumber(ExtendedClientMsgHdr[6], h, Uint64, steamId)
            && IsNumber(ExtendedClientMsgHdr[7], h, Int32, sessionId)
  {}

  lemma ExtendedFront<M>(c: ProtoCodec<M>, nodes: Class, i: nat, h: Object<M>, msg: int, size: int)
    requires i + 1 < |nodes| && IsNumber(nodes[i], h, Int32, msg) && IsNumber(nodes[i + 1], h, Uint8, size)
    requires IsInt32(msg) && 0 <= size < 0x100
    ensures EncodeFrom(c, nodes, i, h) == Int32Bytes(msg) + ([size] + EncodeFrom(c, nodes, i + 2, h))
  {
    Int32Then(c, nodes, i, h, msg);
    Uint8Then(c, nodes, i + 1, h, size);
  }

  lemma ExtendedMiddle<M>(c: ProtoCodec<M>, nodes: Class, i: nat, h: Object<M>, version: int, target: int)
    requires i + 1 < |nodes| && IsNumber(nodes[i], h, Uint16, version) && 0 <= version < 0x1_0000
    requires IsNumber(nodes[i + 1], h, Uint64, target) && IsUint64(target)
    ensures EncodeFrom(c, nodes, i, h) == LE(version, 2) + (LE(target, 8) + EncodeFrom(c, nodes, i + 2, h))
  {
    Uint16Then(c, nodes, i, h, version);
    Uint64Then(c, nodes, i + 1, h, target);
  }

  lemma ExtendedBack<M>(c: ProtoCodec<M>, nodes: Class, i: nat, h: Object<M>, source: int, canary: int)
    requires i + 1 < |nodes| && IsNumber(nodes[i], h, Uint64, source) && IsUint64(source)
    requires IsNumber(nodes[i + 1], h, Uint8, canary) && 0 <= canary < 0x100
    ensures EncodeFrom(c, nodes, i, h) == LE(source, 8) + ([canary] + EncodeFrom(c, nodes, i + 2, h))
  {
    Uint64Then(c, nodes, i, h, source);
    Uint8Then(c, nodes, i + 1, h, canary);
  }

  lemma ExtendedEnd<M>(c: ProtoCodec<M>, nodes: Class, i: nat, h: Object<M>, steamId: int, sessionId: int)
    requires i + 2 == |nodes| && IsNumber(nodes[i], h, Uint64, steamId) && IsUint64(steamId)
    requires IsNumber(nodes[i + 1], h, Int32, sessionId) && IsInt32(sessionId)
    ensures EncodeFrom(c, nodes, i, h) == LE(steamId, 8) + Int32Bytes(sessionId)
  {
    Uint64Then(c, nodes, i, h, steamId);
    Int32Then(c, nodes, i + 1, h, sessionId);
    assert Int32Bytes(sessionId) + [] == Int32Bytes(sessionId);
  }

  /** Both protobuf headers: the type with its top bit set, the length of the message, the message. */
  lemma ProtoLayout<M>(c: ProtoCodec<M>, nodes: Class, t: GoType, msg: int, header: M)
    requires (nodes == MsgHdrProtoBuf && t == Int32 && IsInt32(msg))
             || (nodes == MsgGCHdrProtoBuf && t == Uint32 && IsUint32(msg))
    requires c.marshal(header).Some? && |c.marshal(header).value| < TWO31
    ensures var b := c.marshal(header).value;
            Encode(c, nodes, ProtoHdrOf(t, msg, |b|, header)) == LE(msg % TWO31 + TWO31, 4) + (LE(|b|, 4) + b)
  {
    var b := c.marshal(header).value;
    var h: Object<M> := ProtoHdrOf(t, msg, |b|, header);
    MaskedType(msg);
    assert FieldBytes(c, nodes[0], h) == LE(msg % TWO31 + TWO31, 4);
    Int32Then(c, nodes, 1, h, |b|);
    MessageLast(c, nodes, h);
  }

  lemma MaskedType(msg: int)
    requires -TWO31 <= msg < TWO32
    ensures SetMask(Uint32Of(msg)) == msg % TWO31 + TWO31
  {}

  lemma MessageLast<M>(c: ProtoCodec<M>, nodes: Class, h: Object<M>)
    requires (nodes == MsgHdrProtoBuf || nodes == MsgGCHdrProtoBuf) && "Proto" in h && h["Proto"].Message?
    requires c.marshal(h["Proto"].m).Some?
    ensures EncodeFrom(c, nodes, 2, h) == c.marshal(h["Proto"].m).value
  {
    var b := c.marshal(h["Proto"].m).value;
    assert FieldBytes(c, nodes[2], h) == b && b + [] == b;
  }

  // ----- messages -----

  /** A Msg: type, job ids, the body as it serialises, the payload. */
  lemma PlainMsgBytes<M>(c: ProtoCodec<M>, m: Msg<M>, body: seq<byte>)
    requires m.PlainMsg? && IsInt32(m.msg) && IsUint64(m.target) && IsUint64(m.source)
    requires SerializeClass(c, m.body.nodes, m.body.d) == Ok(body)
    ensures SerializeMsg(c, m) == Ok(Int32Bytes(m.msg) + (LE(m.target, 8) + LE(m.source, 8)) + body + m.payload)
  {
    PlainHeadersWellFormed();
    MsgHdrOnWire(c, m.msg, m.target, m.source);
    SentAsIs(c, MsgHdr, ENUMS, MsgHdrOf(m.msg, m.target, m.source));
    MsgHdrLayout(c, m.msg, m.target, m.source);
  }

  /** A ClientMsg: type, header size and version, job ids, canary, SteamID and session id in front of the body. */
  lemma ClientMsgBytes<M>(c: ProtoCodec<M>, m: Msg<M>, body: seq<byte>)
    requires m.ClientMsg? && IsInt32(m.msg) && IsUint64(m.target) && IsUint64(m.source)
    requires IsUint64(m.steamId) && IsInt32(m.sessionId) && SerializeClass(c, m.body.nodes, m.body.d) == Ok(body)
    ensures SerializeMsg(c, m) ==
            Ok(Int32Bytes(m.msg) + ([36] + ([2, 0] + (LE(m.target, 8) + (LE(m.source, 8) +
               ([239] + (LE(m.steamId, 8) + Int32Bytes(m.sessionId))))))) + body + m.payload)
  {
    var h: Object<M> := ExtendedClientMsgHdrOf(m.msg, m.target, m.source, m.steamId, m.sessionId);
    ExtendedOnWire(c, m.msg, m.target, m.source, m.steamId, m.sessionId);
    ExtendedSent(c, h);
    ExtendedBytes(c, m);
    BothOk(Encode(c, ExtendedClientMsgHdr, h), body, m.payload);
  }

  lemma ExtendedSent<M>(c: ProtoCodec<M>, h: Object<M>)
    requires OnWire(c, ExtendedClientMsgHdr, ENUMS, h)
    ensures SerializeClass(c, ExtendedClientMsgHdr, h) == Ok(Encode(c, ExtendedClientMsgHdr, h))
  {
    ExtendedWellFormed();
    ExtendedIsPlain();
    SentAsIs(c, ExtendedClientMsgHdr, ENUMS, h);
  }

  lemma ExtendedBytes<M>(c: ProtoCodec<M>, m: Msg<M>)
    requires m.ClientMsg? && IsInt32(m.msg) && IsUint64(m.target) && IsUint64(m.source)
    requires IsUint64(m.steamId) && IsInt32(m.sessionId)
    ensures Encode(c, ExtendedClientMsgHdr,
                   ExtendedClientMsgHdrOf(m.msg, m.target, m.source, m.steamId, m.sessionId)) ==
            Int32Bytes(m.msg) + ([36] + ([2, 0] + (LE(m.target, 8) + (LE(m.source, 8) +
            ([239] + (LE(m.steamId, 8) + Int32Bytes(m.sessionId)))))))
  {
    LE2(2);
    ExtendedLayout(c, m.msg, 36, 2, [2, 0], m.target, m.source, 239, m.steamId, m.sessionId);
  }

  lemma BothOk(a: seq<byte>, b: seq<byte>, payload: seq<byte>)
    ensures Both(Both(Ok(a), Ok(b)), Ok(payload)) == Ok(a + b + payload)
  {}

  /** A ClientMsgProtobuf: the type with its top bit set, the header's length, the header, the message. */
  lemma ProtobufBytes<M(!new)>(c: ProtoCodec<M>, m: Msg<M>)
    requires m.ClientMsgProtobuf? && IsInt32(m.msg) && c.kind(m.header) == HEADER_KIND
    requires c.marshal(m.header).Some? && |c.marshal(m.header).value| < TWO31 && c.marshal(m.message).Some?
    ensures var b := c.marshal(m.header).value;
            SerializeMsg(c, m) ==
            Ok(LE(m.msg % TWO31 + TWO31, 4) + (LE(|b|, 4) + b) + c.marshal(m.message).value)
  {
    ProtoSent(c, MsgHdrProtoBuf, Int32, m.msg, m.header);
    ProtoLayout(c, MsgHdrProtoBuf, Int32, m.msg, m.header);
  }

  /** The envelope of a struct message to a game coordinator. */
  lemma StructEnvelopeBytes<M(!new)>(c: ProtoCodec<M>, m: GCMsg<M>)
    requires m.GCStruct? && IsUint32(m.msgType) && IsUint64(m.target) && IsUint64(m.source)
    ensures Wrap(c, m) == Envelope(m.msgType, m.appId, "", [1, 0] + (LE(m.target, 8) + LE(m.source, 8)) + m.body)
  {
    LE2(1);
    MsgGCHdrLayout(c, 1, [1, 0], m.target, m.source);
    StructWrapped(c, m, [1, 0] + (LE(m.target, 8) + LE(m.source, 8)));
  }

  lemma StructWrapped<M(!new)>(c: ProtoCodec<M>, m: GCMsg<M>, head: seq<byte>)
    requires m.GCStruct? && IsUint32(m.msgType) && IsUint64(m.target) && IsUint64(m.source)
    requires head == Encode(c, MsgGCHdr, MsgGCHdrOf(1, m.target, m.source))
    ensures Wrap(c, m) == Envelope(m.msgType, m.appId, "", head + m.body)
  {
    GCHeaderSent(c, m.target, m.source);
  }

  /** And of a protobuf one: the type, in the envelope and in the header, has its top bit set. */
  lemma ProtobufEnvelopeBytes<M(!new)>(c: ProtoCodec<M>, m: GCMsg<M>)
    requires m.GCProtobuf? && GameCoordinator.Sendable(c, m)
    ensures var b := c.marshal(m.header).value;
            Wrap(c, m) == Envelope(m.msgType % TWO31 + TWO31, m.appId, "",
                                   LE(m.msgType % TWO31 + TWO31, 4) + (LE(|b|, 4) + b) + c.marshal(m.message).value)
  {
    var b := c.marshal(m.header).value;
    ProtoLayout(c, MsgGCHdrProtoBuf, Uint32, m.msgType, m.header);
    ProtobufWrapped(c, m, LE(m.msgType % TWO31 + TWO31, 4) + (LE(|b|, 4) + b));
  }

  lemma ProtobufWrapped<M(!new)>(c: ProtoCodec<M>, m: GCMsg<M>, head: seq<byte>)
    requires m.GCProtobuf? && GameCoordinator.Sendable(c, m)
    requires head == Encode(c, MsgGCHdrProtoBuf, ProtoHdrOf(Uint32, m.msgType, |c.marshal(m.header).value|, m.header))
    ensures Wrap(c, m) ==
            Envelope(m.msgType % TWO31 + TWO31, m.appId, "", head + c.marshal(m.message).value)
  {
    ProtoSent(c, MsgGCHdrProtoBuf, Uint32, m.msgType, m.header);
    MaskedType(m.msgType);
  }

  // ----- packets, from any bytes -----

  /** The number in the n bytes from at on. */
  function NumberAt(data: seq<byte>, at: nat, n: nat): (x: nat)
    requires at + n <= |data|
    ensures n == 8 ==> x < TWO64
    ensures n == 4 ==> x < TWO32
    ensures n == 2 ==> x < 0x1_0000
  {
    Pow256Values();
    UnLE(data[at..at + n])
  }

  /** The int32 in a number's four bytes. */
  function ToInt32(u: int): int { if u < TWO31 then u else u - TWO32 }

  lemma Int32BytesBack(b: seq<byte>)
    requires |b| == 4
    ensures IsInt32(ToInt32(UnLE(b))) && Int32Bytes(ToInt32(UnLE(b))) == b
  {
    Pow256Values();
    LEUnLE(b);
  }

  lemma Uint64BytesBack(b: seq<byte>)
    requires |b| == 8
    ensures IsUint64(UnLE(b)) && LE(UnLE(b), 8) == b
  {
    Pow256Values();
    LEUnLE(b);
  }

  /** Twenty bytes or more begin with a plain header. */
  lemma PlainHeaderAt<M>(c: ProtoCodec<M>, data: seq<byte>)
    requires |data| >= 20
    ensures var msg := ToInt32(NumberAt(data, 0, 4));
            var h: Object<M> := MsgHdrOf(msg, NumberAt(data, 4, 8), NumberAt(data, 12, 8));
            IsInt32(msg) && Encode(c, MsgHdr, h) == data[..20]
  {
    Int32BytesBack(data[0..4]);
    Uint64BytesBack(data[4..12]);
    Uint64BytesBack(data[12..20]);
    MsgHdrLayout(c, ToInt32(NumberAt(data, 0, 4)), NumberAt(data, 4, 8), NumberAt(data, 12, 8));
    Twenty(data);
  }

  lemma Twenty(data: seq<byte>)
    requires |data| >= 20
    ensures data[0..4] + (data[4..12] + data[12..20]) == data[..20]
  {}

  lemma Padded(data: seq<byte>, n: nat)
    requires |data| < n
    ensures var all := data + seq(n - |data|, _ => 0); |all| == n && data < all && all[..n] == all
  {}

  /**
   NewPacket on any bytes whose first four name a ChannelEncrypt kind, with or without the top bit: twenty are
   enough, with the job ids in the eight bytes behind the type and the eight behind those; fewer are an error.
   */
  lemma ReadsPlain<M(!new)>(w: Proto<M>, data: seq<byte>)
    requires InversePair(w.c) && |data| >= 4 && NumberAt(data, 0, 4) % TWO31 in {1303, 1305}
    ensures NewPacket(w, data) ==
            if |data| < 20 then Err
            else Ok(Packet(NumberAt(data, 0, 4) % TWO31, false, NumberAt(data, 4, 8), NumberAt(data, 12, 8), data))
  {
    var emsg := NumberAt(data, 0, 4) % TWO31;
    assert data[0..4] == data[..4];
    assert ClearMask(RawEMsg(data)) == emsg;
    PlainDeserialized(w.c, emsg, data);
  }

  lemma PlainDeserialized<M(!new)>(c: ProtoCodec<M>, emsg: int, data: seq<byte>)
    requires InversePair(c) && IsInt32(emsg)
    ensures FromStruct(Deserialize(c, DeserializerCode(MsgHdr, ENUMS), MsgHdrOf(emsg, NO_JOB, NO_JOB), data),
                       emsg, data)
            == if |data| < 20 then Err else Ok(Packet(emsg, false, NumberAt(data, 4, 8), NumberAt(data, 12, 8), data))
  {
    if |data| < 20 { PlainTooShort(c, emsg, data); } else { PlainLongEnough(c, emsg, data); }
  }

  lemma PlainTooShort<M(!new)>(c: ProtoCodec<M>, emsg: int, data: seq<byte>)
    requires InversePair(c) && IsInt32(emsg) && |data| < 20
    ensures Deserialize(c, DeserializerCode(MsgHdr, ENUMS), MsgHdrOf(emsg, NO_JOB, NO_JOB), data) == Err
  {
    var all := data + seq(20 - |data|, _ => 0);
    Padded(data, 20);
    PlainHeaderAt(c, all);
    var msg, target, source := ToInt32(NumberAt(all, 0, 4)), NumberAt(all, 4, 8), NumberAt(all, 12, 8);
    PlainHeadersWellFormed();
    MsgHdrOnWire(c, emsg, NO_JOB, NO_JOB);
    MsgHdrOnWire(c, msg, target, source);
    SentAsIs(c, MsgHdr, ENUMS, MsgHdrOf(msg, target, source));
    PrefixRejected(c, MsgHdr, ENUMS, MsgHdrOf(emsg, NO_JOB, NO_JOB), MsgHdrOf(msg, target, source), data);
  }

  lemma PlainLongEnough<M(!new)>(c: ProtoCodec<M>, emsg: int, data: seq<byte>)
    requires InversePair(c) && IsInt32(emsg) && |data| >= 20
    ensures FromStruct(Deserialize(c, DeserializerCode(MsgHdr, ENUMS), MsgHdrOf(emsg, NO_JOB, NO_JOB), data),
                       emsg, data)
            == Ok(Packet(emsg, false, NumberAt(data, 4, 8), NumberAt(data, 12, 8), data))
  {
    PlainHeaderAt(c, data);
    var msg, target, source := ToInt32(NumberAt(data, 0, 4)), NumberAt(data, 4, 8), NumberAt(data, 12, 8);
    var d0: Object<M>, h: Object<M> := MsgHdrOf(emsg, NO_JOB, NO_JOB), MsgHdrOf(msg, target, source);
    PlainHeadersWellFormed();
    MsgHdrOnWire(c, emsg, NO_JOB, NO_JOB);
    MsgHdrOnWire(c, msg, target, source);
    assert data == data[..20] + data[20..];
    DeserializeEncoded(c, MsgHdr, ENUMS, d0, h, data[20..]);
    PlainJobs(Deserialize(c, DeserializerCode(MsgHdr, ENUMS), d0, data).value.0, h);
  }

  /** The extended header that thirty-six bytes or more begin with. */
  function ExtendedAt<M>(data: seq<byte>): Object<M>
    requires |data| >= 36
  {
    ExtendedHdr(ToInt32(NumberAt(data, 0, 4)), data[4], NumberAt(data, 5, 2), NumberAt(data, 7, 8),
                NumberAt(data, 15, 8), data[23], NumberAt(data, 24, 8), ToInt32(NumberAt(data, 32, 4)))
  }

  lemma HeadAndTail(data: seq<byte>, n: nat)
    requires n <= |data|
    ensures data == data[..n] + data[n..]
  {}

  lemma ExtendedJobsAt<M>(data: seq<byte>)
    requires |data| >= 36
    ensures var h: Object<M> := ExtendedAt(data);
            NumOf(h, "TargetJobID") == NumberAt(data, 7, 8) && NumOf(h, "SourceJobID") == NumberAt(data, 15, 8)
  {}

  lemma ExtendedHeaderAt<M>(c: ProtoCodec<M>, data: seq<byte>) returns (h: Object<M>)
    requires |data| >= 36
    ensures OnWire(c, ExtendedClientMsgHdr, ENUMS, h) && Encode(c, ExtendedClientMsgHdr, h) == data[..36]
    ensures NumOf(h, "TargetJobID") == NumberAt(data, 7, 8) && NumOf(h, "SourceJobID") == NumberAt(data, 15, 8)
  {
    h := ExtendedAt(data);
    ExtendedAtOnWire(c, data);
    ExtendedAtBytes(c, data);
    ExtendedJobsAt<M>(data);
  }

  lemma ExtendedAtOnWire<M>(c: ProtoCodec<M>, data: seq<byte>)
    requires |data| >= 36
    ensures OnWire(c, ExtendedClientMsgHdr, ENUMS, ExtendedAt(data))
  {
    Int32BytesBack(data[0..4]);
    Int32BytesBack(data[32..36]);
    ExtendedHdrOnWire(c, ToInt32(NumberAt(data, 0, 4)), data[4], NumberAt(data, 5, 2), NumberAt(data, 7, 8),
                      NumberAt(data, 15, 8), data[23], NumberAt(data, 24, 8), ToInt32(NumberAt(data, 32, 4)));
  }

  lemma ExtendedAtBytes<M>(c: ProtoCodec<M>, data: seq<byte>)
    requires |data| >= 36
    ensures Encode(c, ExtendedClientMsgHdr, ExtendedAt(data)) == data[..36]
  {
    Int32BytesBack(data[0..4]);
    Uint64BytesBack(data[7..15]);
    Uint64BytesBack(data[15..23]);
    Uint64BytesBack(data[24..32]);
    Int32BytesBack(data[32..36]);
    LEUnLE(data[5..7]);
    ExtendedLayout(c, ToInt32(NumberAt(data, 0, 4)), data[4], NumberAt(data, 5, 2), data[5..7], NumberAt(data, 7, 8),
                   NumberAt(data, 15, 8), data[23], NumberAt(data, 24, 8), ToInt32(NumberAt(data, 32, 4)));
    ThirtySix(data);
  }

  lemma ThirtySix(data: seq<byte>)
    requires |data| >= 36
    ensures data[0..4] + ([data[4]] + (data[5..7] + (data[7..15] + (data[15..23] +
            ([data[23]] + (data[24..32] + data[32..36])))))) == data[..36]
  {}

  /**
   NewPacket on any bytes whose first four are an ordinary type without the top bit: thirty-six are enough,
   with the job ids in the eight bytes from the eighth on and the eight behind those, whatever the others
   are; fewer are an error.
   */
  lemma ReadsExtended<M(!new)>(w: Proto<M>, data: seq<byte>)
    requires InversePair(w.c) && |data| >= 4 && NumberAt(data, 0, 4) < TWO31
    requires NumberAt(data, 0, 4) !in {1303, 1305}
    ensures NewPacket(w, data) ==
            if |data| < 36 then Err
            else Ok(Packet(NumberAt(data, 0, 4), false, NumberAt(data, 7, 8), NumberAt(data, 15, 8), data))
  {
    var emsg := NumberAt(data, 0, 4);
    assert data[0..4] == data[..4];
    assert RawEMsg(data) == emsg;
    if |data| < 36 { ExtendedTooShort(w.c, emsg, data); } else { ExtendedLongEnough(w.c, emsg, data); }
  }

  lemma ExtendedTooShort<M(!new)>(c: ProtoCodec<M>, emsg: int, data: seq<byte>)
    requires InversePair(c) && IsInt32(emsg) && |data| < 36
    ensures Deserialize(c, DeserializerCode(ExtendedClientMsgHdr, ENUMS),
                        ExtendedClientMsgHdrOf(emsg, NO_JOB, NO_JOB, 0, 0), data) == Err
  {
    var all := data + seq(36 - |data|, _ => 0);
    Padded(data, 36);
    var d0: Object<M> := ExtendedClientMsgHdrOf(emsg, NO_JOB, NO_JOB, 0, 0);
    var h := ExtendedHeaderAt(c, all);
    ExtendedOnWire(c, emsg, NO_JOB, NO_JOB, 0, 0);
    ExtendedWellFormed();
    ExtendedIsPlain();
    SentAsIs(c, ExtendedClientMsgHdr, ENUMS, h);
    PrefixRejected(c, ExtendedClientMsgHdr, ENUMS, d0, h, data);
  }

  lemma ExtendedLongEnough<M(!new)>(c: ProtoCodec<M>, emsg: int, data: seq<byte>)
    requires InversePair(c) && 0 <= emsg < TWO31 && |data| >= 36
    ensures FromStruct(Deserialize(c, DeserializerCode(ExtendedClientMsgHdr, ENUMS),
                                   ExtendedClientMsgHdrOf(emsg, NO_JOB, NO_JOB, 0, 0), data), emsg, data)
            == Ok(Packet(emsg, false, NumberAt(data, 7, 8), NumberAt(data, 15, 8), data))
  {
    var h := ExtendedHeaderAt(c, data);
    HeadAndTail(data, 36);
    ExtendedParsed(c, emsg, h, data[..36], data[36..], data, NumberAt(data, 7, 8), NumberAt(data, 15, 8));
  }

  lemma ExtendedParsed<M(!new)>(c: ProtoCodec<M>, emsg: int, h: Object<M>, head: seq<byte>, tail: seq<byte>,
                                data: seq<byte>, target: int, source: int)
    requires InversePair(c) && 0 <= emsg < TWO31 && OnWire(c, ExtendedClientMsgHdr, ENUMS, h)
    requires head == Encode(c, ExtendedClientMsgHdr, h) && data == head + tail
    requires NumOf(h, "TargetJobID") == target && NumOf(h, "SourceJobID") == source
    ensures FromStruct(Deserialize(c, DeserializerCode(ExtendedClientMsgHdr, ENUMS),
                                   ExtendedClientMsgHdrOf(emsg, NO_JOB, NO_JOB, 0, 0), data), emsg, data)
            == Ok(Packet(emsg, false, target, source, data))
  {
    ExtendedDeserialized(c, emsg, h, tail);
  }

  /** Fewer than four bytes have no type. */
  lemma ReadsNothing<M>(w: Proto<M>, data: seq<byte>)
    requires |data| < 4
    ensures NewPacket(w, data) == Err
  {}

  /** What reading a protobuf header from any bytes ends in. */
  function ProtoResult<M>(c: ProtoCodec<M>, t: GoType, blank: M, data: seq<byte>): Outcome<(Object<M>, seq<byte>)> {
    if |data| < 8 then Err else
      var n := ToInt32(NumberAt(data, 4, 4));
      if n < 0 then Panic
      else if |data| < 8 + n then Err
      else match c.unmarshal(c.kind(blank), data[8..8 + n])
        case None => Err
        case Some(m) => Ok((ProtoHdrOf(t, NumberAt(data, 0, 4) % TWO31, n, m), data[8 + n..]))
  }

  predicate IsProtoHdr(nodes: Class, t: GoType) {
    (nodes == MsgHdrProtoBuf && t == Int32) || (nodes == MsgGCHdrProtoBuf && t == Uint32)
  }

  /** How a run of a deserialiser ends, as Deserialize reports it. */
  function Ending<M>(e: Exit<RState<M>>): Outcome<(Object<M>, seq<byte>)> {
    match e
    case Crash => Panic
    case Next(s) => if s.err then Err else Ok((s.d, s.input))
    case Return(s) => if s.err then Err else Ok((s.d, s.input))
  }

  /** Setting one field of a protobuf header. */
  lemma HdrSet<M>(t: GoType, msg: int, n: int, m: M, x: int, m': M)
    ensures var d: Object<M> := ProtoHdrOf(t, msg, n, m);
            && d["Msg" := Num(t, x)] == ProtoHdrOf(t, x, n, m)
            && d["HeaderLength" := Num(Int32, x)] == ProtoHdrOf(t, msg, x, m)
            && d["Proto" := Message(m')] == ProtoHdrOf(t, msg, n, m')
  {}

  /** The three parts of the code, in turn. */
  lemma ProtoParts(nodes: Class, t: GoType)
    requires IsProtoHdr(nodes, t)
    ensures |nodes| == 3 && nodes[0].name == "Msg" && nodes[1].name == "HeaderLength" && nodes[2].name == "Proto"
    ensures DeserializerCode(nodes, ENUMS) == ReadsOf(nodes[0], ENUMS, 0, false)
              + (ReadsOf(nodes[1], ENUMS, 1, false) + ReadsOf(nodes[2], ENUMS, 1, true))
  {
    assert Reads(nodes, ENUMS, 3, 2) == [];
    assert Reads(nodes, ENUMS, 2, 1) == ReadsOf(nodes[2], ENUMS, 1, true);
    assert Reads(nodes, ENUMS, 1, 1) == ReadsOf(nodes[1], ENUMS, 1, false) + Reads(nodes, ENUMS, 2, 1);
  }

  lemma ProtoOnAny<M>(c: ProtoCodec<M>, nodes: Class, t: GoType, msg: int, blank: M, data: seq<byte>)
    requires IsProtoHdr(nodes, t)
    ensures Deserialize(c, DeserializerCode(nodes, ENUMS), ProtoHdrOf(t, msg, 0, blank), data)
            == ProtoResult(c, t, blank, data)
  {
    ProtoParts(nodes, t);
    var first, rest := ReadsOf(nodes[0], ENUMS, 0, false),
                       ReadsOf(nodes[1], ENUMS, 1, false) + ReadsOf(nodes[2], ENUMS, 1, true);
    var s: RState<M> := RState(ProtoHdrOf(t, msg, 0, blank), map[], map[], data, false);
    TypeOnAny(c, nodes, t, s);
    EndingIs(c, first + rest, ProtoHdrOf(t, msg, 0, blank), data);
    RunRAppend(c, first, rest, s);
    if |data| >= 4 {
      var emsg := UnLE(data[..4]) % TWO31;
      HdrSet(t, msg, 0, blank, emsg, blank);
      LengthOnAny(c, nodes, t, emsg, blank, RunR(c, first, s).s);
      ResultInParts(c, t, emsg, blank, data);
    }
  }

  lemma EndingIs<M>(c: ProtoCodec<M>, code: seq<RStmt>, d: Object<M>, data: seq<byte>)
    ensures Deserialize(c, code, d, data) == Ending(RunR(c, code, RState(d, map[], map[], data, false)))
  {}

  lemma ResultInParts<M>(c: ProtoCodec<M>, t: GoType, emsg: int, blank: M, data: seq<byte>)
    requires |data| >= 4 && emsg == UnLE(data[..4]) % TWO31
    ensures ProtoResult(c, t, blank, data) == LengthResult(c, t, emsg, blank, data[4..])
  {
    assert data[0..4] == data[..4];
    if |data| >= 8 {
      assert data[4..][0..4] == data[4..8] && data[4..][4..] == data[8..];
      SlicesBehind(data, ToInt32(NumberAt(data, 4, 4)));
    }
  }

  lemma SlicesBehind(data: seq<byte>, n: int)
    requires |data| >= 8
    ensures 0 <= n <= |data| - 8 ==> data[8..][..n] == data[8..8 + n] && data[8..][n..] == data[8 + n..]
  {}

  lemma TypeOnAny<M>(c: ProtoCodec<M>, nodes: Class, t: GoType, s: RState<M>)
    requires IsProtoHdr(nodes, t)
    ensures var r := RunR(c, ReadsOf(nodes[0], ENUMS, 0, false), s);
            if |s.input| < 4 then r.Return? && r.s.err
            else
              && r.Next? && r.s.input == s.input[4..] && !r.s.err
              && r.s.d == s.d["Msg" := Num(t, UnLE(s.input[..4]) % TWO31)]
  {
    AnyMaskedRead(c, nodes[0], ENUMS, 0, false, s);
  }

  function LengthResult<M>(c: ProtoCodec<M>, t: GoType, emsg: int, blank: M, input: seq<byte>)
    : Outcome<(Object<M>, seq<byte>)>
  {
    if |input| < 4 then Err else MessageResult(c, t, emsg, ToInt32(NumberAt(input, 0, 4)), blank, input[4..])
  }

  lemma LengthOnAny<M>(c: ProtoCodec<M>, nodes: Class, t: GoType, emsg: int, blank: M, s: RState<M>)
    requires IsProtoHdr(nodes, t) && s.d == ProtoHdrOf(t, emsg, 0, blank) && !s.err && |nodes| == 3
    ensures Ending(RunR(c, ReadsOf(nodes[1], ENUMS, 1, false) + ReadsOf(nodes[2], ENUMS, 1, true), s))
            == LengthResult(c, t, emsg, blank, s.input)
  {
    var first, rest := ReadsOf(nodes[1], ENUMS, 1, false), ReadsOf(nodes[2], ENUMS, 1, true);
    RunRAppend(c, first, rest, s);
    LengthRead(c, nodes, t, s);
    if |s.input| >= 4 {
      var n := ToInt32(NumberAt(s.input, 0, 4));
      HdrSet(t, emsg, 0, blank, n, blank);
      MessageOnAny(c, nodes, t, emsg, n, blank, RunR(c, first, s).s);
    }
  }

  lemma LengthRead<M>(c: ProtoCodec<M>, nodes: Class, t: GoType, s: RState<M>)
    requires IsProtoHdr(nodes, t) && |nodes| == 3
    ensures var r := RunR(c, ReadsOf(nodes[1], ENUMS, 1, false), s);
            if |s.input| < 4 then r.Return? && r.s.err
            else
              && r.Next? && r.s.input == s.input[4..] && !r.s.err
              && r.s.d == s.d["HeaderLength" := Num(Int32, ToInt32(NumberAt(s.input, 0, 4)))]
  {
    AnyNumberRead(c, nodes[1], ENUMS, 1, s, Int32);
    if |s.input| >= 4 {
      DecodedInt32(s.input[..4]);
      assert s.input[0..4] == s.input[..4];
    }
  }

  lemma DecodedInt32(b: seq<byte>)
    requires |b| == 4
    ensures DecodeNum(Int32, b) == ToInt32(UnLE(b))
  {
    Pow256Values();
  }

  function MessageResult<M>(c: ProtoCodec<M>, t: GoType, emsg: int, n: int, blank: M, input: seq<byte>)
    : Outcome<(Object<M>, seq<byte>)>
  {
    if n < 0 then Panic
    else if |input| < n then Err
    else match c.unmarshal(c.kind(blank), input[..n])
      case None => Err
      case Some(m) => Ok((ProtoHdrOf(t, emsg, n, m), input[n..]))
  }

  lemma MessageOnAny<M>(c: ProtoCodec<M>, nodes: Class, t: GoType, emsg: int, n: int, blank: M, s: RState<M>)
    requires IsProtoHdr(nodes, t) && s.d == ProtoHdrOf(t, emsg, n, blank) && !s.err && |nodes| == 3
    ensures Ending(RunR(c, ReadsOf(nodes[2], ENUMS, 1, true), s)) == MessageResult(c, t, emsg, n, blank, s.input)
  {
    AnyProtoRead(c, nodes[2], ENUMS, 1, true, s, n);
    if 0 <= n <= |s.input| && c.unmarshal(c.kind(blank), s.input[..n]).Some? {
      HdrSet(t, emsg, n, blank, 0, c.unmarshal(c.kind(blank), s.input[..n]).value);
    }
  }

  /**
   NewPacket on any bytes whose first four are an ordinary type with the top bit: the next four announce the
   length of the header message, which has to be there and to unmarshal; a negative one panics.
   */
  lemma ReadsAnyProtobuf<M>(w: Proto<M>, data: seq<byte>)
    requires |data| >= 4 && NumberAt(data, 0, 4) >= TWO31 && NumberAt(data, 0, 4) - TWO31 !in {1303, 1305}
    requires w.c.kind(w.blank) == HEADER_KIND
    ensures NewPacket(w, data) ==
            if |data| < 8 then Err else
              var n := ToInt32(NumberAt(data, 4, 4));
              if n < 0 then Panic
              else if |data| < 8 + n then Err
              else match w.c.unmarshal("CMsgProtoBufHeader", data[8..8 + n])
                case None => Err
                case Some(m) =>
                  Ok(Packet(NumberAt(data, 0, 4) - TWO31, true, w.targetJob(m), w.sourceJob(m), data))
  {
    var emsg := NumberAt(data, 0, 4) - TWO31;
    assert data[0..4] == data[..4];
    assert RawEMsg(data) == emsg + TWO31;
    ProtoOnAny(w.c, MsgHdrProtoBuf, Int32, emsg, w.blank, data);
  }

  // ----- packets from a game coordinator -----

  /** Eighteen bytes or more begin with a game coordinator's struct header. */
  lemma GCHeaderAt<M>(c: ProtoCodec<M>, data: seq<byte>)
    requires |data| >= 18
    ensures Encode(c, MsgGCHdr, MsgGCHdrOf(NumberAt(data, 0, 2), NumberAt(data, 2, 8), NumberAt(data, 10, 8)))
            == data[..18]
  {
    var version := NumberAt(data, 0, 2);
    Uint64BytesBack(data[2..10]);
    Uint64BytesBack(data[10..18]);
    LEUnLE(data[0..2]);
    MsgGCHdrLayout(c, version, data[0..2], NumberAt(data, 2, 8), NumberAt(data, 10, 8));
    assert data[..18] == data[0..2] + (data[2..10] + data[10..18]);
  }

  /**
   NewGCPacket on an envelope of a type without the top bit and any payload: the target job id is in the eight
   bytes from the third on, the body behind the eighteenth; a shorter payload is an error.
   */
  lemma ReadsGCStruct<M(!new)>(w: Proto<M>, e: Envelope)
    requires InversePair(w.c) && 0 <= e.msgType < TWO31
    ensures NewGCPacket(w, e) ==
            if |e.payload| < 18 then Err
            else Ok(GCPacket(e.appId, e.msgType, false, e.gcName, e.payload[18..], NumberAt(e.payload, 2, 8)))
  {
    if |e.payload| < 18 { GCTooShort(w.c, e.payload); } else { GCLongEnough(w.c, e); }
  }

  lemma GCTooShort<M(!new)>(c: ProtoCodec<M>, data: seq<byte>)
    requires InversePair(c) && |data| < 18
    ensures Deserialize(c, DeserializerCode(MsgGCHdr, ENUMS), MsgGCHdrOf(1, NO_JOB, NO_JOB), data) == Err
  {
    var all := data + seq(18 - |data|, _ => 0);
    Padded(data, 18);
    GCHeaderAt(c, all);
    var version, target, source := NumberAt(all, 0, 2), NumberAt(all, 2, 8), NumberAt(all, 10, 8);
    PlainHeadersWellFormed();
    MsgGCHdrOnWire(c, 1, NO_JOB, NO_JOB);
    MsgGCHdrOnWire(c, version, target, source);
    SentAsIs(c, MsgGCHdr, ENUMS, MsgGCHdrOf(version, target, source));
    PrefixRejected(c, MsgGCHdr, ENUMS, MsgGCHdrOf(1, NO_JOB, NO_JOB), MsgGCHdrOf(version, target, source), data);
  }

  lemma GCLongEnough<M(!new)>(c: ProtoCodec<M>, e: Envelope)
    requires InversePair(c) && |e.payload| >= 18
    ensures GCFromStruct(Deserialize(c, DeserializerCode(MsgGCHdr, ENUMS), MsgGCHdrOf(1, NO_JOB, NO_JOB), e.payload), e)
            == Ok(GCPacket(e.appId, e.msgType, false, e.gcName, e.payload[18..], NumberAt(e.payload, 2, 8)))
  {
    var data := e.payload;
    GCHeaderAt(c, data);
    GCParsed(c, e, NumberAt(data, 0, 2), NumberAt(data, 2, 8), NumberAt(data, 10, 8), data[..18], data[18..]);
  }

  lemma GCParsed<M(!new)>(c: ProtoCodec<M>, e: Envelope, version: int, target: int, source: int, head: seq<byte>,
                          tail: seq<byte>)
    requires InversePair(c) && 0 <= version < 0x1_0000 && IsUint64(target) && IsUint64(source)
    requires head == Encode(c, MsgGCHdr, MsgGCHdrOf(version, target, source)) && e.payload == head + tail
    ensures GCFromStruct(Deserialize(c, DeserializerCode(MsgGCHdr, ENUMS), MsgGCHdrOf(1, NO_JOB, NO_JOB), e.payload), e)
            == Ok(GCPacket(e.appId, e.msgType, false, e.gcName, tail, target))
  {
    var d0: Object<M>, h: Object<M> := MsgGCHdrOf(1, NO_JOB, NO_JOB), MsgGCHdrOf(version, target, source);
    PlainHeadersWellFormed();
    MsgGCHdrOnWire(c, 1, NO_JOB, NO_JOB);
    MsgGCHdrOnWire(c, version, target, source);
    DeserializeEncoded(c, MsgGCHdr, ENUMS, d0, h, tail);
    Fields(MsgGCHdr, 1, Deserialize(c, DeserializerCode(MsgGCHdr, ENUMS), d0, e.payload).value.0, h);
  }

  /** NewGCPacket on an envelope with the top bit and any payload. */
  lemma ReadsAnyGCProtobuf<M>(w: Proto<M>, e: Envelope)
    requires TWO31 <= e.msgType < TWO32 && w.c.kind(w.blank) == HEADER_KIND
    ensures NewGCPacket(w, e) ==
            if |e.payload| < 8 then Err else
              var n := ToInt32(NumberAt(e.payload, 4, 4));
              if n < 0 then Panic
              else if |e.payload| < 8 + n then Err
              else match w.c.unmarshal("CMsgProtoBufHeader", e.payload[8..8 + n])
                case None => Err
                case Some(m) =>
                  Ok(GCPacket(e.appId, e.msgType - TWO31, true, e.gcName, e.payload[8 + n..], w.targetJob(m)))
  {
    ProtoOnAny(w.c, MsgGCHdrProtoBuf, Uint32, 0, w.blank, e.payload);
  }
}
