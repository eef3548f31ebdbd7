/**
 SteamLanguage classes: what a field list means as a Go struct, and the reference encoding
 of such a struct on the wire, stated field by field without looking at any emitted code.
 */
module Schema {
  import opened Basics

  // ----- numbers -----

  datatype GoType = Uint8 | Uint16 | Int16 | Uint32 | Int32 | Uint64 | Int64
  {
    function Width(): nat {
      match this
      case Uint8 => 1
      case Uint16 => 2
      case Int16 => 2
      case Uint32 => 4
      case Int32 => 4
      case Uint64 => 8
      case Int64 => 8
    }

    predicate Signed() { Int16? || Int32? || Int64? }

    predicate InRange(v: int) {
      if Signed() then -Pow256(Width()) <= 2 * v < Pow256(Width()) else 0 <= v < Pow256(Width())
    }
  }

  /** binary.Write of one number: two's complement, little-endian. */
  function EncodeNum(t: GoType, v: int): (b: seq<byte>)
    requires t.InRange(v)
    ensures |b| == t.Width()
  {
    LE(if v < 0 then v + Pow256(t.Width()) else v, t.Width())
  }

  /** binary.Read of one number. */
  function DecodeNum(t: GoType, b: seq<byte>): (v: int)
    requires |b| == t.Width()
    ensures t.InRange(v)
  {
    var u := UnLE(b);
    if t.Signed() && 2 * u >= Pow256(t.Width()) then u - Pow256(t.Width()) else u
  }

  lemma NumRoundTrip(t: GoType, v: int)
    requires t.InRange(v)
    ensures DecodeNum(t, EncodeNum(t, v)) == v
  {
    UnLELE(if v < 0 then v + Pow256(t.Width()) else v, t.Width());
  }

  /** Byte k of a number, negative ones included, is floor(v / 256^k) modulo 256. */
  lemma NumByte(t: GoType, v: int, k: nat)
    requires t.InRange(v) && k < t.Width()
    ensures EncodeNum(t, v)[k] == v / Pow256(k) % 256
  {
    var w := t.Width();
    LEByte(if v < 0 then v + Pow256(w) else v, w, k);
    if v < 0 {
      Pow256Split(k, w - k);
      Shifted(v, Pow256(k), Pow256(w - k));
      Wrapped(v / Pow256(k), Pow256(w - k - 1));
    }
  }

  lemma {:induction false} Pow256Split(k: nat, n: nat)
    ensures Pow256(k + n) == Pow256(k) * Pow256(n)
  {
    if k > 0 {
      Pow256Split(k - 1, n);
      assert 256 * (Pow256(k - 1) * Pow256(n)) == (256 * Pow256(k - 1)) * Pow256(n);
    }
  }

  lemma Shifted(v: int, n: int, q: int)
    requires n > 0
    ensures (v + n * q) / n == v / n + q
  {
    var a, b := (v + n * q) / n, v / n;
    assert v + n * q == n * a + (v + n * q) % n && v == n * b + v % n;
    assert n * a - n * b - n * q == n * (a - b - q);
    Multiples(n, a - b - q);
  }

  lemma Wrapped(x: int, q: int)
    ensures (x + 256 * q) % 256 == x % 256
  {}

  function EncodeNums(t: GoType, vs: seq<int>): (b: seq<byte>)
    requires forall v | v in vs :: t.InRange(v)
    ensures |b| == |vs| * t.Width()
  {
    if vs == [] then [] else EncodeNum(t, vs[0]) + EncodeNums(t, vs[1..])
  }

  /** The elements one after the other. */
  lemma {:induction false} NumsPlace(t: GoType, vs: seq<int>, j: nat, at: nat)
    requires (forall v | v in vs :: t.InRange(v)) && j < |vs| && at == j * t.Width()
    ensures at + t.Width() <= |EncodeNums(t, vs)| && EncodeNums(t, vs)[at..at + t.Width()] == EncodeNum(t, vs[j])
  {
    var w, first, rest := t.Width(), EncodeNum(t, vs[0]), EncodeNums(t, vs[1..]);
    if j == 0 {
      assert (first + rest)[..w] == first;
    } else {
      assert at - w == (j - 1) * w;
      NumsPlace(t, vs[1..], j - 1, at - w);
      Behind(first, rest, at, w);
    }
  }

  lemma Behind(first: seq<byte>, rest: seq<byte>, at: nat, w: nat)
    requires |first| <= at && at - |first| + w <= |rest|
    ensures (first + rest)[at..at + w] == rest[at - |first|..at - |first| + w]
  {}

  function DecodeNums(t: GoType, n: nat, b: seq<byte>): (vs: seq<int>)
    requires |b| == n * t.Width()
    ensures |vs| == n && forall v | v in vs :: t.InRange(v)
  {
    if n == 0 then [] else
      [DecodeNum(t, b[..t.Width()])] + DecodeNums(t, n - 1, b[t.Width()..])
  }

  lemma {:induction false} NumsRoundTrip(t: GoType, vs: seq<int>)
    requires forall v | v in vs :: t.InRange(v)
    ensures DecodeNums(t, |vs|, EncodeNums(t, vs)) == vs
  {
    if vs != [] {
      NumRoundTrip(t, vs[0]);
      NumsRoundTrip(t, vs[1..]);
      var b := EncodeNums(t, vs);
      assert b[..t.Width()] == EncodeNum(t, vs[0]) && b[t.Width()..] == EncodeNums(t, vs[1..]);
    }
  }

  /** uint32(v) of a 32-bit number. */
  function Uint32Of(v: int): (u: nat)
    requires -TWO31 <= v < TWO32
    ensures u < TWO32
  {
    if v < 0 then v + TWO32 else v
  }

  /** uint32(v) | ProtoMask and uint32(v) & EMsgMask. */
  function SetMask(u: nat): (r: nat)
    requires u < TWO32
    ensures TWO31 <= r < TWO32
  {
    if u < TWO31 then u + TWO31 else u
  }

  function ClearMask(u: nat): (r: nat)
    requires u < TWO32
    ensures r < TWO31
  {
    if u < TWO31 then u else u - TWO31
  }

  // ----- classes -----

  datatype LangType = Byte | Short | UShort | Int | UInt | Long | ULong | Char

  datatype Symbol = Builtin(t: LangType) | EnumType(name: string) | ProtoType(kind: string)

  datatype Flags = NoFlag | Const | BoolMarshal | SteamIdMarshal | ProtoMask | ProtoMaskGc | Proto

  datatype FlagsOpt = NoOpt | ArraySize(n: nat) | LengthField(name: string)

  datatype PropNode = PropNode(name: string, typ: Symbol, flags: Flags, opt: FlagsOpt)

  type Class = seq<PropNode>

  /** The Go types behind the enum names, collected while the enums were emitted. */
  type Enums = map<string, GoType>

  function TypeMap(t: LangType): (r: GoType)
    ensures r.Width() ==
            if t.Byte? then 1 else if t in {Short, UShort, Char} then 2 else if t in {Int, UInt} then 4 else 8
    ensures r.Signed() <==> t in {Short, Int, Long}
  {
    match t
    case Byte => Uint8
    case Short => Int16
    case UShort => Uint16
    case Int => Int32
    case UInt => Uint32
    case Long => Int64
    case ULong => Uint64
    case Char => Uint16
  }

  /** The Go type a symbol is read as; None where the emitted Go would not compile. */
  function Resolve(sym: Symbol, enums: Enums): Option<GoType> {
    match sym
    case Builtin(t) => Some(TypeMap(t))
    case EnumType(name) => if name in enums then Some(enums[name]) else None
    case ProtoType(_) => None
  }

  datatype FieldType = BoolField | NumField(t: GoType) | SliceField(t: GoType, n: nat) | ProtoField(kind: string)

  /** The struct field a node declares; None where the declaration and the emitted accesses disagree. */
  function FieldTypeOf(node: PropNode, enums: Enums): Option<FieldType>
    requires !node.flags.Const?
  {
    match node.flags
    case BoolMarshal => if node.typ == Builtin(Byte) && node.opt.NoOpt? then Some(BoolField) else None
    case SteamIdMarshal => if node.typ == Builtin(ULong) && node.opt.NoOpt? then Some(NumField(Uint64)) else None
    case ProtoMask =>
      if node.typ.EnumType? && Resolve(node.typ, enums) == Some(Int32) && node.opt.NoOpt?
      then Some(NumField(Int32)) else None
    case ProtoMaskGc => if node.typ == Builtin(UInt) && node.opt.NoOpt? then Some(NumField(Uint32)) else None
    case Proto => if node.typ.ProtoType? && node.opt.LengthField? then Some(ProtoField(node.typ.kind)) else None
    case NoFlag =>
      match Resolve(node.typ, enums)
      case None => None
      case Some(t) =>
        match node.opt
        case NoOpt => Some(NumField(t))
        case ArraySize(n) => Some(SliceField(t, n))
        case LengthField(_) => None
  }

  predicate IsLengthFor(node: PropNode, name: string) {
    node.name == name && node.flags.NoFlag? && node.typ == Builtin(Int) && node.opt.NoOpt?
  }

  /** The i-th node is a protobuf field whose length field was declared before it. */
  ghost predicate HasLength(nodes: Class, i: nat)
    requires i < |nodes|
  {
    nodes[i].opt.LengthField? && exists j :: 0 <= j < i && IsLengthFor(nodes[j], nodes[i].opt.name)
  }

  ghost predicate DistinctNames(nodes: Class) {
    forall i, j | 0 <= i < j < |nodes| && !nodes[i].flags.Const? && !nodes[j].flags.Const? ::
      nodes[i].name != nodes[j].name
  }

  /**
   Every field has a struct type, names are distinct, and each proto has a length field of its
   own that comes before it.
   */
  ghost predicate WellFormed(nodes: Class, enums: Enums) {
    && (forall i | 0 <= i < |nodes| :: nodes[i].flags.Const? || FieldTypeOf(nodes[i], enums).Some?)
    && DistinctNames(nodes)
    && (forall i {:trigger HasLength(nodes, i)} | 0 <= i < |nodes| && nodes[i].flags.Proto? :: HasLength(nodes, i))
    && (forall i, j | 0 <= i < j < |nodes| && nodes[i].flags.Proto? && nodes[j].flags.Proto? ::
          nodes[i].opt != nodes[j].opt)
  }

  // ----- values -----

  datatype Value<M> = Num(t: GoType, v: int) | Flag(on: bool) | Nums(t: GoType, vs: seq<int>) | Message(m: M)

  /** A Go struct: its fields by name. */
  type Object<M> = map<string, Value<M>>

  /** proto.Marshal and proto.Unmarshal, by message kind. */
  datatype ProtoCodec<!M> = ProtoCodec(
    kind: M -> string,
    marshal: M -> Option<seq<byte>>,
    unmarshal: (string, seq<byte>) -> Option<M>)

  ghost predicate InversePair<M(!new)>(c: ProtoCodec<M>) {
    forall m: M | c.marshal(m).Some? :: c.unmarshal(c.kind(m), c.marshal(m).value) == Some(m)
  }

  predicate HasType<M>(c: ProtoCodec<M>, ft: FieldType, v: Value<M>) {
    match ft
    case BoolField => v.Flag?
    case NumField(t) => v.Num? && v.t == t && t.InRange(v.v)
    case SliceField(t, n) => v.Nums? && v.t == t && |v.vs| == n && forall x | x in v.vs :: t.InRange(x)
    case ProtoField(k) => v.Message? && c.kind(v.m) == k
  }

  ghost predicate FieldOk<M>(c: ProtoCodec<M>, node: PropNode, enums: Enums, d: Object<M>) {
    node.flags.Const? ||
    (node.name in d && FieldTypeOf(node, enums).Some? && HasType(c, FieldTypeOf(node, enums).value, d[node.name]))
  }

  /** d has the fields of the class, each of its declared type. */
  ghost predicate Typed<M>(c: ProtoCodec<M>, nodes: Class, enums: Enums, d: Object<M>) {
    forall i | 0 <= i < |nodes| :: FieldOk(c, nodes[i], enums, d)
  }

  /** A protobuf field that can be marshalled, to a length an int32 can hold. */
  ghost predicate MarshalsField<M>(c: ProtoCodec<M>, node: PropNode, d: Object<M>) {
    node.flags.Proto? ==>
      node.name in d && d[node.name].Message? &&
      c.marshal(d[node.name].m).Some? && |c.marshal(d[node.name].m).value| < TWO31
  }

  ghost predicate Marshals<M>(c: ProtoCodec<M>, nodes: Class, d: Object<M>) {
    forall i | 0 <= i < |nodes| :: MarshalsField(c, nodes[i], d)
  }

  /** The length field of a protobuf field says how long it is. */
  ghost predicate LengthSet<M>(c: ProtoCodec<M>, node: PropNode, d: Object<M>) {
    node.flags.Proto? ==>
      MarshalsField(c, node, d) && node.opt.LengthField? && node.opt.name in d
      && d[node.opt.name] == Num(Int32, |c.marshal(d[node.name].m).value|)
  }

  ghost predicate LengthsSet<M>(c: ProtoCodec<M>, nodes: Class, d: Object<M>) {
    forall i | 0 <= i < |nodes| :: LengthSet(c, nodes[i], d)
  }

  // ----- reference encoding -----

  predicate Encodable<M>(c: ProtoCodec<M>, node: PropNode, v: Value<M>) {
    match node.flags
    case Const => true
    case BoolMarshal => v.Flag?
    case ProtoMask => v.Num? && -TWO31 <= v.v < TWO32
    case ProtoMaskGc => v.Num? && -TWO31 <= v.v < TWO32
    case Proto => v.Message? && c.marshal(v.m).Some?
    case _ => (v.Num? && v.t.InRange(v.v)) || (v.Nums? && forall x | x in v.vs :: v.t.InRange(x))
  }

  /** The bytes one value contributes. */
  function ValueBytes<M>(c: ProtoCodec<M>, node: PropNode, v: Value<M>): seq<byte>
    requires Encodable(c, node, v)
  {
    match node.flags
    case Const => []
    case BoolMarshal => if v.on then [1] else [0]
    case ProtoMask => LE(SetMask(Uint32Of(v.v)), 4)
    case ProtoMaskGc => LE(SetMask(Uint32Of(v.v)), 4)
    case Proto => c.marshal(v.m).value
    case _ => if v.Num? then EncodeNum(v.t, v.v) else EncodeNums(v.t, v.vs)
  }

  ghost predicate EncodableField<M>(c: ProtoCodec<M>, node: PropNode, d: Object<M>) {
    node.name in d && Encodable(c, node, d[node.name])
  }

  /** The bytes one field contributes; none for a constant. */
  ghost function FieldBytes<M>(c: ProtoCodec<M>, node: PropNode, d: Object<M>): seq<byte> {
    if node.flags.Const? || !EncodableField(c, node, d) then [] else ValueBytes(c, node, d[node.name])
  }

  /** The fields from index i on, in declaration order. */
  ghost function EncodeFrom<M>(c: ProtoCodec<M>, nodes: Class, i: nat, d: Object<M>): seq<byte>
    requires i <= |nodes|
    decreases |nodes| - i
  {
    if i == |nodes| then [] else FieldBytes(c, nodes[i], d) + EncodeFrom(c, nodes, i + 1, d)
  }

  /** A struct on the wire. */
  ghost function Encode<M>(c: ProtoCodec<M>, nodes: Class, d: Object<M>): seq<byte> {
    EncodeFrom(c, nodes, 0, d)
  }

  /** A typed field that marshals can be encoded. */
  lemma TypedEncodable<M>(c: ProtoCodec<M>, node: PropNode, enums: Enums, d: Object<M>)
    requires !node.flags.Const? && FieldOk(c, node, enums, d) && MarshalsField(c, node, d)
    ensures EncodableField(c, node, d)
  {
    Pow256Values();
  }

  /** A struct as Serialize leaves it behind: typed, and with its lengths set. */
  ghost predicate OnWire<M>(c: ProtoCodec<M>, nodes: Class, enums: Enums, sent: Object<M>) {
    Typed(c, nodes, enums, sent) && Marshals(c, nodes, sent) && LengthsSet(c, nodes, sent)
  }

  /** What the wire keeps of a field: a masked message type loses its top bit, nothing else changes. */
  function Kept<M>(node: PropNode, v: Value<M>): Value<M> {
    if (node.flags.ProtoMask? || node.flags.ProtoMaskGc?) && v.Num? && -TWO31 <= v.v < TWO32
    then Num(v.t, ClearMask(Uint32Of(v.v)))
    else v
  }

  /** No masked field uses its top bit. */
  ghost predicate MaskedBelow<M>(nodes: Class, d: Object<M>) {
    forall i | 0 <= i < |nodes| && (nodes[i].flags.ProtoMask? || nodes[i].flags.ProtoMaskGc?) ::
      nodes[i].name in d && d[nodes[i].name].Num? && 0 <= d[nodes[i].name].v < TWO31
  }
}
