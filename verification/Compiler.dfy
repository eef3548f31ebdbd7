/**
 The two code emitters: from a field list to the statements of the generated Serialize and
 Deserialize methods. The statements are those of the generated Go, one constructor each.
 */
module Compiler {
  import opened Basics
  import opened Schema

  /** Statements of a generated Serialize. */
  datatype WStmt =
    | Marshal(buf: nat, field: string)       // bufN, err := proto.Marshal(d.F)
    | SetLength(field: string, buf: nat)     // d.L = int32(len(bufN))
    | WriteBool(field: string)               // err = rwu.WriteBool(w, d.F)
    | WriteField(field: string)              // err = binary.Write(w, LittleEndian, d.F)
    | WriteMasked(field: string)             // err = binary.Write(w, LittleEndian, EMsg(uint32(d.F) | ProtoMask))
    | WriteBuf(buf: nat)                     // _, err = w.Write(bufN)
    | WCheck                                 // if err != nil { return err }

  /** Statements of a generated Deserialize. */
  datatype RStmt =
    | ReadBool(field: string)                // d.F, err = rwu.ReadBool(r)
    | ReadField(field: string, t: GoType)    // d.F, err = rwu.ReadT(r)
    | ReadTemp(temp: nat, t: GoType)         // tN, err := rwu.ReadT(r)
    | AssignTemp(field: string, temp: nat, t: GoType)    // d.F = T(tN)
    | AssignMasked(field: string, temp: nat, t: GoType)  // d.F = T(uint32(tN) & EMsgMask)
    | MakeBuf(temp: nat, field: string)      // bufN := make([]byte, d.L, d.L)
    | ReadBuf(temp: nat)                     // _, err = io.ReadFull(r, bufN)
    | Unmarshal(temp: nat, field: string)    // err = proto.Unmarshal(bufN, d.F)
    | ReadSlice(field: string)               // err = binary.Read(r, LittleEndian, d.F)
    | RCheck                                 // if err != nil { return err }
    | DoesNotCompile

  // ----- the serializer -----

  function Prologue(nodes: Class, i: nat, temp: nat): seq<WStmt>
    requires i <= |nodes|
    decreases |nodes| - i
  {
    if i == |nodes| then []
    else if nodes[i].flags.Proto? then
      [Marshal(temp, nodes[i].name), WCheck]
      + (if nodes[i].opt.LengthField? then [SetLength(nodes[i].opt.name, temp)] else [])
      + Prologue(nodes, i + 1, temp + 1)
    else Prologue(nodes, i + 1, temp)
  }

  function WriteOf(node: PropNode, buf: nat): WStmt {
    match node.flags
    case BoolMarshal => WriteBool(node.name)
    case ProtoMask => WriteMasked(node.name)
    case ProtoMaskGc => WriteMasked(node.name)
    case Proto => WriteBuf(buf)
    case _ => WriteField(node.name)
  }

  function ProtoStep(node: PropNode): nat { if node.flags.Proto? then 1 else 0 }

  /** How many protobuf fields come before index i: the number of the buffer the i-th node gets. */
  function ProtosBefore(nodes: Class, i: nat): nat
    requires i <= |nodes|
  {
    if i == 0 then 0 else ProtosBefore(nodes, i - 1) + ProtoStep(nodes[i - 1])
  }

  function Writes(nodes: Class, i: nat): seq<WStmt>
    requires i <= |nodes|
    decreases |nodes| - i
  {
    if i == |nodes| then []
    else if nodes[i].flags.Const? then Writes(nodes, i + 1)
    else [WriteOf(nodes[i], ProtosBefore(nodes, i))]
         + (if i + 1 < |nodes| then [WCheck] else [])
         + Writes(nodes, i + 1)
  }

  function SerializerCode(nodes: Class): seq<WStmt> {
    Prologue(nodes, 0, 0) + Writes(nodes, 0)
  }

  /** The emitter's two loops, with its temp counter and its node-to-buffer dictionary. */
  method EmitClassSerializer(nodes: Class) returns (code: seq<WStmt>)
    ensures code == SerializerCode(nodes)
  {
    var nodeToBuf: map<nat, nat>;
    code, nodeToBuf := EmitMarshals(nodes);
    ghost var prologue := code;
    for i := 0 to |nodes|
      invariant code + Writes(nodes, i) == prologue + Writes(nodes, 0)
    {
      if nodes[i].flags.Const? { continue; }
      var buf := if nodes[i].flags.Proto? then nodeToBuf[i] else 0;
      var chunk := [WriteOf(nodes[i], buf)];
      if i != |nodes| - 1 {
        chunk := chunk + [WCheck];
      }
      assert Writes(nodes, i) == chunk + Writes(nodes, i + 1);
      Reassociate(code, chunk, Writes(nodes, i + 1));
      code := code + chunk;
    }
  }

  method EmitMarshals(nodes: Class) returns (code: seq<WStmt>, nodeToBuf: map<nat, nat>)
    ensures code == Prologue(nodes, 0, 0)
    ensures forall j | 0 <= j < |nodes| && nodes[j].flags.Proto? ::
              j in nodeToBuf && nodeToBuf[j] == ProtosBefore(nodes, j)
  {
    var tempNum: nat := 0;
    code, nodeToBuf := [], map[];
    for i := 0 to |nodes|
      invariant tempNum == ProtosBefore(nodes, i)
      invariant code + Prologue(nodes, i, tempNum) == Prologue(nodes, 0, 0)
      invariant forall j | 0 <= j < i && nodes[j].flags.Proto? ::
                  j in nodeToBuf && nodeToBuf[j] == ProtosBefore(nodes, j)
    {
      if nodes[i].flags.Proto? {
        var chunk := [Marshal(tempNum, nodes[i].name), WCheck];
        if nodes[i].opt.LengthField? {
          chunk := chunk + [SetLength(nodes[i].opt.name, tempNum)];
        }
        assert Prologue(nodes, i, tempNum) == chunk + Prologue(nodes, i + 1, tempNum + 1);
        Reassociate(code, chunk, Prologue(nodes, i + 1, tempNum + 1));
        code := code + chunk;
        nodeToBuf := nodeToBuf[i := tempNum];
        tempNum := tempNum + 1;
      }
    }
  }

  // ----- the deserializer -----

  function GoTypeOf(node: PropNode, enums: Enums): GoType {
    match Resolve(node.typ, enums)
    case Some(t) => t
    case None => Uint8
  }

  /** The statements for one node, without the error check after the last of them. */
  function ReadsOf(node: PropNode, enums: Enums, temp: nat, last: bool): seq<RStmt> {
    var check := if last then [] else [RCheck];
    match node.flags
    case Const => []
    case BoolMarshal => [ReadBool(node.name)] + check
    case SteamIdMarshal => [ReadTemp(temp, Uint64), RCheck, AssignTemp(node.name, temp, Uint64)]
    case ProtoMask =>
      if Resolve(node.typ, enums).None? then [DoesNotCompile] else
        [ReadTemp(temp, GoTypeOf(node, enums)), RCheck, AssignMasked(node.name, temp, Int32)]
    case ProtoMaskGc =>  // an enum's name is not looked up here
      if Resolve(node.typ, map[]).None? then [DoesNotCompile] else
        [ReadTemp(temp, GoTypeOf(node, map[])), RCheck, AssignMasked(node.name, temp, Uint32)]
    case Proto =>
      if !node.opt.LengthField? then [DoesNotCompile] else
        [MakeBuf(temp, node.opt.name), ReadBuf(temp), RCheck, Unmarshal(temp, node.name)] + check
    case NoFlag =>
      if Resolve(node.typ, enums).None? then [DoesNotCompile]
      else if !node.opt.NoOpt? then [ReadSlice(node.name)] + check
      else if !node.typ.EnumType? then [ReadField(node.name, GoTypeOf(node, enums))] + check
      else [ReadTemp(temp, GoTypeOf(node, enums))] + check + [AssignTemp(node.name, temp, GoTypeOf(node, enums))]
  }

  function TempStep(node: PropNode): nat {
    match node.flags
    case Const => 0
    case BoolMarshal => 0
    case NoFlag => if node.opt.NoOpt? && node.typ.EnumType? then 1 else 0
    case _ => 1
  }

  function Reads(nodes: Class, enums: Enums, i: nat, temp: nat): seq<RStmt>
    requires i <= |nodes|
    decreases |nodes| - i
  {
    if i == |nodes| then []
    else ReadsOf(nodes[i], enums, temp, i + 1 == |nodes|) + Reads(nodes, enums, i + 1, temp + TempStep(nodes[i]))
  }

  function DeserializerCode(nodes: Class, enums: Enums): seq<RStmt> {
    Reads(nodes, enums, 0, 0)
  }

  lemma ReadsStep(nodes: Class, enums: Enums, i: nat, temp: nat, code: seq<RStmt>)
    requires i < |nodes|
    ensures code + Reads(nodes, enums, i, temp) ==
            (code + ReadsOf(nodes[i], enums, temp, i + 1 == |nodes|))
            + Reads(nodes, enums, i + 1, temp + TempStep(nodes[i]))
  {}

  /** The emitter's loop. */
  method EmitClassDeserializer(nodes: Class, enums: Enums) returns (code: seq<RStmt>)
    ensures code == DeserializerCode(nodes, enums)
  {
    var tempNum: nat := 0;
    code := [];
    for i := 0 to |nodes|
      invariant code + Reads(nodes, enums, i, tempNum) == Reads(nodes, enums, 0, 0)
    {
      var chunk, next := EmitReads(nodes[i], enums, tempNum, i == |nodes| - 1);
      ReadsStep(nodes, enums, i, tempNum, code);
      code, tempNum := code + chunk, next;
    }
  }

  /** The body of that loop: one node. */
  method EmitReads(node: PropNode, enums: Enums, temp: nat, last: bool) returns (code: seq<RStmt>, tempNum: nat)
    ensures code == ReadsOf(node, enums, temp, last)
    ensures tempNum == temp + TempStep(node)
  {
    code, tempNum := [], temp;
    var resolved := Resolve(node.typ, enums);
    match node.flags {
      case Const => return;
      case BoolMarshal =>
        code := [ReadBool(node.name)];
      case SteamIdMarshal =>
        code := [ReadTemp(tempNum, Uint64), RCheck, AssignTemp(node.name, tempNum, Uint64)];
        tempNum := tempNum + 1;
        return;
      case ProtoMask =>
        code := if resolved.None? then [DoesNotCompile] else
          [ReadTemp(tempNum, resolved.value), RCheck, AssignMasked(node.name, tempNum, Int32)];
        tempNum := tempNum + 1;
        return;
      case ProtoMaskGc =>
        var direct := Resolve(node.typ, map[]);
        code := if direct.None? then [DoesNotCompile] else
          [ReadTemp(tempNum, direct.value), RCheck, AssignMasked(node.name, tempNum, Uint32)];
        tempNum := tempNum + 1;
        return;
      case Proto =>
        tempNum := tempNum + 1;
        if !node.opt.LengthField? {
          code := [DoesNotCompile];
          return;
        }
        code := [MakeBuf(temp, node.opt.name), ReadBuf(temp), RCheck, Unmarshal(temp, node.name)];
      case NoFlag =>
        if resolved.None? {
          code, tempNum := [DoesNotCompile], tempNum + TempStep(node);
          return;
        }
        if !node.opt.NoOpt? {
          code := [ReadSlice(node.name)];
        } else if !node.typ.EnumType? {
          code := [ReadField(node.name, resolved.value)];
        } else {
          code := [ReadTemp(tempNum, resolved.value)];
          if !last {
            code := code + [RCheck];
          }
          code := code + [AssignTemp(node.name, tempNum, resolved.value)];
          tempNum := tempNum + 1;
          return;
        }
    }
    if !last {
      code := code + [RCheck];
    }
  }
}
