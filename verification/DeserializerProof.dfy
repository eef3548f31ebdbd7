/** The emitted Deserialize inverts the reference encoding, and rejects every strict prefix of it. */
module DeserializerProof {
  import opened Basics
  import opened Schema
  import opened Compiler
  import opened Machine
  import opened SerializerProof

  ghost predicate Fails<M>(r: Exit<RState<M>>) { !r.Crash? && r.s.err }

  /** What the reading of the fields before index i has left in d. */
  ghost predicate ReadSoFar<M>(nodes: Class, i: nat, d: Object<M>, sent: Object<M>)
    requires i <= |nodes|
  {
    forall j | 0 <= j < i && !nodes[j].flags.Const? ::
      nodes[j].name in d && nodes[j].name in sent && d[nodes[j].name] == Kept(nodes[j], sent[nodes[j].name])
  }

  lemma TakeExact(s: seq<byte>, b: seq<byte>, tail: seq<byte>)
    requires s == b + tail
    ensures |b| <= |s| && s[..|b|] == b && s[|b|..] == tail
  {}

  lemma TakeNumExact<M>(s: RState<M>, t: GoType, v: int, tail: seq<byte>)
    requires t.InRange(v) && s.input == EncodeNum(t, v) + tail
    ensures s.TakeNum(t) == (v, s.(input := tail, err := false))
  {
    TakeExact(s.input, EncodeNum(t, v), tail);
    NumRoundTrip(t, v);
  }

  /** A masked message type read back as a number of type t, before the mask is cleared. */
  lemma TakeMasked<M>(s: RState<M>, t: GoType, u: nat, tail: seq<byte>)
    requires (t == Int32 || t == Uint32) && u < TWO32 && s.input == LE(SetMask(u), 4) + tail
    ensures var (v, s') := s.TakeNum(t);
            s' == s.(input := tail, err := false) && -TWO31 <= v < TWO32 && ClearMask(Uint32Of(v)) == ClearMask(u)
  {
    Pow256Values();
    TakeExact(s.input, LE(SetMask(u), 4), tail);
    UnLELE(SetMask(u), 4);
  }

  lemma ReadThenCheck<M>(c: ProtoCodec<M>, x: RStmt, last: bool, s: RState<M>)
    ensures RunR(c, [x] + (if last then [] else [RCheck]), s) ==
            Then(ExecR(c, x, s), (s1: RState<M>) => if !last && s1.err then Return(s1) else Next(s1))
  {
    if last {
      Run1(c, x, s);
      assert [x] + [] == [x];
    } else {
      Run2(c, x, RCheck, s);
    }
  }

  /** A read into a temporary, the check where there is one, and the assignment. */
  lemma TempRead<M>(c: ProtoCodec<M>, f: string, k: nat, t: GoType, check: bool, s: RState<M>)
    ensures var (v, s') := s.TakeNum(t);
            RunR(c, [ReadTemp(k, t)] + (if check then [RCheck] else []) + [AssignTemp(f, k, t)], s) ==
            (var s1 := s'.(temps := s'.temps[k := v]);
             if check && s1.err then Return(s1) else Next(s1.(d := s1.d[f := Num(t, v)])))
  {
    if check {
      Run3(c, ReadTemp(k, t), RCheck, AssignTemp(f, k, t), s);
      assert [ReadTemp(k, t)] + [RCheck] + [AssignTemp(f, k, t)] == [ReadTemp(k, t), RCheck, AssignTemp(f, k, t)];
    } else {
      Run2(c, ReadTemp(k, t), AssignTemp(f, k, t), s);
      assert [ReadTemp(k, t)] + [] + [AssignTemp(f, k, t)] == [ReadTemp(k, t), AssignTemp(f, k, t)];
    }
  }

  /** A node read as one number, whichever statements that takes. */
  lemma OneNumberRead<M>(c: ProtoCodec<M>, node: PropNode, enums: Enums, temp: nat, last: bool, s: RState<M>)
    requires node.flags.SteamIdMarshal? || node.flags.NoFlag?
    requires FieldTypeOf(node, enums).Some? && FieldTypeOf(node, enums).value.NumField?
    ensures var t := FieldTypeOf(node, enums).value.t;
            var (v, s') := s.TakeNum(t);
            var r := RunR(c, ReadsOf(node, enums, temp, last), s);
            if s'.err then Fails(r) && (r.Next? ==> last)
            else r.Next? && r.s.input == s'.input && !r.s.err && r.s.d == s.d[node.name := Num(t, v)]
  {
    var t := FieldTypeOf(node, enums).value.t;
    if node.flags.SteamIdMarshal? {
      TempRead(c, node.name, temp, Uint64, true, s);
      assert ReadsOf(node, enums, temp, last)
             == [ReadTemp(temp, Uint64)] + [RCheck] + [AssignTemp(node.name, temp, Uint64)];
    } else if node.typ.EnumType? {
      TempRead(c, node.name, temp, t, !last, s);
    } else {
      ReadThenCheck(c, ReadField(node.name, t), last, s);
    }
  }

  /** A bool: true for any byte but zero. */
  lemma OneBoolRead<M>(c: ProtoCodec<M>, node: PropNode, enums: Enums, temp: nat, last: bool, s: RState<M>, n: byte,
                       tail: seq<byte>)
    requires node.flags.BoolMarshal? && s.input == [n] + tail
    ensures var r := RunR(c, ReadsOf(node, enums, temp, last), s);
            r.Next? && r.s.input == tail && !r.s.err && r.s.d == s.d[node.name := Flag(n > 0)]
  {
    Pow256Values();
    assert EncodeNum(Uint8, n) == [n] + LE(0, 0);
    TakeNumExact(s, Uint8, n, tail);
    ReadThenCheck(c, ReadBool(node.name), last, s);
  }

  /** An array, read into the slice the constructor made. */
  lemma OneSliceRead<M>(c: ProtoCodec<M>, node: PropNode, enums: Enums, temp: nat, last: bool, s: RState<M>,
                        t: GoType, vs: seq<int>, tail: seq<byte>)
    requires node.flags.NoFlag? && FieldTypeOf(node, enums) == Some(SliceField(t, |vs|))
    requires node.name in s.d && s.d[node.name].Nums? && s.d[node.name].t == t && |s.d[node.name].vs| == |vs|
    requires (forall v | v in vs :: t.InRange(v)) && s.input == EncodeNums(t, vs) + tail
    ensures var r := RunR(c, ReadsOf(node, enums, temp, last), s);
            r.Next? && r.s.input == tail && !r.s.err && r.s.d == s.d[node.name := Nums(t, vs)]
  {
    NumsRoundTrip(t, vs);
    TakeExact(s.input, EncodeNums(t, vs), tail);
    ReadThenCheck(c, ReadSlice(node.name), last, s);
  }

  /** The statements of a masked node, and its type. */
  lemma MaskedCode(node: PropNode, enums: Enums, temp: nat, last: bool)
    requires (node.flags.ProtoMask? || node.flags.ProtoMaskGc?) && FieldTypeOf(node, enums).Some?
    ensures FieldTypeOf(node, enums) == Some(NumField(if node.flags.ProtoMask? then Int32 else Uint32))
    ensures var t := FieldTypeOf(node, enums).value.t;
            ReadsOf(node, enums, temp, last) == [ReadTemp(temp, t), RCheck, AssignMasked(node.name, temp, t)]
  {}

  /** Those statements on input that starts with a masked number. */
  lemma MaskedRun<M>(c: ProtoCodec<M>, f: string, temp: nat, t: GoType, s: RState<M>, u: nat, tail: seq<byte>)
    requires (t == Int32 || t == Uint32) && u < TWO32 && s.input == LE(SetMask(u), 4) + tail
    ensures var r := RunR(c, [ReadTemp(temp, t), RCheck, AssignMasked(f, temp, t)], s);
            r.Next? && r.s.input == tail && !r.s.err && r.s.d == s.d[f := Num(t, ClearMask(u))]
  {
    TakeMasked(s, t, u, tail);
    Run3(c, ReadTemp(temp, t), RCheck, AssignMasked(f, temp, t), s);
  }

  /** One masked message type: the top bit is set on the wire and gone after reading. */
  lemma OneMaskedRead<M>(c: ProtoCodec<M>, node: PropNode, enums: Enums, temp: nat, last: bool,
                         s: RState<M>, v: Value<M>, tail: seq<byte>)
    requires node.flags.ProtoMask? || node.flags.ProtoMaskGc?
    requires FieldTypeOf(node, enums).Some? && HasType(c, FieldTypeOf(node, enums).value, v)
    requires Encodable(c, node, v) && s.input == ValueBytes(c, node, v) + tail
    ensures var r := RunR(c, ReadsOf(node, enums, temp, last), s);
            r.Next? && r.s.input == tail && !r.s.err && r.s.d == s.d[node.name := Kept(node, v)]
  {
    MaskedCode(node, enums, temp, last);
    MaskedRun(c, node.name, temp, v.t, s, Uint32Of(v.v), tail);
  }

  /** The statements of a protobuf node. */
  lemma ProtoCode(node: PropNode, enums: Enums, temp: nat, last: bool)
    requires node.flags.Proto? && node.opt.LengthField?
    ensures ReadsOf(node, enums, temp, last) ==
            [MakeBuf(temp, node.opt.name)]
            + ([ReadBuf(temp)] + ([RCheck] + ([Unmarshal(temp, node.name)] + (if last then [] else [RCheck]))))
  {}

  /**
   One protobuf field on any input: a negative length panics, a short input or a message that does not unmarshal
   is an error, and otherwise the message is what the announced bytes unmarshal to.
   */
  lemma AnyProtoRead<M>(c: ProtoCodec<M>, node: PropNode, enums: Enums, temp: nat, last: bool, s: RState<M>, n: int)
    requires node.flags.Proto? && node.opt.LengthField? && node.opt.name in s.d && node.name in s.d
    requires s.d[node.opt.name] == Num(Int32, n) && s.d[node.name].Message?
    ensures var r := RunR(c, ReadsOf(node, enums, temp, last), s);
            if n < 0 then r.Crash?
            else if n > |s.input| then r.Return? && r.s.err
            else match c.unmarshal(c.kind(s.d[node.name].m), s.input[..n])
              case None => Fails(r)
              case Some(m) =>
                r.Next? && r.s.input == s.input[n..] && !r.s.err && r.s.d == s.d[node.name := Message(m)]
  {
    var check := if last then [] else [RCheck];
    var mk, rd, um := MakeBuf(temp, node.opt.name), ReadBuf(temp), Unmarshal(temp, node.name);
    ProtoCode(node, enums, temp, last);
    StepR(c, mk, [rd] + ([RCheck] + ([um] + check)), s);
    if n >= 0 {
      var s1 := s.(bufs := s.bufs[temp := seq(n, _ => 0)]);
      StepR(c, rd, [RCheck] + ([um] + check), s1);
      var s2 := ExecR(c, rd, s1).s;
      StepR(c, RCheck, [um] + check, s2);
      if n <= |s.input| {
        assert s2 == s.(bufs := s1.bufs[temp := s.input[..n]], input := s.input[n..], err := false);
        StepR(c, um, check, s2);
        UnmarshalEnds(c, um, check, s2);
      }
    }
  }

  lemma UnmarshalEnds<M>(c: ProtoCodec<M>, um: RStmt, check: seq<RStmt>, s: RState<M>)
    requires um.Unmarshal? && (check == [] || check == [RCheck]) && ExecR(c, um, s).Next?
    ensures var r := RunR(c, [um] + check, s); var t := ExecR(c, um, s).s;
            if t.err then Fails(r) else r == Next(t)
  {
    StepR(c, um, check, s);
    if check == [RCheck] { Run1(c, RCheck, ExecR(c, um, s).s); }
  }

  /** One protobuf field, whose length was read before it. */
  lemma OneProtoRead<M>(c: ProtoCodec<M>, node: PropNode, enums: Enums, temp: nat, last: bool,
                        s: RState<M>, m: M, tail: seq<byte>)
    requires node.flags.Proto? && node.opt.LengthField? && c.marshal(m).Some?
    requires var b := c.marshal(m).value;
             s.input == b + tail && node.opt.name in s.d && s.d[node.opt.name] == Num(Int32, |b|)
             && c.unmarshal(c.kind(m), b) == Some(m)
    requires node.name in s.d && s.d[node.name].Message? && c.kind(s.d[node.name].m) == c.kind(m)
    ensures var r := RunR(c, ReadsOf(node, enums, temp, last), s);
            r.Next? && r.s.input == tail && !r.s.err && r.s.d == s.d[node.name := Message(m)]
  {
    TakeExact(s.input, c.marshal(m).value, tail);
    AnyProtoRead(c, node, enums, temp, last, s, |c.marshal(m).value|);
  }

  /** A masked message type on any input: the low 31 bits of four bytes, or an error. */
  lemma AnyMaskedRead<M>(c: ProtoCodec<M>, node: PropNode, enums: Enums, temp: nat, last: bool, s: RState<M>)
    requires (node.flags.ProtoMask? || node.flags.ProtoMaskGc?) && FieldTypeOf(node, enums).Some?
    ensures var r := RunR(c, ReadsOf(node, enums, temp, last), s); var t := FieldTypeOf(node, enums).value.t;
            if |s.input| < 4 then r.Return? && r.s.err
            else
              && r.Next? && r.s.input == s.input[4..] && !r.s.err
              && UnLE(s.input[..4]) < TWO32 && r.s.d == s.d[node.name := Num(t, UnLE(s.input[..4]) % TWO31)]
  {
    MaskedCode(node, enums, temp, last);
    var t := FieldTypeOf(node, enums).value.t;
    Run3(c, ReadTemp(temp, t), RCheck, AssignMasked(node.name, temp, t), s);
    TakeAnyMasked(s, t);
  }

  lemma TakeAnyMasked<M>(s: RState<M>, t: GoType)
    requires t == Int32 || t == Uint32
    ensures var (v, s') := s.TakeNum(t);
            if |s.input| < 4 then s'.err
            else s' == s.(input := s.input[4..], err := false) && -TWO31 <= v < TWO32
                 && UnLE(s.input[..4]) < TWO32 && ClearMask(Uint32Of(v)) == UnLE(s.input[..4]) % TWO31
  {
    Pow256Values();
  }

  /** A number on any input: its bytes decoded, or an error where a check follows. */
  lemma AnyNumberRead<M>(c: ProtoCodec<M>, node: PropNode, enums: Enums, temp: nat, s: RState<M>, t: GoType)
    requires node.flags.NoFlag? && node.opt.NoOpt? && node.typ.Builtin? && TypeMap(node.typ.t) == t
    ensures var r := RunR(c, ReadsOf(node, enums, temp, false), s); var w := t.Width();
            if |s.input| < w then r.Return? && r.s.err
            else r.Next? && r.s.input == s.input[w..] && !r.s.err
                 && r.s.d == s.d[node.name := Num(t, DecodeNum(t, s.input[..w]))]
  {
    ReadThenCheck(c, ReadField(node.name, t), false, s);
  }

  /** Assigning what was kept of a field keeps the struct typed and extends what has been read. */
  lemma AssignKeeps<M>(c: ProtoCodec<M>, nodes: Class, enums: Enums, i: nat, d: Object<M>, sent: Object<M>)
    requires WellFormed(nodes, enums) && i < |nodes| && !nodes[i].flags.Const?
    requires Typed(c, nodes, enums, d) && Typed(c, nodes, enums, sent) && ReadSoFar(nodes, i, d, sent)
    ensures FieldOk(c, nodes[i], enums, sent)
    ensures var d' := d[nodes[i].name := Kept(nodes[i], sent[nodes[i].name])];
            Typed(c, nodes, enums, d') && ReadSoFar(nodes, i + 1, d', sent)
  {
    Pow256Values();
    assert FieldOk(c, nodes[i], enums, sent);
    var d' := d[nodes[i].name := Kept(nodes[i], sent[nodes[i].name])];
    forall j | 0 <= j < |nodes| ensures FieldOk(c, nodes[j], enums, d') {
      assert FieldOk(c, nodes[j], enums, d);
    }
  }

  /** When the i-th node is a protobuf field, its length has been read already. */
  lemma LengthWasRead<M>(c: ProtoCodec<M>, nodes: Class, enums: Enums, i: nat, d: Object<M>, sent: Object<M>)
    requires WellFormed(nodes, enums) && i < |nodes| && nodes[i].flags.Proto?
    requires Marshals(c, nodes, sent) && LengthsSet(c, nodes, sent) && ReadSoFar(nodes, i, d, sent)
    ensures MarshalsField(c, nodes[i], sent) && nodes[i].opt.LengthField?
    ensures nodes[i].opt.name in d && d[nodes[i].opt.name] == LengthOf(c, nodes[i], sent)
  {
    assert MarshalsField(c, nodes[i], sent) && LengthSet(c, nodes[i], sent) && HasLength(nodes, i);
    var j :| 0 <= j < i && IsLengthFor(nodes[j], nodes[i].opt.name);
  }

  /** One node, whatever its kind: what its statements do to the struct. */
  lemma OneRead<M(!new)>(c: ProtoCodec<M>, nodes: Class, enums: Enums, i: nat, temp: nat,
                         s: RState<M>, sent: Object<M>, tail: seq<byte>) returns (t: RState<M>)
    requires InversePair(c) && WellFormed(nodes, enums) && i < |nodes| && !nodes[i].flags.Const?
    requires Typed(c, nodes, enums, s.d) && OnWire(c, nodes, enums, sent) && ReadSoFar(nodes, i, s.d, sent)
    requires s.input == FieldBytes(c, nodes[i], sent) + tail
    ensures RunR(c, ReadsOf(nodes[i], enums, temp, i + 1 == |nodes|), s) == Next(t)
    ensures nodes[i].name in sent
    ensures t.input == tail && !t.err && t.d == s.d[nodes[i].name := Kept(nodes[i], sent[nodes[i].name])]
  {
    var node, last := nodes[i], i + 1 == |nodes|;
    assert FieldOk(c, node, enums, s.d) && FieldOk(c, node, enums, sent) && MarshalsField(c, node, sent);
    TypedEncodable(c, node, enums, sent);
    var v := sent[node.name];
    if node.flags.Proto? {
      LengthWasRead(c, nodes, enums, i, s.d, sent);
      OneProtoRead(c, node, enums, temp, last, s, v.m, tail);
    } else if node.flags.ProtoMask? || node.flags.ProtoMaskGc? {
      OneMaskedRead(c, node, enums, temp, last, s, v, tail);
    } else if node.flags.BoolMarshal? {
      OneBoolRead(c, node, enums, temp, last, s, if v.on then 1 else 0, tail);
    } else if v.Num? {
      TakeNumExact(s, v.t, v.v, tail);
      OneNumberRead(c, node, enums, temp, last, s);
    } else {
      OneSliceRead(c, node, enums, temp, last, s, v.t, v.vs, tail);
    }
    t := RunR(c, ReadsOf(node, enums, temp, last), s).s;
  }

  /** One turn of the reading: the i-th node is read and what is left is the reading of the rest. */
  lemma ReadStep<M(!new)>(c: ProtoCodec<M>, nodes: Class, enums: Enums, i: nat, temp: nat,
                          s: RState<M>, sent: Object<M>, tail: seq<byte>) returns (t: RState<M>)
    requires InversePair(c) && WellFormed(nodes, enums) && i < |nodes| && !s.err
    requires Typed(c, nodes, enums, s.d) && OnWire(c, nodes, enums, sent) && ReadSoFar(nodes, i, s.d, sent)
    requires s.input == FieldBytes(c, nodes[i], sent) + tail
    ensures RunR(c, Reads(nodes, enums, i, temp), s)
            == RunR(c, Reads(nodes, enums, i + 1, temp + TempStep(nodes[i])), t)
    ensures t.input == tail && !t.err && t.d.Keys == s.d.Keys
    ensures Typed(c, nodes, enums, t.d) && ReadSoFar(nodes, i + 1, t.d, sent)
  {
    RunRAppend(c, ReadsOf(nodes[i], enums, temp, i + 1 == |nodes|),
               Reads(nodes, enums, i + 1, temp + TempStep(nodes[i])), s);
    if nodes[i].flags.Const? {
      t := s;
      assert [] + tail == tail;
    } else {
      t := OneRead(c, nodes, enums, i, temp, s, sent, tail);
      AssignKeeps(c, nodes, enums, i, s.d, sent);
    }
  }

  lemma {:induction false} ReadsRun<M(!new)>(c: ProtoCodec<M>, nodes: Class, enums: Enums, i: nat, temp: nat,
                                             s: RState<M>, sent: Object<M>, tail: seq<byte>) returns (t: RState<M>)
    requires InversePair(c) && WellFormed(nodes, enums) && i <= |nodes| && !s.err
    requires Typed(c, nodes, enums, s.d) && OnWire(c, nodes, enums, sent) && ReadSoFar(nodes, i, s.d, sent)
    requires s.input == EncodeFrom(c, nodes, i, sent) + tail
    ensures RunR(c, Reads(nodes, enums, i, temp), s) == Next(t)
    ensures t.input == tail && !t.err && ReadSoFar(nodes, |nodes|, t.d, sent) && t.d.Keys == s.d.Keys
    decreases |nodes| - i
  {
    if i == |nodes| {
      t := s;
      assert [] + tail == tail;
    } else {
      var b, more := FieldBytes(c, nodes[i], sent), EncodeFrom(c, nodes, i + 1, sent);
      Reassociate(b, more, tail);
      var u := ReadStep(c, nodes, enums, i, temp, s, sent, more + tail);
      t := ReadsRun(c, nodes, enums, i + 1, temp + TempStep(nodes[i]), u, sent, tail);
    }
  }

  // ----- short input -----

  lemma ShortProtoRead<M>(c: ProtoCodec<M>, node: PropNode, enums: Enums, temp: nat, last: bool, s: RState<M>, n: nat)
    requires node.flags.Proto? && node.opt.LengthField?
    requires node.opt.name in s.d && s.d[node.opt.name] == Num(Int32, n) && |s.input| < n
    requires node.name in s.d && s.d[node.name].Message?
    ensures var r := RunR(c, ReadsOf(node, enums, temp, last), s); r.Return? && r.s.err
  {
    AnyProtoRead(c, node, enums, temp, last, s, n);
  }

  lemma ShortBoolRead<M>(c: ProtoCodec<M>, node: PropNode, enums: Enums, temp: nat, last: bool, s: RState<M>)
    requires node.flags.BoolMarshal? && s.input == []
    ensures var r := RunR(c, ReadsOf(node, enums, temp, last), s); Fails(r) && (r.Next? ==> last)
  {
    ReadThenCheck(c, ReadBool(node.name), last, s);
  }

  lemma ShortMaskedRead<M>(c: ProtoCodec<M>, node: PropNode, enums: Enums, temp: nat, last: bool, s: RState<M>)
    requires (node.flags.ProtoMask? || node.flags.ProtoMaskGc?) && FieldTypeOf(node, enums).Some? && |s.input| < 4
    ensures var r := RunR(c, ReadsOf(node, enums, temp, last), s); Fails(r) && (r.Next? ==> last)
  {
    MaskedCode(node, enums, temp, last);
    var t := FieldTypeOf(node, enums).value.t;
    Run3(c, ReadTemp(temp, t), RCheck, AssignMasked(node.name, temp, t), s);
  }

  lemma ShortSliceRead<M>(c: ProtoCodec<M>, node: PropNode, enums: Enums, temp: nat, last: bool, s: RState<M>,
                          t: GoType, n: nat)
    requires node.flags.NoFlag? && FieldTypeOf(node, enums) == Some(SliceField(t, n))
    requires node.name in s.d && s.d[node.name].Nums? && s.d[node.name].t == t && |s.d[node.name].vs| == n
    requires |s.input| < n * t.Width()
    ensures var r := RunR(c, ReadsOf(node, enums, temp, last), s); Fails(r) && (r.Next? ==> last)
  {
    ReadThenCheck(c, ReadSlice(node.name), last, s);
  }

  lemma ShortPlainRead<M>(c: ProtoCodec<M>, node: PropNode, enums: Enums, temp: nat, last: bool,
                          s: RState<M>, v: Value<M>)
    requires !node.flags.Const? && !node.flags.Proto? && FieldTypeOf(node, enums).Some?
    requires HasType(c, FieldTypeOf(node, enums).value, v)
    requires node.name in s.d && HasType(c, FieldTypeOf(node, enums).value, s.d[node.name])
    requires Encodable(c, node, v) && |s.input| < |ValueBytes(c, node, v)|
    ensures var r := RunR(c, ReadsOf(node, enums, temp, last), s); Fails(r) && (r.Next? ==> last)
  {
    if node.flags.BoolMarshal? {
      ShortBoolRead(c, node, enums, temp, last, s);
    } else if node.flags.ProtoMask? || node.flags.ProtoMaskGc? {
      ShortMaskedRead(c, node, enums, temp, last, s);
    } else if v.Num? {
      OneNumberRead(c, node, enums, temp, last, s);
    } else {
      ShortSliceRead(c, node, enums, temp, last, s, v.t, |v.vs|);
    }
  }

  /** Input shorter than the field: an error, returned at once unless the node is the last. */
  lemma OneShortRead<M>(c: ProtoCodec<M>, nodes: Class, enums: Enums, i: nat, temp: nat, last: bool,
                        s: RState<M>, sent: Object<M>)
    requires WellFormed(nodes, enums) && i < |nodes|
    requires FieldOk(c, nodes[i], enums, s.d) && FieldOk(c, nodes[i], enums, sent)
    requires Marshals(c, nodes, sent) && LengthsSet(c, nodes, sent) && ReadSoFar(nodes, i, s.d, sent)
    requires |s.input| < |FieldBytes(c, nodes[i], sent)|
    ensures var r := RunR(c, ReadsOf(nodes[i], enums, temp, last), s); Fails(r) && (r.Next? ==> last)
  {
    var node := nodes[i];
    if node.flags.Proto? {
      LengthWasRead(c, nodes, enums, i, s.d, sent);
      ShortProtoRead(c, node, enums, temp, last, s, |c.marshal(sent[node.name].m).value|);
    } else {
      ShortPlainRead(c, node, enums, temp, last, s, sent[node.name]);
    }
  }

  lemma ShortStep<M>(c: ProtoCodec<M>, nodes: Class, enums: Enums, i: nat, temp: nat, s: RState<M>, sent: Object<M>)
    requires WellFormed(nodes, enums) && i < |nodes|
    requires Typed(c, nodes, enums, s.d) && OnWire(c, nodes, enums, sent) && ReadSoFar(nodes, i, s.d, sent)
    requires |s.input| < |FieldBytes(c, nodes[i], sent)|
    ensures Fails(RunR(c, Reads(nodes, enums, i, temp), s))
  {
    var last, rest := i + 1 == |nodes|, Reads(nodes, enums, i + 1, temp + TempStep(nodes[i]));
    assert FieldOk(c, nodes[i], enums, s.d) && FieldOk(c, nodes[i], enums, sent);
    OneShortRead(c, nodes, enums, i, temp, last, s, sent);
    RunRAppend(c, ReadsOf(nodes[i], enums, temp, last), rest, s);
  }

  /** A strict prefix that reaches past the first part. */
  lemma CutInRest(s: seq<byte>, b: seq<byte>, more: seq<byte>)
    requires s < b + more && |s| >= |b|
    ensures s == b + s[|b|..] && s[|b|..] < more
  {
    Halves(b, more);
  }

  lemma {:induction false} ShortReadsFail<M(!new)>(c: ProtoCodec<M>, nodes: Class, enums: Enums, i: nat, temp: nat,
                                                   s: RState<M>, sent: Object<M>)
    requires InversePair(c) && WellFormed(nodes, enums) && i <= |nodes| && !s.err
    requires Typed(c, nodes, enums, s.d) && OnWire(c, nodes, enums, sent) && ReadSoFar(nodes, i, s.d, sent)
    requires s.input < EncodeFrom(c, nodes, i, sent)
    ensures Fails(RunR(c, Reads(nodes, enums, i, temp), s))
    decreases |nodes| - i
  {
    var b, more := FieldBytes(c, nodes[i], sent), EncodeFrom(c, nodes, i + 1, sent);
    if |s.input| < |b| {
      ShortStep(c, nodes, enums, i, temp, s, sent);
    } else {
      var tail := s.input[|b|..];
      CutInRest(s.input, b, more);
      var u := ReadStep(c, nodes, enums, i, temp, s, sent, tail);
      ShortReadsFail(c, nodes, enums, i + 1, temp + TempStep(nodes[i]), u, sent);
    }
  }

  // ----- the theorems -----

  /** Deserialize on an encoding and anything after it: the fields come back, and so does what follows. */
  lemma DeserializeEncoded<M(!new)>(c: ProtoCodec<M>, nodes: Class, enums: Enums, d: Object<M>, sent: Object<M>,
                                    tail: seq<byte>)
    requires InversePair(c) && WellFormed(nodes, enums)
    requires Typed(c, nodes, enums, d) && OnWire(c, nodes, enums, sent)
    ensures var r := Deserialize(c, DeserializerCode(nodes, enums), d, Encode(c, nodes, sent) + tail);
            r.Ok? && r.value.1 == tail && ReadSoFar(nodes, |nodes|, r.value.0, sent) && r.value.0.Keys == d.Keys
  {
    var t := ReadsRun(c, nodes, enums, 0, 0, RState(d, map[], map[], Encode(c, nodes, sent) + tail, false), sent, tail);
  }

  ghost predicate SameFields<M>(nodes: Class, d: Object<M>, d': Object<M>) {
    forall i | 0 <= i < |nodes| && !nodes[i].flags.Const? ::
      nodes[i].name in d && nodes[i].name in d' && d[nodes[i].name] == d'[nodes[i].name]
  }

  /**
   The two generated methods are inverse, for every class: reading what was written, followed by any
   bytes, leaves exactly those bytes and gives back the struct as it was sent, the latter exactly when
   no masked field uses its top bit.
   */
  lemma RoundTrip<M(!new)>(c: ProtoCodec<M>, nodes: Class, enums: Enums, d0: Object<M>, d: Object<M>, tail: seq<byte>)
    requires InversePair(c) && WellFormed(nodes, enums)
    requires Typed(c, nodes, enums, d0) && Typed(c, nodes, enums, d) && Marshals(c, nodes, d)
    ensures var w := Serialize(c, SerializerCode(nodes), d);
            w.Ok? && Sent(c, nodes, d, w.value.0) &&
            var r := Deserialize(c, DeserializerCode(nodes, enums), d0, w.value.1 + tail);
            r.Ok? && r.value.1 == tail && (SameFields(nodes, r.value.0, w.value.0) <==> MaskedBelow(nodes, w.value.0))
  {
    SerializeCorrect(c, nodes, enums, d);
    var sent := Serialize(c, SerializerCode(nodes), d).value.0;
    DeserializeEncoded(c, nodes, enums, d0, sent, tail);
    var r := Deserialize(c, DeserializerCode(nodes, enums), d0, Encode(c, nodes, sent) + tail).value.0;
    KeptFields(c, nodes, enums, r, sent);
  }

  lemma KeptFields<M>(c: ProtoCodec<M>, nodes: Class, enums: Enums, d: Object<M>, sent: Object<M>)
    requires Typed(c, nodes, enums, sent) && ReadSoFar(nodes, |nodes|, d, sent)
    ensures SameFields(nodes, d, sent) <==> MaskedBelow(nodes, sent)
  {
    Pow256Values();
    forall i | 0 <= i < |nodes| && !nodes[i].flags.Const?
      ensures nodes[i].name in d && nodes[i].name in sent
      ensures d[nodes[i].name] == sent[nodes[i].name] <==>
              ((nodes[i].flags.ProtoMask? || nodes[i].flags.ProtoMaskGc?) ==>
                sent[nodes[i].name].Num? && 0 <= sent[nodes[i].name].v < TWO31)
    {
      assert FieldOk(c, nodes[i], enums, sent);
    }
  }

  /** An encoding cut anywhere before its end is rejected with an error, never a panic. */
  lemma PrefixRejected<M(!new)>(c: ProtoCodec<M>, nodes: Class, enums: Enums, d0: Object<M>, d: Object<M>,
                                cut: seq<byte>)
    requires InversePair(c) && WellFormed(nodes, enums)
    requires Typed(c, nodes, enums, d0) && Typed(c, nodes, enums, d) && Marshals(c, nodes, d)
    ensures var w := Serialize(c, SerializerCode(nodes), d);
            w.Ok? && (cut < w.value.1 ==> Deserialize(c, DeserializerCode(nodes, enums), d0, cut).Err?)
  {
    SerializeCorrect(c, nodes, enums, d);
    var w := Serialize(c, SerializerCode(nodes), d);
    if cut < w.value.1 {
      ShortReadsFail(c, nodes, enums, 0, 0, RState(d0, map[], map[], cut, false), w.value.0);
    }
  }
}
