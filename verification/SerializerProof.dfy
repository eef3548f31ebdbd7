/** The emitted Serialize writes the reference encoding. */
module SerializerProof {
  import opened Basics
  import opened Schema
  import opened Compiler
  import opened Machine

  /** A field that is read as the length of some protobuf field is a plain int. */
  lemma LengthNames(nodes: Class, enums: Enums, p: nat, i: nat)
    requires WellFormed(nodes, enums) && p < |nodes| && nodes[p].flags.Proto?
    requires i < |nodes| && !nodes[i].flags.Const?
    ensures nodes[p].opt.LengthField?
    ensures nodes[i].name == nodes[p].opt.name ==> IsLengthFor(nodes[i], nodes[i].name)
  {
    assert HasLength(nodes, p);
    var j :| 0 <= j < p && IsLengthFor(nodes[j], nodes[p].opt.name);
    if nodes[i].name == nodes[p].opt.name {
      assert i == j;
    }
  }

  ghost function LengthOf<M>(c: ProtoCodec<M>, node: PropNode, d: Object<M>): Value<M>
    requires node.flags.Proto? && MarshalsField(c, node, d)
  {
    Num(Int32, |c.marshal(d[node.name].m).value|)
  }

  ghost predicate SameMessages<M>(nodes: Class, d: Object<M>, d': Object<M>) {
    forall i | 0 <= i < |nodes| && nodes[i].flags.Proto? ::
      nodes[i].name in d && nodes[i].name in d' && d'[nodes[i].name] == d[nodes[i].name]
  }

  /** Setting one length field keeps the struct typed and its messages as they were. */
  lemma SetLengthKeeps<M>(c: ProtoCodec<M>, nodes: Class, enums: Enums, d: Object<M>, p: nat)
    requires WellFormed(nodes, enums) && Typed(c, nodes, enums, d) && Marshals(c, nodes, d)
    requires p < |nodes| && nodes[p].flags.Proto? && MarshalsField(c, nodes[p], d)
    ensures nodes[p].opt.LengthField? && nodes[p].opt.name in d
    ensures var d' := d[nodes[p].opt.name := LengthOf(c, nodes[p], d)];
            Typed(c, nodes, enums, d') && Marshals(c, nodes, d') && SameMessages(nodes, d, d')
  {
    assert HasLength(nodes, p);
    var x := nodes[p].opt.name;
    var j :| 0 <= j < p && IsLengthFor(nodes[j], x);
    assert FieldOk(c, nodes[j], enums, d);
    var d' := d[x := LengthOf(c, nodes[p], d)];
    Pow256Values();
    forall i | 0 <= i < |nodes|
      ensures FieldOk(c, nodes[i], enums, d') && MarshalsField(c, nodes[i], d')
      ensures nodes[i].flags.Proto? ==>
                nodes[i].name in d && nodes[i].name in d' && d'[nodes[i].name] == d[nodes[i].name]
    {
      assert FieldOk(c, nodes[i], enums, d) && MarshalsField(c, nodes[i], d);
      if !nodes[i].flags.Const? {
        LengthNames(nodes, enums, p, i);
      }
    }
  }

  /** The struct with the lengths of the protobuf fields from index i on filled in. */
  ghost function WithLengths<M>(c: ProtoCodec<M>, nodes: Class, enums: Enums, i: nat, d: Object<M>): (r: Object<M>)
    requires WellFormed(nodes, enums) && Typed(c, nodes, enums, d) && Marshals(c, nodes, d) && i <= |nodes|
    ensures Typed(c, nodes, enums, r) && Marshals(c, nodes, r) && SameMessages(nodes, d, r) && r.Keys == d.Keys
    decreases |nodes| - i
  {
    if i == |nodes| then
      (forall j | 0 <= j < |nodes| && nodes[j].flags.Proto? ensures nodes[j].name in d
       { assert MarshalsField(c, nodes[j], d); }
       d)
    else if !nodes[i].flags.Proto? then WithLengths(c, nodes, enums, i + 1, d)
    else
      assert MarshalsField(c, nodes[i], d);
      SetLengthKeeps(c, nodes, enums, d, i);
      WithLengths(c, nodes, enums, i + 1, d[nodes[i].opt.name := LengthOf(c, nodes[i], d)])
  }

  /** The two facts that describe it: what it sets, and that it touches nothing else. */
  lemma {:induction false} WithLengthsIs<M>(c: ProtoCodec<M>, nodes: Class, enums: Enums, i: nat, d: Object<M>,
                                            x: string)
    requires WellFormed(nodes, enums) && Typed(c, nodes, enums, d) && Marshals(c, nodes, d)
    requires i <= |nodes| && x in d
    ensures var r := WithLengths(c, nodes, enums, i, d);
            && (forall p | i <= p < |nodes| && nodes[p].flags.Proto? && nodes[p].opt == LengthField(x) ::
                  MarshalsField(c, nodes[p], d) && r[x] == LengthOf(c, nodes[p], d))
            && ((forall p | i <= p < |nodes| && nodes[p].flags.Proto? :: nodes[p].opt != LengthField(x))
                ==> r[x] == d[x])
    decreases |nodes| - i
  {
    if i < |nodes| {
      if !nodes[i].flags.Proto? {
        WithLengthsIs(c, nodes, enums, i + 1, d, x);
      } else {
        assert MarshalsField(c, nodes[i], d);
        SetLengthKeeps(c, nodes, enums, d, i);
        var d' := d[nodes[i].opt.name := LengthOf(c, nodes[i], d)];
        WithLengthsIs(c, nodes, enums, i + 1, d', x);
        forall p | i <= p < |nodes| && nodes[p].flags.Proto? && nodes[p].opt == LengthField(x)
          ensures MarshalsField(c, nodes[p], d) && WithLengths(c, nodes, enums, i, d)[x] == LengthOf(c, nodes[p], d)
        {
          assert MarshalsField(c, nodes[p], d) && MarshalsField(c, nodes[p], d');
        }
      }
    }
  }

  // ----- the marshalling loop -----

  predicate BufHolds<M>(c: ProtoCodec<M>, nodes: Class, i: nat, d: Object<M>, bufs: map<nat, seq<byte>>)
    requires i < |nodes|
  {
    nodes[i].flags.Proto? ==>
      nodes[i].name in d && d[nodes[i].name].Message?
      && ProtosBefore(nodes, i) in bufs && Some(bufs[ProtosBefore(nodes, i)]) == c.marshal(d[nodes[i].name].m)
  }

  lemma {:induction false} ProtosBeforeIncreases(nodes: Class, i: nat, j: nat)
    requires i < j <= |nodes| && nodes[i].flags.Proto?
    ensures ProtosBefore(nodes, i) < ProtosBefore(nodes, j)
  {
    if i + 1 < j { ProtosBeforeIncreases(nodes, i, j - 1); }
  }

  /** One proto of the loop: marshal, check, set the length, go on. */
  lemma OneMarshal<M>(c: ProtoCodec<M>, nodes: Class, i: nat, k: nat, s: WState<M>)
    requires i < |nodes| && nodes[i].flags.Proto? && nodes[i].opt.LengthField?
    requires nodes[i].name in s.d && s.d[nodes[i].name].Message? && !s.err
    ensures RunW(c, Prologue(nodes, i, k), s) ==
            match c.marshal(s.d[nodes[i].name].m)
            case None => Return(s.(bufs := s.bufs[k := []], err := true))
            case Some(b) =>
              RunW(c, Prologue(nodes, i + 1, k + 1),
                   s.(bufs := s.bufs[k := b], d := s.d[nodes[i].opt.name := Num(Int32, Int32Of(|b|))]))
  {
    var m, w, l := Marshal(k, nodes[i].name), WCheck, SetLength(nodes[i].opt.name, k);
    var rest := Prologue(nodes, i + 1, k + 1);
    assert Prologue(nodes, i, k) == [m] + ([w] + ([l] + rest));
    StepW(c, m, [w] + ([l] + rest), s);
    match c.marshal(s.d[nodes[i].name].m) {
      case None => StepW(c, w, [l] + rest, s.(bufs := s.bufs[k := []], err := true));
      case Some(b) =>
        var s1 := s.(bufs := s.bufs[k := b]);
        StepW(c, w, [l] + rest, s1);
        StepW(c, l, rest, s1);
    }
  }

  /** The loop fills one buffer a proto and sets the lengths from index i on. */
  lemma {:induction false} PrologueRuns<M>(c: ProtoCodec<M>, nodes: Class, enums: Enums, i: nat, s: WState<M>)
    returns (t: WState<M>)
    requires WellFormed(nodes, enums) && Typed(c, nodes, enums, s.d) && Marshals(c, nodes, s.d)
    requires i <= |nodes| && !s.err
    requires forall j | 0 <= j < i :: BufHolds(c, nodes, j, s.d, s.bufs)
    ensures RunW(c, Prologue(nodes, i, ProtosBefore(nodes, i)), s) == Next(t)
    ensures !t.err && t.out == s.out && t.d == WithLengths(c, nodes, enums, i, s.d)
    ensures forall j | 0 <= j < |nodes| :: BufHolds(c, nodes, j, t.d, t.bufs)
    decreases |nodes| - i
  {
    if i == |nodes| {
      t := s;
    } else if !nodes[i].flags.Proto? {
      assert BufHolds(c, nodes, i, s.d, s.bufs);
      t := PrologueRuns(c, nodes, enums, i + 1, s);
    } else {
      var s' := NextMarshal(c, nodes, enums, i, s);
      t := PrologueRuns(c, nodes, enums, i + 1, s');
    }
  }

  /** What one proto of the loop leaves to the next. */
  lemma NextMarshal<M>(c: ProtoCodec<M>, nodes: Class, enums: Enums, i: nat, s: WState<M>) returns (s': WState<M>)
    requires WellFormed(nodes, enums) && Typed(c, nodes, enums, s.d) && Marshals(c, nodes, s.d)
    requires i < |nodes| && !s.err && nodes[i].flags.Proto?
    requires forall j | 0 <= j < i :: BufHolds(c, nodes, j, s.d, s.bufs)
    ensures RunW(c, Prologue(nodes, i, ProtosBefore(nodes, i)), s)
            == RunW(c, Prologue(nodes, i + 1, ProtosBefore(nodes, i + 1)), s')
    ensures !s'.err && s'.out == s.out && Typed(c, nodes, enums, s'.d) && Marshals(c, nodes, s'.d)
    ensures WithLengths(c, nodes, enums, i, s.d) == WithLengths(c, nodes, enums, i + 1, s'.d)
    ensures forall j | 0 <= j < i + 1 :: BufHolds(c, nodes, j, s'.d, s'.bufs)
  {
    assert MarshalsField(c, nodes[i], s.d);
    SetLengthKeeps(c, nodes, enums, s.d, i);
    OneMarshal(c, nodes, i, ProtosBefore(nodes, i), s);
    var b := c.marshal(s.d[nodes[i].name].m).value;
    s' := s.(bufs := s.bufs[ProtosBefore(nodes, i) := b], d := s.d[nodes[i].opt.name := Num(Int32, |b|)]);
    forall j | 0 <= j < i + 1 ensures BufHolds(c, nodes, j, s'.d, s'.bufs) {
      if j < i && nodes[j].flags.Proto? {
        assert BufHolds(c, nodes, j, s.d, s.bufs);
        ProtosBeforeIncreases(nodes, j, i);
      }
    }
  }

  predicate IsMessage<M>(node: PropNode, d: Object<M>) {
    node.flags.Proto? ==> node.name in d && d[node.name].Message?
  }

  predicate Unmarshallable<M>(c: ProtoCodec<M>, node: PropNode, d: Object<M>)
  {
    node.flags.Proto? && IsMessage(node, d) && c.marshal(d[node.name].m).None?
  }

  /** When some message does not marshal, the error comes back before a byte is written. */
  lemma {:induction false} PrologueFails<M>(c: ProtoCodec<M>, nodes: Class, enums: Enums, i: nat, k: nat,
                                            s: WState<M>, bad: nat)
    requires WellFormed(nodes, enums) && i <= bad < |nodes| && !s.err
    requires forall j | 0 <= j < |nodes| :: IsMessage(nodes[j], s.d)
    requires Unmarshallable(c, nodes[bad], s.d)
    ensures var r := RunW(c, Prologue(nodes, i, k), s); r.Return? && r.s.err && r.s.out == s.out
    decreases |nodes| - i
  {
    if !nodes[i].flags.Proto? {
      PrologueFails(c, nodes, enums, i + 1, k, s, bad);
    } else {
      assert IsMessage(nodes[i], s.d);
      LengthNames(nodes, enums, i, i);
      OneMarshal(c, nodes, i, k, s);
      match c.marshal(s.d[nodes[i].name].m) {
        case None =>
        case Some(b) =>
          var s' := s.(bufs := s.bufs[k := b], d := s.d[nodes[i].opt.name := Num(Int32, Int32Of(|b|))]);
          forall j | 0 <= j < |nodes|
            ensures IsMessage(nodes[j], s'.d)
            ensures nodes[j].flags.Proto? ==> nodes[j].name in s.d && s'.d[nodes[j].name] == s.d[nodes[j].name]
          {
            assert IsMessage(nodes[j], s.d);
            if nodes[j].flags.Proto? { LengthNames(nodes, enums, i, j); }
          }
          PrologueFails(c, nodes, enums, i + 1, k + 1, s', bad);
      }
    }
  }

  // ----- the writing loop -----

  /** One turn of the loop: the i-th field is appended and what is left is the writing of the rest. */
  lemma OneWrite<M>(c: ProtoCodec<M>, nodes: Class, i: nat, s: WState<M>)
    requires i < |nodes| && !s.err && BufHolds(c, nodes, i, s.d, s.bufs)
    requires nodes[i].flags.Const? || EncodableField(c, nodes[i], s.d)
    ensures RunW(c, Writes(nodes, i), s) ==
            RunW(c, Writes(nodes, i + 1), s.(out := s.out + FieldBytes(c, nodes[i], s.d)))
  {
    var rest := Writes(nodes, i + 1);
    if nodes[i].flags.Const? {
      assert s.out + [] == s.out;
    } else {
      var w := WriteOf(nodes[i], ProtosBefore(nodes, i));
      var s' := s.(out := s.out + FieldBytes(c, nodes[i], s.d));
      assert ExecW(c, w, s) == Next(s');
      if i + 1 < |nodes| {
        assert Writes(nodes, i) == [w] + ([WCheck] + rest);
        StepW(c, w, [WCheck] + rest, s);
        StepW(c, WCheck, rest, s');
      } else {
        assert Writes(nodes, i) == [w] + rest;
        StepW(c, w, rest, s);
      }
    }
  }

  ghost predicate ReadyToWrite<M>(c: ProtoCodec<M>, nodes: Class, i: nat, d: Object<M>, bufs: map<nat, seq<byte>>)
    requires i < |nodes|
  {
    BufHolds(c, nodes, i, d, bufs) && (nodes[i].flags.Const? || EncodableField(c, nodes[i], d))
  }

  /** The loop appends the fields from index i on. */
  lemma {:induction false} WritesRun<M>(c: ProtoCodec<M>, nodes: Class, i: nat, d: Object<M>, bufs: map<nat, seq<byte>>,
                                        out: seq<byte>)
    requires i <= |nodes| && forall j | 0 <= j < |nodes| :: ReadyToWrite(c, nodes, j, d, bufs)
    ensures RunW(c, Writes(nodes, i), WState(d, bufs, out, false)) ==
            Next(WState(d, bufs, out + EncodeFrom(c, nodes, i, d), false))
    decreases |nodes| - i
  {
    if i == |nodes| {
      assert out + [] == out;
    } else {
      assert ReadyToWrite(c, nodes, i, d, bufs);
      OneWrite(c, nodes, i, WState(d, bufs, out, false));
      WritesRun(c, nodes, i + 1, d, bufs, out + FieldBytes(c, nodes[i], d));
      Reassociate(out, FieldBytes(c, nodes[i], d), EncodeFrom(c, nodes, i + 1, d));
    }
  }

  // ----- the theorem -----

  /** d' is d, except that each length field says how long its protobuf field is. */
  ghost predicate Sent<M>(c: ProtoCodec<M>, nodes: Class, d: Object<M>, d': Object<M>) {
    && d'.Keys == d.Keys && Marshals(c, nodes, d') && LengthsSet(c, nodes, d') && SameMessages(nodes, d, d')
    && forall x | x in d && (forall p | 0 <= p < |nodes| && nodes[p].flags.Proto? :: nodes[p].opt != LengthField(x)) ::
         d'[x] == d[x]
  }

  lemma WithLengthsSent<M>(c: ProtoCodec<M>, nodes: Class, enums: Enums, d: Object<M>)
    requires WellFormed(nodes, enums) && Typed(c, nodes, enums, d) && Marshals(c, nodes, d)
    ensures Sent(c, nodes, d, WithLengths(c, nodes, enums, 0, d))
  {
    var r := WithLengths(c, nodes, enums, 0, d);
    forall p | 0 <= p < |nodes| ensures LengthSet(c, nodes[p], r) {
      assert MarshalsField(c, nodes[p], r) && MarshalsField(c, nodes[p], d);
      if nodes[p].flags.Proto? {
        SetLengthKeeps(c, nodes, enums, d, p);
        WithLengthsIs(c, nodes, enums, 0, d, nodes[p].opt.name);
        assert r[nodes[p].opt.name] == LengthOf(c, nodes[p], d);
      }
    }
    forall x | x in d && (forall p | 0 <= p < |nodes| && nodes[p].flags.Proto? :: nodes[p].opt != LengthField(x))
      ensures r[x] == d[x]
    {
      WithLengthsIs(c, nodes, enums, 0, d, x);
    }
  }

  /**
   For every well-formed class, the generated Serialize of a typed struct writes the reference
   encoding of the struct with its lengths set.
   */
  lemma SerializeCorrect<M>(c: ProtoCodec<M>, nodes: Class, enums: Enums, d: Object<M>)
    requires WellFormed(nodes, enums) && Typed(c, nodes, enums, d) && Marshals(c, nodes, d)
    ensures var r := Serialize(c, SerializerCode(nodes), d);
            r.Ok? && Sent(c, nodes, d, r.value.0) && OnWire(c, nodes, enums, r.value.0)
            && r.value.1 == Encode(c, nodes, r.value.0)
  {
    var s := WState(d, map[], [], false);
    RunWAppend(c, Prologue(nodes, 0, 0), Writes(nodes, 0), s);
    var t := PrologueRuns(c, nodes, enums, 0, s);
    forall j | 0 <= j < |nodes| ensures ReadyToWrite(c, nodes, j, t.d, t.bufs) {
      assert FieldOk(c, nodes[j], enums, t.d) && MarshalsField(c, nodes[j], t.d);
      if !nodes[j].flags.Const? { TypedEncodable(c, nodes[j], enums, t.d); }
    }
    WritesRun(c, nodes, 0, t.d, t.bufs, t.out);
    WithLengthsSent(c, nodes, enums, d);
    assert [] + Encode(c, nodes, t.d) == Encode(c, nodes, t.d);
  }

  /** It returns an error as soon as one of the messages does not marshal. */
  lemma SerializeFails<M>(c: ProtoCodec<M>, nodes: Class, enums: Enums, d: Object<M>, bad: nat)
    requires WellFormed(nodes, enums) && Typed(c, nodes, enums, d)
    requires bad < |nodes| && Unmarshallable(c, nodes[bad], d)
    ensures Serialize(c, SerializerCode(nodes), d).Err?
  {
    forall j | 0 <= j < |nodes| ensures IsMessage(nodes[j], d) {
      assert FieldOk(c, nodes[j], enums, d);
    }
    var s := WState(d, map[], [], false);
    RunWAppend(c, Prologue(nodes, 0, 0), Writes(nodes, 0), s);
    PrologueFails(c, nodes, enums, 0, 0, s, bad);
  }
}
