/** The demultiplexer and the Multi body reader, as dispatching uses them. */
module ClientEnv {
  import opened Basics
  import opened Schema
  import opened Compiler
  import opened Machine
  import opened Headers
  import opened Packets
  import opened Dispatch

  /** What a run of statements leaves of the input is the end of the input. */
  lemma {:induction false} InputShrinks<M>(c: ProtoCodec<M>, code: seq<RStmt>, s: RState<M>)
    ensures var r := RunR(c, code, s); !r.Crash? ==> exists i | 0 <= i <= |s.input| :: r.s.input == s.input[i..]
  {
    if code == [] {
      assert s.input == s.input[0..];
    } else {
      var e := ExecR(c, code[0], s);
      match e {
        case Next(s') =>
          var i := OneInput(c, code[0], s);
          InputShrinks(c, code[1..], s');
          var r := RunR(c, code[1..], s');
          if !r.Crash? {
            var j :| 0 <= j <= |s'.input| && r.s.input == s'.input[j..];
            assert s.input[i..][j..] == s.input[i + j..];
          }
        case Return(s') =>
          assert s.input == s.input[0..];
        case Crash =>
      }
    }
  }

  lemma OneInput<M>(c: ProtoCodec<M>, x: RStmt, s: RState<M>) returns (i: nat)
    requires ExecR(c, x, s).Next?
    ensures i <= |s.input| && ExecR(c, x, s).s.input == s.input[i..]
  {
    if x.ReadBool? {
      i := BoolInput(c, x, s);
    } else if x.ReadField? || x.ReadTemp? {
      i := NumberInput(c, x, s);
    } else if x.ReadBuf? || x.ReadSlice? {
      i := BytesInput(c, x, s);
    } else {
      i := 0;
      NoInput(c, x, s);
    }
  }

  lemma BoolInput<M>(c: ProtoCodec<M>, x: RStmt, s: RState<M>) returns (i: nat)
    requires ExecR(c, x, s).Next? && x.ReadBool?
    ensures i <= |s.input| && ExecR(c, x, s).s.input == s.input[i..]
  {
    i := |s.input| - |ExecR(c, x, s).s.input|;
    TakeSuffix(s, 1);
  }

  lemma NumberInput<M>(c: ProtoCodec<M>, x: RStmt, s: RState<M>) returns (i: nat)
    requires ExecR(c, x, s).Next? && (x.ReadField? || x.ReadTemp?)
    ensures i <= |s.input| && ExecR(c, x, s).s.input == s.input[i..]
  {
    i := |s.input| - |ExecR(c, x, s).s.input|;
    TakeSuffix(s, x.t.Width());
  }

  lemma BytesInput<M>(c: ProtoCodec<M>, x: RStmt, s: RState<M>) returns (i: nat)
    requires ExecR(c, x, s).Next? && (x.ReadBuf? || x.ReadSlice?)
    ensures i <= |s.input| && ExecR(c, x, s).s.input == s.input[i..]
  {
    i := |s.input| - |ExecR(c, x, s).s.input|;
    if x.ReadBuf? {
      TakeSuffix(s, |s.bufs[x.temp]|);
    } else {
      TakeSuffix(s, |s.d[x.field].vs| * s.d[x.field].t.Width());
    }
  }

  lemma NoInput<M>(c: ProtoCodec<M>, x: RStmt, s: RState<M>)
    requires !x.ReadBool? && !x.ReadField? && !x.ReadTemp? && !x.ReadBuf? && !x.ReadSlice?
    ensures ExecR(c, x, s).Next? ==> ExecR(c, x, s).s.input == s.input
  {}

  lemma TakeSuffix<M>(s: RState<M>, n: nat)
    ensures var rest := s.Take(n).1.input; |rest| <= |s.input| && rest == s.input[|s.input| - |rest|..]
  {}

  /** handleMulti's payload: the message body of the packet, before any decompression; None if reading panics. */
  function BodyOf<M>(w: Proto<M>, multi: seq<byte> -> MultiBody, data: seq<byte>): Option<MultiBody> {
    match DeserializeInto(w.c, DeserializerCode(MsgHdrProtoBuf, ENUMS), ProtoHdrOf(Int32, 0, 0, w.blank), data)
    case Ok((_, rest, _)) => Some(multi(rest))
    case _ => None
  }

  lemma BodyIsSlice<M>(w: Proto<M>, multi: seq<byte> -> MultiBody, data: seq<byte>)
    requires forall b: seq<byte> :: IsSlice(multi(b).body, b)
    ensures var b := BodyOf(w, multi, data); b.Some? ==> IsSlice(b.value.body, data)
  {
    var code, d := DeserializerCode(MsgHdrProtoBuf, ENUMS), ProtoHdrOf(Int32, 0, 0, w.blank);
    var s := RState(d, map[], map[], data, false);
    InputShrinks(w.c, code, s);
    var r := RunR(w.c, code, s);
    if !r.Crash? {
      var i :| 0 <= i <= |data| && r.s.input == data[i..];
      SliceOfSuffix(multi(data[i..]).body, data, i);
    }
  }

  lemma SliceOfSuffix(a: seq<byte>, b: seq<byte>, i: nat)
    requires i <= |b| && IsSlice(a, b[i..])
    ensures IsSlice(a, b)
  {
    var j, k :| 0 <= j <= k <= |b[i..]| && a == b[i..][j..k];
    assert b[i..][j..k] == b[i + j..i + k];
  }

  lemma PacketKeepsData<M>(w: Proto<M>, data: seq<byte>)
    ensures NewPacket(w, data).Ok? ==> NewPacket(w, data).value.data == data && |data| > 0
  {}

  /** Dispatching with the real demultiplexer; multi stands for proto.Unmarshal into a CMsgMulti and its getters. */
  function ClientEnv<M>(w: Proto<M>, multi: seq<byte> -> MultiBody, gunzip: seq<byte> -> Option<seq<byte>>,
                        handlers: nat)
    : Env
  {
    Env(data => NewPacket(w, data), data => BodyOf(w, multi, data), gunzip, handlers)
  }

  /**
   What the termination of dispatching rests on holds of the real demultiplexer, given that a bytes
   field read from a protobuf message is a stretch of the message's own bytes.
   */
  lemma ClientEnvSound<M>(w: Proto<M>, multi: seq<byte> -> MultiBody, gunzip: seq<byte> -> Option<seq<byte>>,
                          handlers: nat)
    requires forall b: seq<byte> :: IsSlice(multi(b).body, b)
    ensures Sound(ClientEnv(w, multi, gunzip, handlers))
  {
    var env := ClientEnv(w, multi, gunzip, handlers);
    forall b: seq<byte> ensures env.parse(b).Ok? ==> env.parse(b).value.data == b && |b| > 0 {
      PacketKeepsData(w, b);
    }
    forall b: seq<byte> ensures env.body(b).Some? ==> IsSlice(env.body(b).value.body, b) {
      BodyIsSlice(w, multi, b);
    }
  }

  /**
   With the real demultiplexer: dispatching any packet comes to its end if and only if a tree describes what
   it holds, compressed or not, and then in post-order of the tree.
   */
  lemma ClientDispatchesInPostOrder<M>(w: Proto<M>, multi: seq<byte> -> MultiBody,
                                       gunzip: seq<byte> -> Option<seq<byte>>, handlers: nat, gz: nat, p: Packet)
    requires forall b: seq<byte> :: IsSlice(multi(b).body, b)
    ensures var env := ClientEnv(w, multi, gunzip, handlers);
            && Sound(env)
            && (PacketRun(env, gz, p).status.Alive? <==> exists t :: IsTreeOf(env, p, t) && Depth(t) <= gz)
            && (forall t | IsTreeOf(env, p, t) && Depth(t) <= gz
              :: PacketRun(env, gz, p).trace == PostOrder(t, handlers))
  {
    ClientEnvSound(w, multi, gunzip, handlers);
    PostOrderIff(ClientEnv(w, multi, gunzip, handlers), gz, p);
  }

  /** Length-prefixed packets in a Multi, compressed or not: each one's handlers in order, then the Multi's. */
  lemma MultiOfPackets<M>(w: Proto<M>, multi: seq<byte> -> MultiBody, gunzip: seq<byte> -> Option<seq<byte>>,
                          handlers: nat, gz: nat, p: Packet, ps: seq<Packet>, b: MultiBody)
    requires (forall b: seq<byte> :: IsSlice(multi(b).body, b)) && p.emsg == 1 && BodyOf(w, multi, p.data) == Some(b)
    requires forall q | q in ps :: |q.data| < TWO32 && NewPacket(w, q.data) == Ok(q) && q.emsg != 1
    ensures (forall d | d in Datas(Leaves(ps)) :: |d| < TWO32) && Sound(ClientEnv(w, multi, gunzip, handlers))
    ensures !b.zipped && b.body == Packed(Datas(Leaves(ps))) ==>
              PacketRun(ClientEnv(w, multi, gunzip, handlers), gz, p)
              == Run(PostOrder(Tree(p, Open, Leaves(ps)), handlers), Alive)
    ensures b.zipped && gz > 0 && gunzip(b.body) == Some(Packed(Datas(Leaves(ps)))) ==>
              PacketRun(ClientEnv(w, multi, gunzip, handlers), gz, p)
              == Run(PostOrder(Tree(p, Zipped, Leaves(ps)), handlers), Alive)
  {
    ClientEnvSound(w, multi, gunzip, handlers);
    var env := ClientEnv(w, multi, gunzip, handlers);
    forall q | q in ps ensures IsLeaf(env, q) {}
    PackedMulti(env, gz, p, ps, b);
  }
}
