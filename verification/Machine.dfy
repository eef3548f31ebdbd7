/**
 What the generated statements do: Go's assignment, error-variable and early-return behaviour,
 over a growing output and over an input that runs dry.
 */
module Machine {
  import opened Basics
  import opened Schema
  import opened Compiler

  /** A statement falls through, returns from the method, or panics. */
  datatype Exit<S> = Next(s: S) | Return(s: S) | Crash

  // ----- Serialize -----

  datatype WState<M> = WState(d: Object<M>, bufs: map<nat, seq<byte>>, out: seq<byte>, err: bool)

  /** int32(n) of a length. */
  function Int32Of(n: nat): (r: int)
    ensures -TWO31 <= r < TWO31
    ensures n < TWO31 ==> r == n
  {
    var u := n % TWO32;
    if u < TWO31 then u else u - TWO32
  }

  function ExecW<M>(c: ProtoCodec<M>, stmt: WStmt, s: WState<M>): Exit<WState<M>> {
    match stmt
    case Marshal(buf, f) =>
      if f in s.d && s.d[f].Message? then
        match c.marshal(s.d[f].m) {
          case Some(b) => Next(s.(bufs := s.bufs[buf := b], err := false))
          case None => Next(s.(bufs := s.bufs[buf := []], err := true))
        }
      else Crash
    case SetLength(f, buf) =>
      if buf in s.bufs then Next(s.(d := s.d[f := Num(Int32, Int32Of(|s.bufs[buf]|))])) else Crash
    case WriteBool(f) =>
      if f in s.d && s.d[f].Flag?
      then Next(s.(out := s.out + (if s.d[f].on then [1] else [0]), err := false)) else Crash
    case WriteField(f) =>
      if f !in s.d then Crash else
        match s.d[f] {
          case Num(t, v) => if t.InRange(v) then Next(s.(out := s.out + EncodeNum(t, v), err := false)) else Crash
          case Nums(t, vs) =>
            if forall v | v in vs :: t.InRange(v)
            then Next(s.(out := s.out + EncodeNums(t, vs), err := false)) else Crash
          case _ => Crash
        }
    case WriteMasked(f) =>
      if f in s.d && s.d[f].Num? && -TWO31 <= s.d[f].v < TWO32
      then Next(s.(out := s.out + LE(SetMask(Uint32Of(s.d[f].v)), 4), err := false)) else Crash
    case WriteBuf(buf) =>
      if buf in s.bufs then Next(s.(out := s.out + s.bufs[buf], err := false)) else Crash
    case WCheck => if s.err then Return(s) else Next(s)
  }

  function RunW<M>(c: ProtoCodec<M>, code: seq<WStmt>, s: WState<M>): Exit<WState<M>> {
    if code == [] then Next(s)
    else match ExecW(c, code[0], s)
      case Next(s') => RunW(c, code[1..], s')
      case e => e
  }

  lemma {:induction false} RunWAppend<M>(c: ProtoCodec<M>, p: seq<WStmt>, q: seq<WStmt>, s: WState<M>)
    ensures RunW(c, p + q, s) == match RunW(c, p, s) case Next(s') => RunW(c, q, s') case e => e
  {
    if p == [] {
      assert p + q == q;
    } else {
      assert (p + q)[0] == p[0] && (p + q)[1..] == p[1..] + q;
      match ExecW(c, p[0], s) {
        case Next(s') => RunWAppend(c, p[1..], q, s');
        case _ =>
      }
    }
  }

  lemma {:induction false} StepW<M>(c: ProtoCodec<M>, stmt: WStmt, rest: seq<WStmt>, s: WState<M>)
    ensures RunW(c, [stmt] + rest, s) == match ExecW(c, stmt, s) case Next(s') => RunW(c, rest, s') case e => e
  {
    assert ([stmt] + rest)[1..] == rest;
  }

  /** Serialize: the struct as it is left behind and the bytes written, or the error returned. */
  function Serialize<M>(c: ProtoCodec<M>, code: seq<WStmt>, d: Object<M>): Outcome<(Object<M>, seq<byte>)> {
    match RunW(c, code, WState(d, map[], [], false))
    case Crash => Panic
    case Next(s) => if s.err then Err else Ok((s.d, s.out))
    case Return(s) => if s.err then Err else Ok((s.d, s.out))
  }

  // ----- Deserialize -----

  datatype RState<M> = RState(d: Object<M>, bufs: map<nat, seq<byte>>, temps: map<nat, int>, input: seq<byte>,
                              err: bool)
  {
    /** io.ReadFull of n bytes: a short read consumes what is left and sets the error. */
    function Take(n: nat): (seq<byte>, RState<M>) {
      if n <= |input| then (input[..n], this.(input := input[n..], err := false))
      else ([], this.(input := [], err := true))
    }

    /** rwu.ReadT: the number read, zero on a short read. */
    function TakeNum(t: GoType): (int, RState<M>) {
      var (b, s) := Take(t.Width());
      (if |b| == t.Width() then DecodeNum(t, b) else 0, s)
    }
  }

  function ExecR<M>(c: ProtoCodec<M>, stmt: RStmt, s: RState<M>): Exit<RState<M>> {
    match stmt
    case ReadBool(f) =>
      var (v, s') := s.TakeNum(Uint8);
      Next(s'.(d := s'.d[f := Flag(v != 0)]))
    case ReadField(f, t) =>
      var (v, s') := s.TakeNum(t);
      Next(s'.(d := s'.d[f := Num(t, v)]))
    case ReadTemp(k, t) =>
      var (v, s') := s.TakeNum(t);
      Next(s'.(temps := s'.temps[k := v]))
    case AssignTemp(f, k, t) =>
      if k in s.temps then Next(s.(d := s.d[f := Num(t, s.temps[k])])) else Crash
    case AssignMasked(f, k, t) =>
      if k in s.temps && -TWO31 <= s.temps[k] < TWO32
      then Next(s.(d := s.d[f := Num(t, ClearMask(Uint32Of(s.temps[k])))])) else Crash
    case MakeBuf(k, f) =>
      if f in s.d && s.d[f].Num? && s.d[f].v >= 0
      then Next(s.(bufs := s.bufs[k := seq(s.d[f].v, _ => 0)])) else Crash  // a negative length panics
    case ReadBuf(k) =>
      if k !in s.bufs then Crash else
        var (b, s') := s.Take(|s.bufs[k]|);
        Next(s'.(bufs := s'.bufs[k := b]))
    case Unmarshal(k, f) =>
      if k in s.bufs && f in s.d && s.d[f].Message? then
        match c.unmarshal(c.kind(s.d[f].m), s.bufs[k]) {
          case Some(m) => Next(s.(d := s.d[f := Message(m)], err := false))
          case None => Next(s.(err := true))
        }
      else Crash
    case ReadSlice(f) =>
      if f in s.d && s.d[f].Nums? then
        var n := |s.d[f].vs|;
        var (b, s') := s.Take(n * s.d[f].t.Width());
        if s'.err then Next(s') else Next(s'.(d := s'.d[f := Nums(s.d[f].t, DecodeNums(s.d[f].t, n, b))]))
      else Crash
    case RCheck => if s.err then Return(s) else Next(s)
    case DoesNotCompile => Crash
  }

  function RunR<M>(c: ProtoCodec<M>, code: seq<RStmt>, s: RState<M>): Exit<RState<M>> {
    if code == [] then Next(s)
    else match ExecR(c, code[0], s)
      case Next(s') => RunR(c, code[1..], s')
      case e => e
  }

  lemma {:induction false} RunRAppend<M>(c: ProtoCodec<M>, p: seq<RStmt>, q: seq<RStmt>, s: RState<M>)
    ensures RunR(c, p + q, s) == match RunR(c, p, s) case Next(s') => RunR(c, q, s') case e => e
  {
    if p == [] {
      assert p + q == q;
    } else {
      assert (p + q)[0] == p[0] && (p + q)[1..] == p[1..] + q;
      match ExecR(c, p[0], s) {
        case Next(s') => RunRAppend(c, p[1..], q, s');
        case _ =>
      }
    }
  }

  lemma {:induction false} StepR<M>(c: ProtoCodec<M>, stmt: RStmt, rest: seq<RStmt>, s: RState<M>)
    ensures RunR(c, [stmt] + rest, s) == match ExecR(c, stmt, s) case Next(s') => RunR(c, rest, s') case e => e
  {
    assert ([stmt] + rest)[1..] == rest;
  }

  function Then<S>(e: Exit<S>, f: S -> Exit<S>): Exit<S> {
    match e
    case Next(s) => f(s)
    case _ => e
  }

  lemma Run1<M>(c: ProtoCodec<M>, x: RStmt, s: RState<M>)
    ensures RunR(c, [x], s) == ExecR(c, x, s)
  {
    StepR(c, x, [], s);
    assert [x] + [] == [x];
  }

  lemma Run2<M>(c: ProtoCodec<M>, x: RStmt, y: RStmt, s: RState<M>)
    ensures RunR(c, [x, y], s) == Then(ExecR(c, x, s), s1 => ExecR(c, y, s1))
  {
    StepR(c, x, [y], s);
    assert [x] + [y] == [x, y];
    match ExecR(c, x, s) {
      case Next(s1) => Run1(c, y, s1);
      case _ =>
    }
  }

  lemma Run3<M>(c: ProtoCodec<M>, x: RStmt, y: RStmt, z: RStmt, s: RState<M>)
    ensures RunR(c, [x, y, z], s) == Then(ExecR(c, x, s), s1 => Then(ExecR(c, y, s1), s2 => ExecR(c, z, s2)))
  {
    StepR(c, x, [y, z], s);
    assert [x] + [y, z] == [x, y, z];
    match ExecR(c, x, s) {
      case Next(s1) => Run2(c, y, z, s1);
      case _ =>
    }
  }

  /** How a Deserialize ends: the struct, the input left over and the error it returns. */
  function Finish<M>(e: Exit<RState<M>>): Outcome<(Object<M>, seq<byte>, bool)> {
    match e
    case Crash => Panic
    case Next(s) => Ok((s.d, s.input, s.err))
    case Return(s) => Ok((s.d, s.input, s.err))
  }

  function DeserializeInto<M>(c: ProtoCodec<M>, code: seq<RStmt>, d: Object<M>, input: seq<byte>)
    : Outcome<(Object<M>, seq<byte>, bool)>
  {
    Finish(RunR(c, code, RState(d, map[], map[], input, false)))
  }

  /** Deserialize into d: the struct filled in and the input left over, or the error returned. */
  function Deserialize<M>(c: ProtoCodec<M>, code: seq<RStmt>, d: Object<M>, input: seq<byte>)
    : Outcome<(Object<M>, seq<byte>)>
  {
    match DeserializeInto(c, code, d, input)
    case Ok((d', rest, err)) => if err then Err else Ok((d', rest))
    case _ => Panic
  }
}
