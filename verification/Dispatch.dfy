/** Client.handlePacket and handleMulti: nested packets, error recovery and handler order. */
module Dispatch {
  import opened Basics
  import opened Headers
  import opened Packets

  // ----- what one Multi body holds -----

  datatype MultiBody = MultiBody(body: seq<byte>, zipped: bool)

  /**
   What dispatching depends on: NewPacket, the message body handleMulti finds in a packet's bytes (None
   where looking panics), the decompressor and the number of registered handlers.
   */
  datatype Env = Env(
    parse: seq<byte> -> Outcome<Packet>,
    body: seq<byte> -> Option<MultiBody>,
    gunzip: seq<byte> -> Option<seq<byte>>,
    handlers: nat)

  ghost predicate IsSlice(a: seq<byte>, b: seq<byte>) {
    exists i, j | 0 <= i <= j <= |b| :: a == b[i..j]
  }

  /** Packets keep the bytes they came from, and a body is a stretch of its packet's bytes. */
  ghost predicate Sound(env: Env) {
    && (forall b :: env.parse(b).Ok? ==> env.parse(b).value.data == b && |b| > 0)
    && (forall b :: env.body(b).Some? ==> IsSlice(env.body(b).value.body, b))
  }

  function Zeros(n: nat): seq<byte> { seq(n, _ => 0) }

  /** One turn of the unpacking loop: the sub-packet's buffer, zero where the input ran out, and what is left. */
  function NextItem(payload: seq<byte>): (r: (seq<byte>, seq<byte>))
    requires payload != []
    ensures |r.1| < |payload| && (|r.1| > 0 ==> |r.1| + 4 <= |payload|)
  {
    if |payload| < 4 then ([], []) else
      var n := UnLE(payload[..4]);
      var got := if n <= |payload| - 4 then n else |payload| - 4;
      (payload[4..4 + got] + Zeros(n - got), payload[4 + got..])
  }

  /** All the sub-packet buffers of a payload, in order. */
  function Items(payload: seq<byte>): (items: seq<seq<byte>>)
    ensures |items| <= (|payload| + 3) / 4  // the loop runs at most once for every four bytes begun
    decreases |payload|
  {
    if payload == [] then [] else
      var (item, rest) := NextItem(payload);
      [item] + Items(rest)
  }

  /** A well-formed payload: every buffer behind its length. */
  function Packed(items: seq<seq<byte>>): seq<byte>
    requires forall d | d in items :: |d| < TWO32
  {
    if items == [] then [] else LE(|items[0]|, 4) + items[0] + Packed(items[1..])
  }

  lemma {:induction false} ItemsOfPacked(items: seq<seq<byte>>)
    requires forall d | d in items :: |d| < TWO32
    ensures Items(Packed(items)) == items
  {
    if items != [] {
      Pow256Values();
      var p, rest := Packed(items), Packed(items[1..]);
      UnLELE(|items[0]|, 4);
      assert p[..4] == LE(|items[0]|, 4) && p[4..] == items[0] + rest;
      assert p[4..][..|items[0]|] + Zeros(0) == items[0];
      assert p[4..4 + |items[0]|] == p[4..][..|items[0]|] && p[4 + |items[0]|..] == p[4..][|items[0]|..];
      assert NextItem(p) == (items[0], rest);
      ItemsOfPacked(items[1..]);
    }
  }

  /**
   What one turn makes of a payload of four bytes or more: a buffer as long as the first four announce, filled
   from what follows them and with zeros from there on, and all behind the bytes it took.
   */
  lemma ItemBytes(payload: seq<byte>)
    requires |payload| >= 4
    ensures var (item, rest) := NextItem(payload);
            && |item| == UnLE(payload[..4])
            && (forall k | 0 <= k < |item| :: item[k] == if 4 + k < |payload| then payload[4 + k] else 0)
            && rest == if 4 + |item| <= |payload| then payload[4 + |item|..] else []
  {}

  // ----- why it terminates -----

  /** The length without trailing zeros. */
  function Sig(b: seq<byte>): (n: nat)
    ensures n <= |b| && (forall k | n <= k < |b| :: b[k] == 0) && (n > 0 ==> b[n - 1] != 0)
  {
    if b == [] then 0 else if b[|b| - 1] != 0 then |b| else Sig(b[..|b| - 1])
  }

  lemma SliceSig(a: seq<byte>, b: seq<byte>, i: nat, j: nat, n: nat)
    requires i <= j <= |b| && a == b[i..j] + Zeros(n)
    ensures Sig(a) == 0 || Sig(a) + i <= Sig(b)
  {
    if Sig(a) > 0 {
      assert a[Sig(a) - 1] == b[i + Sig(a) - 1];
    }
  }

  lemma SliceSig0(a: seq<byte>, b: seq<byte>)
    requires IsSlice(a, b)
    ensures Sig(a) <= Sig(b)
  {
    var i, j :| 0 <= i <= j <= |b| && a == b[i..j];
    assert a == b[i..j] + Zeros(0);
    SliceSig(a, b, i, j, 0);
  }

  lemma {:induction false} UnLEZeros(b: seq<byte>)
    requires forall k | 0 <= k < |b| :: b[k] == 0
    ensures UnLE(b) == 0
  {
    if b != [] { UnLEZeros(b[1..]); }
  }

  /**
   A sub-packet that is long enough to have a type carries fewer significant bytes than the payload it
   was cut from, although its buffer may be longer than the payload.
   */
  lemma ItemShrinks(payload: seq<byte>)
    requires payload != []
    ensures var (item, rest) := NextItem(payload);
            Sig(rest) <= Sig(payload) && (|item| > 0 ==> Sig(item) < Sig(payload))
  {
    if |payload| >= 4 {
      var n := UnLE(payload[..4]);
      var got := if n <= |payload| - 4 then n else |payload| - 4;
      SliceSig(NextItem(payload).0, payload, 4, 4 + got, n - got);
      assert payload[4 + got..] == payload[4 + got..|payload|];
      SliceSig0(payload[4 + got..], payload);
      if Sig(payload) == 0 {
        UnLEZeros(payload[..4]);
      }
    }
  }

  /** Four bytes announce a buffer of any 32-bit length: sub-packets are not always shorter than their payload. */
  lemma BufferMayGrow(n: nat)
    requires n < TWO32
    ensures NextItem(LE(n, 4)) == (Zeros(n), [])
  {
    Pow256Values();
    UnLELE(n, 4);
    assert LE(n, 4)[..4] == LE(n, 4);
    assert LE(n, 4)[4..4] + Zeros(n) == Zeros(n);
  }

  /** They are shorter exactly if the announced length is; with fewer than four bytes left, none is announced. */
  lemma ShorterIff(payload: seq<byte>)
    requires payload != []
    ensures |NextItem(payload).0| < |payload| <==> |payload| < 4 || UnLE(payload[..4]) < |payload|
  {
    if |payload| >= 4 {
      var n := UnLE(payload[..4]);
      var got := if n <= |payload| - 4 then n else |payload| - 4;
      assert |NextItem(payload).0| == |payload[4..4 + got]| + |Zeros(n - got)|;
    }
  }

  // ----- dispatching -----

  datatype Event =
    | OwnHandler(p: Packet)          // the client's own handler for the packet's type
    | Handled(handler: nat, p: Packet)
    | BadPacket(data: seq<byte>)  // "Error reading packet in Multi msg"
    | BadZip(p: Packet)           // "Error while decompressing"

  /** How a run ends: in order, in a panic, or with a compressed Multi nested deeper than gz. */
  datatype Status = Alive | Crashed | TooDeep

  datatype Run = Run(trace: seq<Event>, status: Status)
  {
    function Then(next: Run): Run {
      if status.Alive? then Run(trace + next.trace, next.status) else this
    }
  }

  predicate HasOwnHandler(emsg: int) { IsChannelEncrypt(emsg) || emsg == EMSG_CLIENT_CM_LIST }

  const EMSG_CLIENT_CM_LIST := 783

  /** The registered handlers, in the order of their registration. */
  function CallHandlers(p: Packet, i: nat, n: nat): seq<Event>
    requires i <= n
    decreases n - i
  {
    if i == n then [] else [Handled(i, p)] + CallHandlers(p, i + 1, n)
  }

  /** One event for each of the n handlers, the first registered first. */
  predicate EachOnce(events: seq<Event>, p: Packet, n: nat) {
    |events| == n && forall k | 0 <= k < n :: events[k] == Handled(k, p)
  }

  lemma {:induction false} CallsInOrder(p: Packet, i: nat, n: nat)
    requires i <= n
    ensures var calls := CallHandlers(p, i, n);
            |calls| == n - i && forall k | 0 <= k < n - i :: calls[k] == Handled(i + k, p)
    decreases n - i
  {
    if i < n {
      CallsInOrder(p, i + 1, n);
      forall k | 0 <= k < n - i ensures CallHandlers(p, i, n)[k] == Handled(i + k, p) {
        assert k > 0 ==> CallHandlers(p, i, n)[k] == CallHandlers(p, i + 1, n)[k - 1];
      }
    }
  }

  /** handlePacket; gz bounds how deep compressed Multis may nest. */
  ghost function PacketRun(env: Env, gz: nat, p: Packet): Run
    requires Sound(env)
    decreases gz, 1, Sig(p.data), 2, 0
  {
    var own := Run(CallHandlers(p, 0, env.handlers), Alive);
    if p.emsg == EMSG_MULTI then MultiRun(env, gz, p).Then(own)
    else if HasOwnHandler(p.emsg) then Run([OwnHandler(p)], Alive).Then(own)
    else own
  }

  ghost function MultiRun(env: Env, gz: nat, p: Packet): Run
    requires Sound(env)
    decreases gz, 1, Sig(p.data), 1, 0
  {
    match env.body(p.data)
    case None => Run([], Crashed)
    case Some(b) =>
      SliceSig0(b.body, p.data);
      if b.zipped then UnzippedRun(env, gz, p, b.body) else UnpackRun(env, gz, b.body)
  }

  ghost function UnzippedRun(env: Env, gz: nat, p: Packet, zipped: seq<byte>): Run
    requires Sound(env)
    decreases gz, 0
  {
    match env.gunzip(zipped)
    case None => Run([BadZip(p)], Alive)
    case Some(payload) => if gz == 0 then Run([], TooDeep) else UnpackRun(env, gz - 1, payload)
  }

  ghost function UnpackRun(env: Env, gz: nat, payload: seq<byte>): Run
    requires Sound(env)
    decreases gz, 1, Sig(payload), 0, |payload|
  {
    if payload == [] then Run([], Alive) else
      var (item, rest) := NextItem(payload);
      ItemShrinks(payload);
      (match env.parse(item)
       case Panic => Run([], Crashed)
       case Err => Run([BadPacket(item)], Alive).Then(UnpackRun(env, gz, rest))
       case Ok(p) => PacketRun(env, gz, p).Then(UnpackRun(env, gz, rest)))
  }

  /** Behind what was there before, the trace ends in the calls of all handlers for p, in order of registration. */
  predicate EndsInCalls(before: seq<Event>, trace: seq<Event>, p: Packet, n: nat) {
    |before| + n <= |trace| && before <= trace && EachOnce(trace[|trace| - n..], p, n)
  }

  // ----- the client -----

  /** The receiving half of Client: what it did so far, and whether it is still running. */
  class Client {
    const env: Env
    var trace: seq<Event>
    var status: Status

    constructor (env: Env)
      ensures this.env == env && trace == [] && status == Alive
    {
      this.env := env;
      trace, status := [], Alive;
    }

    method HandlePacket(gz: nat, p: Packet)
      requires Sound(env) && status == Alive
      modifies this
      ensures var r := PacketRun(env, gz, p); trace == old(trace) + r.trace && status == r.status
      ensures status == Alive ==> EndsInCalls(old(trace), trace, p, env.handlers)
      ensures p.emsg != 1 ==>
                && status == Alive
                && |trace| == |old(trace)| + env.handlers + (if p.emsg in {783, 1303, 1305} then 1 else 0)
                && (p.emsg in {783, 1303, 1305} ==> trace[|old(trace)|] == OwnHandler(p))
      decreases gz, 1, Sig(p.data), 2, 0
    {
      if p.emsg == EMSG_MULTI {
        HandleMulti(gz, p);
        if status != Alive { return; }
        Reassociate(old(trace), MultiRun(env, gz, p).trace, CallHandlers(p, 0, env.handlers));
      } else if HasOwnHandler(p.emsg) {
        trace := trace + [OwnHandler(p)];
        Reassociate(old(trace), [OwnHandler(p)], CallHandlers(p, 0, env.handlers));
      }
      ghost var before := trace;
      CallAll(p);
      assert trace[|before|..] == trace[|trace| - env.handlers..];
    }

    /** The loop over the registered handlers. */
    method CallAll(p: Packet)
      modifies this`trace
      ensures trace == old(trace) + CallHandlers(p, 0, env.handlers)
      ensures EachOnce(trace[|old(trace)|..], p, env.handlers)
    {
      CallsInOrder(p, 0, env.handlers);
      for i := 0 to env.handlers
        invariant trace + CallHandlers(p, i, env.handlers) == old(trace) + CallHandlers(p, 0, env.handlers)
      {
        ghost var rest := CallHandlers(p, i + 1, env.handlers);
        assert (trace + [Handled(i, p)]) + rest == trace + CallHandlers(p, i, env.handlers);
        trace := trace + [Handled(i, p)];
      }
      assert trace == old(trace) + CallHandlers(p, 0, env.handlers);
      assert trace[|old(trace)|..] == CallHandlers(p, 0, env.handlers);
    }

    method HandleMulti(gz: nat, p: Packet)
      requires Sound(env) && status == Alive
      modifies this
      ensures var r := MultiRun(env, gz, p); trace == old(trace) + r.trace && status == r.status
      decreases gz, 1, Sig(p.data), 1, 0
    {
      var read := env.body(p.data);
      if read.None? {
        status := Crashed;
      } else if !read.value.zipped {
        SliceSig0(read.value.body, p.data);
        UnpackPayload(gz, read.value.body);
      } else {
        UnzipAndUnpack(gz, p, read.value.body);
      }
    }

    method UnzipAndUnpack(gz: nat, p: Packet, zipped: seq<byte>)
      requires Sound(env) && status == Alive
      modifies this
      ensures var r := UnzippedRun(env, gz, p, zipped); trace == old(trace) + r.trace && status == r.status
      decreases gz, 0
    {
      var unzipped := env.gunzip(zipped);
      if unzipped.None? {
        trace := trace + [BadZip(p)];
      } else if gz == 0 {
        status := TooDeep;
      } else {
        UnpackPayload(gz - 1, unzipped.value);
      }
    }

    /** The loop of handleMulti. */
    method UnpackPayload(gz: nat, all: seq<byte>)
      requires Sound(env) && status == Alive
      modifies this
      ensures var r := UnpackRun(env, gz, all); trace == old(trace) + r.trace && status == r.status
      decreases gz, 1, Sig(all), 0, |all|
    {
      var payload := all;
      while payload != []
        invariant status == Alive && Sig(payload) <= Sig(all)
        invariant var r := UnpackRun(env, gz, payload);
                  trace + r.trace == old(trace) + UnpackRun(env, gz, all).trace
                  && r.status == UnpackRun(env, gz, all).status
        decreases |payload|
      {
        var (item, rest) := NextItem(payload);
        ItemShrinks(payload);
        var parsed := env.parse(item);
        ghost var sofar := trace;
        match parsed {
          case Panic =>
            status := Crashed;
            return;
          case Err =>
            trace := trace + [BadPacket(item)];
          case Ok(sub) =>
            HandlePacket(gz, sub);
            if status != Alive { return; }
        }
        Reassociate(sofar, trace[|sofar|..], UnpackRun(env, gz, rest).trace);
        payload := rest;
      }
    }
  }

  // ----- the order of events -----

  /** How a packet's sub-packets are stored: as they are, compressed, or compressed and damaged. */
  datatype Archive = Open | Zipped | Damaged

  /** What a packet holds: the sub-packets of a Multi, in order. */
  datatype Tree = Tree(p: Packet, archive: Archive, subs: seq<Sub>)

  datatype Sub = Rejected(data: seq<byte>) | Accepted(t: Tree)
  {
    function Data(): seq<byte> {
      match this
      case Rejected(data) => data
      case Accepted(t) => t.p.data
    }
  }

  function Datas(subs: seq<Sub>): (ds: seq<seq<byte>>)
    ensures |ds| == |subs| && forall i | 0 <= i < |subs| :: ds[i] == subs[i].Data()
  {
    if subs == [] then [] else [subs[0].Data()] + Datas(subs[1..])
  }

  /** The bytes a Multi's loop unpacks, and how they are stored; no bytes where decompression fails. */
  function Payload(env: Env, b: MultiBody): (Archive, seq<byte>) {
    if !b.zipped then (Open, b.body)
    else match env.gunzip(b.body) case Some(payload) => (Zipped, payload) case None => (Damaged, [])
  }

  /** The tree is what NewPacket, the decompressor and the unpacking loop find in the packet, all the way down. */
  ghost predicate Describes(env: Env, t: Tree)
    decreases t
  {
    if t.p.emsg == EMSG_MULTI then
      var b := env.body(t.p.data);
      b.Some? && t.archive == Payload(env, b.value).0 && Items(Payload(env, b.value).1) == Datas(t.subs)
      && forall i | 0 <= i < |t.subs| :: DescribesSub(env, t.subs[i])
    else t.archive.Open? && t.subs == []
  }

  ghost predicate DescribesSub(env: Env, s: Sub)
    decreases s
  {
    match s
    case Rejected(data) => env.parse(data) == Err
    case Accepted(t) => env.parse(t.p.data) == Ok(t.p) && Describes(env, t)
  }

  function Max(a: nat, b: nat): nat { if a < b then b else a }

  /** How deep compressed Multis nest. */
  function Depth(t: Tree): nat
    decreases t
  {
    (if t.archive.Zipped? then 1 else 0) + Depths(t.subs)
  }

  function Depths(subs: seq<Sub>): nat
    decreases subs
  {
    if subs == [] then 0 else Max(SubDepth(subs[0]), Depths(subs[1..]))
  }

  function SubDepth(s: Sub): nat
    decreases s
  {
    match s case Rejected(_) => 0 case Accepted(t) => Depth(t)
  }

  /** Post-order: every sub-packet's events in order, or a decompression error, then the packet's own handlers. */
  function PostOrder(t: Tree, handlers: nat): seq<Event>
    decreases t
  {
    (if t.archive.Damaged? then [BadZip(t.p)] else PostOrders(t.subs, handlers))
    + (if HasOwnHandler(t.p.emsg) then [OwnHandler(t.p)] else [])
    + CallHandlers(t.p, 0, handlers)
  }

  function PostOrders(subs: seq<Sub>, handlers: nat): seq<Event>
    decreases subs
  {
    if subs == [] then [] else SubEvents(subs[0], handlers) + PostOrders(subs[1..], handlers)
  }

  function SubEvents(s: Sub, handlers: nat): seq<Event>
    decreases s
  {
    match s
    case Rejected(data) => [BadPacket(data)]
    case Accepted(t) => PostOrder(t, handlers)
  }

  /** Every sub-packet's events. */
  function SubsEvents(subs: seq<Sub>, handlers: nat): (r: seq<seq<Event>>)
    ensures |r| == |subs|
    ensures forall i | 0 <= i < |subs| :: r[i] ==
              if subs[i].Rejected? then [BadPacket(subs[i].data)] else PostOrder(subs[i].t, handlers)
  {
    seq(|subs|, i requires 0 <= i < |subs| => SubEvents(subs[i], handlers))
  }

  lemma {:induction false} PostOrdersAre(subs: seq<Sub>, handlers: nat)
    ensures PostOrders(subs, handlers) == Flatten(SubsEvents(subs, handlers))
  {
    if subs != [] {
      PostOrdersAre(subs[1..], handlers);
      assert SubsEvents(subs, handlers)[1..] == SubsEvents(subs[1..], handlers);
    }
  }

  /**
   Of the post-order of a packet: first its sub-packets' events, one sub-packet after the other, or the report
   of a damaged archive; then the client's own handler where the kind has one; and at the end each registered
   handler once, in order of registration.
   */
  lemma PostOrderIs(t: Tree, handlers: nat) returns (calls: seq<Event>)
    ensures EachOnce(calls, t.p, handlers)
    ensures PostOrder(t, handlers) ==
            (if t.archive.Damaged? then [BadZip(t.p)] else Flatten(SubsEvents(t.subs, handlers)))
            + (if t.p.emsg in {783, 1303, 1305} then [OwnHandler(t.p)] else []) + calls
    ensures EndsInCalls([], PostOrder(t, handlers), t.p, handlers)
  {
    calls := CallHandlers(t.p, 0, handlers);
    CallsInOrder(t.p, 0, handlers);
    PostOrdersAre(t.subs, handlers);
    var all := PostOrder(t, handlers);
    assert all[|all| - handlers..] == calls;
  }

  // ----- a tree gives its post-order -----

  /**
   Dispatching a packet calls the handlers in post-order of its tree, with one error per rejected
   sub-packet or damaged archive and the later ones still dispatched, under every bound that allows
   the tree's compressed nesting.
   */
  lemma {:induction false} DispatchIsPostOrder(env: Env, gz: nat, t: Tree)
    requires Sound(env) && Describes(env, t) && Depth(t) <= gz
    ensures PacketRun(env, gz, t.p) == Run(PostOrder(t, env.handlers), Alive)
    decreases t
  {
    if t.p.emsg == EMSG_MULTI {
      var b := env.body(t.p.data).value;
      forall s | s in t.subs ensures DescribesSub(env, s) {
        var i :| 0 <= i < |t.subs| && s == t.subs[i];
      }
      if !t.archive.Damaged? {
        UnpackIsPostOrder(env, if b.zipped then gz - 1 else gz, Payload(env, b).1, t.subs);
      }
      MultiIs(env, gz, t.p);
      MultiInOrder(env, gz, t);
    } else {
      assert PostOrders([], env.handlers) == [];
    }
  }

  /** A Multi's run, by how its payload is stored. */
  lemma MultiIs(env: Env, gz: nat, p: Packet)
    requires Sound(env) && env.body(p.data).Some?
    ensures var (archive, payload) := Payload(env, env.body(p.data).value);
            MultiRun(env, gz, p) ==
            match archive
            case Open => UnpackRun(env, gz, payload)
            case Damaged => Run([BadZip(p)], Alive)
            case Zipped => if gz == 0 then Run([], TooDeep) else UnpackRun(env, gz - 1, payload)
  {}

  lemma MultiInOrder(env: Env, gz: nat, t: Tree)
    requires Sound(env) && t.p.emsg == EMSG_MULTI
    requires MultiRun(env, gz, t.p) ==
             Run(if t.archive.Damaged? then [BadZip(t.p)] else PostOrders(t.subs, env.handlers), Alive)
    ensures PacketRun(env, gz, t.p) == Run(PostOrder(t, env.handlers), Alive)
  {
    var inner := MultiRun(env, gz, t.p).trace;
    assert inner + [] == inner;
  }

  lemma {:induction false} UnpackIsPostOrder(env: Env, gz: nat, payload: seq<byte>, subs: seq<Sub>)
    requires Sound(env) && Items(payload) == Datas(subs) && Depths(subs) <= gz
    requires forall s | s in subs :: DescribesSub(env, s)
    ensures UnpackRun(env, gz, payload) == Run(PostOrders(subs, env.handlers), Alive)
    decreases subs
  {
    if payload != [] {
      var (item, rest) := NextItem(payload);
      assert Items(payload)[0] == item && Items(payload)[1..] == Items(rest);
      assert Datas(subs)[0] == subs[0].Data() && Datas(subs)[1..] == Datas(subs[1..]);
      SubIsPostOrder(env, gz, subs[0]);
      UnpackIsPostOrder(env, gz, rest, subs[1..]);
      UnpackStep(env, gz, payload);
    }
  }

  ghost function ItemRun(env: Env, gz: nat, item: seq<byte>): Run
    requires Sound(env)
  {
    match env.parse(item)
    case Panic => Run([], Crashed)
    case Err => Run([BadPacket(item)], Alive)
    case Ok(p) => PacketRun(env, gz, p)
  }

  lemma UnpackStep(env: Env, gz: nat, payload: seq<byte>)
    requires Sound(env) && payload != []
    ensures UnpackRun(env, gz, payload) ==
            ItemRun(env, gz, NextItem(payload).0).Then(UnpackRun(env, gz, NextItem(payload).1))
  {}

  lemma {:induction false} SubIsPostOrder(env: Env, gz: nat, s: Sub)
    requires Sound(env) && DescribesSub(env, s) && SubDepth(s) <= gz
    ensures ItemRun(env, gz, s.Data()) == Run(SubEvents(s, env.handlers), Alive)
    decreases s
  {
    match s {
      case Rejected(_) =>
      case Accepted(t) => DispatchIsPostOrder(env, gz, t);
    }
  }

  // ----- which packets have a tree -----

  /** A run that ends in order has a tree that describes what it found. */
  lemma {:induction false} FindTree(env: Env, gz: nat, p: Packet) returns (t: Tree)
    requires Sound(env) && PacketRun(env, gz, p).status.Alive?
    ensures t.p == p && Describes(env, t) && Depth(t) <= gz
    decreases gz, 1, Sig(p.data), 2, 0
  {
    if p.emsg != EMSG_MULTI { return Tree(p, Open, []); }
    assert env.body(p.data).Some?;
    var b := env.body(p.data).value;
    var (archive, payload) := Payload(env, b);
    SliceSig0(b.body, p.data);
    MultiIs(env, gz, p);
    if archive.Damaged? { return Tree(p, Damaged, []); }
    var subs := FindSubs(env, if b.zipped then gz - 1 else gz, payload);
    t := Tree(p, archive, subs);
  }

  lemma {:induction false} FindSubs(env: Env, gz: nat, payload: seq<byte>) returns (subs: seq<Sub>)
    requires Sound(env) && UnpackRun(env, gz, payload).status.Alive?
    ensures DescribesAll(env, payload, subs) && Depths(subs) <= gz
    decreases gz, 1, Sig(payload), 0, |payload|
  {
    if payload == [] { return []; }
    var (item, rest) := NextItem(payload);
    ItemShrinks(payload);
    UnpackStep(env, gz, payload);
    var sub := Rejected(item);
    if env.parse(item).Ok? {
      var t := FindTree(env, gz, env.parse(item).value);
      sub := Accepted(t);
    }
    var more := FindSubs(env, gz, rest);
    DescribesCons(env, payload, sub, more);
    subs := [sub] + more;
  }

  /** The sub-packets are those of the payload, in order, each described. */
  ghost predicate DescribesAll(env: Env, payload: seq<byte>, subs: seq<Sub>) {
    Datas(subs) == Items(payload) && forall i | 0 <= i < |subs| :: DescribesSub(env, subs[i])
  }

  lemma DescribesCons(env: Env, payload: seq<byte>, sub: Sub, subs: seq<Sub>)
    requires payload != [] && DescribesAll(env, NextItem(payload).1, subs)
    requires DescribesSub(env, sub) && sub.Data() == NextItem(payload).0
    ensures DescribesAll(env, payload, [sub] + subs) && Depths([sub] + subs) == Max(SubDepth(sub), Depths(subs))
  {
    assert ([sub] + subs)[1..] == subs;
  }

  ghost predicate IsTreeOf(env: Env, p: Packet, t: Tree) { t.p == p && Describes(env, t) }

  /**
   Dispatching a packet comes to its end, under a bound on compressed nesting, if and only if a tree that
   keeps to the bound describes the packet; the trace is then the post-order of every such tree.
   */
  lemma PostOrderIff(env: Env, gz: nat, p: Packet)
    requires Sound(env)
    ensures PacketRun(env, gz, p).status.Alive? <==> exists t :: IsTreeOf(env, p, t) && Depth(t) <= gz
    ensures forall t | IsTreeOf(env, p, t) && Depth(t) <= gz
              :: PacketRun(env, gz, p).trace == PostOrder(t, env.handlers)
  {
    if PacketRun(env, gz, p).status.Alive? {
      var t := FindTree(env, gz, p);
      assert IsTreeOf(env, p, t);
    }
    forall t | IsTreeOf(env, p, t) && Depth(t) <= gz
      ensures PacketRun(env, gz, p) == Run(PostOrder(t, env.handlers), Alive)
    {
      DispatchIsPostOrder(env, gz, t);
    }
  }

  ghost predicate Ends(env: Env, gz: nat, p: Packet)
    requires Sound(env)
  {
    PacketRun(env, gz, p).status.Alive?
  }

  /** Without a bound: it comes to its end if and only if some tree describes the packet. */
  lemma EndsIff(env: Env, p: Packet)
    requires Sound(env)
    ensures (exists gz :: Ends(env, gz, p)) <==> exists t :: IsTreeOf(env, p, t)
  {
    if gz :| Ends(env, gz, p) {
      PostOrderIff(env, gz, p);
    }
    if t :| IsTreeOf(env, p, t) {
      DispatchIsPostOrder(env, Depth(t), t);
      assert Ends(env, Depth(t), p);
    }
  }

  // ----- a Multi of plain packets -----

  /** A packet on its own: what NewPacket reads from its bytes, and no Multi. */
  predicate IsLeaf(env: Env, p: Packet) {
    |p.data| < TWO32 && env.parse(p.data) == Ok(p) && p.emsg != EMSG_MULTI
  }

  function Leaves(ps: seq<Packet>): seq<Sub> {
    if ps == [] then [] else [Accepted(Tree(ps[0], Open, []))] + Leaves(ps[1..])
  }

  lemma {:induction false} LeavesAre(env: Env, ps: seq<Packet>)
    requires forall p | p in ps :: IsLeaf(env, p)
    ensures (forall d | d in Datas(Leaves(ps)) :: |d| < TWO32) && Depths(Leaves(ps)) == 0
    ensures forall i | 0 <= i < |Leaves(ps)| :: DescribesSub(env, Leaves(ps)[i])
    decreases |ps|
  {
    if ps != [] {
      LeavesAre(env, ps[1..]);
      LeafIs(env, ps[0]);
      assert Leaves(ps)[1..] == Leaves(ps[1..]);
      assert Datas(Leaves(ps)) == [ps[0].data] + Datas(Leaves(ps[1..]));
    }
  }

  lemma LeafIs(env: Env, p: Packet)
    requires IsLeaf(env, p)
    ensures DescribesSub(env, Accepted(Tree(p, Open, []))) && SubDepth(Accepted(Tree(p, Open, []))) == 0
  {
    var t := Tree(p, Open, []);
    assert Describes(env, t);
    assert Depths([]) == 0 && Depth(t) == 0;
  }

  /** Length-prefixed packets in a Multi, compressed or not: each one's handlers in order, then the Multi's. */
  lemma PackedMulti(env: Env, gz: nat, p: Packet, ps: seq<Packet>, b: MultiBody)
    requires Sound(env) && p.emsg == EMSG_MULTI && env.body(p.data) == Some(b)
    requires forall q | q in ps :: IsLeaf(env, q)
    ensures forall d | d in Datas(Leaves(ps)) :: |d| < TWO32
    ensures !b.zipped && b.body == Packed(Datas(Leaves(ps))) ==>
              PacketRun(env, gz, p) == Run(PostOrder(Tree(p, Open, Leaves(ps)), env.handlers), Alive)
    ensures b.zipped && gz > 0 && env.gunzip(b.body) == Some(Packed(Datas(Leaves(ps)))) ==>
              PacketRun(env, gz, p) == Run(PostOrder(Tree(p, Zipped, Leaves(ps)), env.handlers), Alive)
  {
    LeavesAre(env, ps);
    ItemsOfPacked(Datas(Leaves(ps)));
    if !b.zipped && b.body == Packed(Datas(Leaves(ps))) {
      DispatchIsPostOrder(env, gz, Tree(p, Open, Leaves(ps)));
    } else if b.zipped && gz > 0 && env.gunzip(b.body) == Some(Packed(Datas(Leaves(ps)))) {
      DispatchIsPostOrder(env, gz, Tree(p, Zipped, Leaves(ps)));
    }
  }

  /** A compressed Multi that does not decompress is reported, and handled like any other packet. */
  lemma DamagedMulti(env: Env, gz: nat, p: Packet, b: MultiBody)
    requires Sound(env) && p.emsg == EMSG_MULTI && env.body(p.data) == Some(b) && b.zipped && env.gunzip(b.body) == None
    ensures var r := PacketRun(env, gz, p);
            r.status == Alive && r.trace != [] && r.trace[0] == BadZip(p) && EachOnce(r.trace[1..], p, env.handlers)
  {
    var t, calls := Tree(p, Damaged, []), CallHandlers(p, 0, env.handlers);
    assert Items([]) == [] && Describes(env, t) && Depth(t) == 0;
    DispatchIsPostOrder(env, gz, t);
    CallsInOrder(p, 0, env.handlers);
    assert PostOrder(t, env.handlers) == [BadZip(p)] + [] + calls;
    assert ([BadZip(p)] + [] + calls)[1..] == calls;
  }

  // ----- the bound on compressed nesting -----

  /** Any larger bound on compressed nesting changes nothing once it was large enough. */
  lemma {:induction false} BoundIrrelevant(env: Env, gz: nat, larger: nat, p: Packet)
    requires Sound(env) && gz <= larger && !PacketRun(env, gz, p).status.TooDeep?
    ensures PacketRun(env, larger, p) == PacketRun(env, gz, p)
    decreases larger - gz
  {
    if gz < larger {
      OneMore(env, gz, p);
      BoundIrrelevant(env, gz + 1, larger, p);
    }
  }

  lemma {:induction false} OneMore(env: Env, gz: nat, p: Packet)
    requires Sound(env) && !PacketRun(env, gz, p).status.TooDeep?
    ensures PacketRun(env, gz + 1, p) == PacketRun(env, gz, p)
    decreases gz, 1, Sig(p.data), 2, 0
  {
    if p.emsg == EMSG_MULTI {
      OneMoreMulti(env, gz, p);
    }
  }

  lemma {:induction false} OneMoreMulti(env: Env, gz: nat, p: Packet)
    requires Sound(env) && !MultiRun(env, gz, p).status.TooDeep?
    ensures MultiRun(env, gz + 1, p) == MultiRun(env, gz, p)
    decreases gz, 1, Sig(p.data), 1, 0
  {
    if env.body(p.data).Some? {
      var b := env.body(p.data).value;
      SliceSig0(b.body, p.data);
      if b.zipped {
        OneMoreUnzipped(env, gz, p, b.body);
      } else {
        OneMoreUnpack(env, gz, b.body);
      }
    }
  }

  lemma {:induction false} OneMoreUnzipped(env: Env, gz: nat, p: Packet, zipped: seq<byte>)
    requires Sound(env) && !UnzippedRun(env, gz, p, zipped).status.TooDeep?
    ensures UnzippedRun(env, gz + 1, p, zipped) == UnzippedRun(env, gz, p, zipped)
    decreases gz, 0
  {
    if env.gunzip(zipped).Some? { OneMoreUnpack(env, gz - 1, env.gunzip(zipped).value); }
  }

  lemma {:induction false} OneMoreUnpack(env: Env, gz: nat, payload: seq<byte>)
    requires Sound(env) && !UnpackRun(env, gz, payload).status.TooDeep?
    ensures UnpackRun(env, gz + 1, payload) == UnpackRun(env, gz, payload)
    decreases gz, 1, Sig(payload), 0, |payload|
  {
    if payload != [] {
      var (item, rest) := NextItem(payload);
      ItemShrinks(payload);
      UnpackStep(env, gz, payload);
      UnpackStep(env, gz + 1, payload);
      match env.parse(item) {
        case Panic =>
        case Err => OneMoreUnpack(env, gz, rest);
        case Ok(p) =>
          OneMore(env, gz, p);
          if PacketRun(env, gz, p).status.Alive? { OneMoreUnpack(env, gz, rest); }
      }
    }
  }
}
