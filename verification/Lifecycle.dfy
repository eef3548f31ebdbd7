/**
 The client's connection, write channel and read-write mutex as interleaved steps. Any number of
 goroutines run Write (or sendNoStamp) and Disconnect; one at a time runs a Connect method. A step is what
 runs between two points where another goroutine may come in. The Connect methods assign conn and
 writeChan outside the mutex: CAssign is both assignments at once, CConn and CChan are the two in turn.
 */
module Lifecycle {
  import opened Basics

  type Msg = nat

  const CAPACITY := 5

  /** A channel made by a Connect; accepted is history: every message ever sent on it. */
  datatype Chan = Chan(open: bool, queue: seq<Msg>, accepted: seq<Msg>)

  /** Write: before RLock, holding it, past the check of conn, and finished. */
  datatype Writer = WBefore(m: Msg) | WInside(m: Msg) | WSending(m: Msg) | WSent(m: Msg) | WIgnored(m: Msg)

  /** Disconnect: before Lock, holding it, past the check of conn, conn set to nil, channel closed, finished. */
  datatype Discon = DBefore | DInside | DClosing | DNil | DClosed | DDone

  /** A Connect method: none running, its own Disconnect running, dialled, and between the two assignments. */
  datatype Connector = Idle | Clearing(d: nat) | Dialled | Halfway

  /**
   holder is the Disconnect that holds the mutex for writing. crashed: a panic ended the program. made and
   events are history: connections assigned, and DisconnectedEvents emitted.
   */
  datatype State = State(
    conn: Option<nat>, chan: Option<Chan>, holder: Option<nat>,
    writers: seq<Writer>, discons: seq<Discon>, connecting: Connector,
    crashed: bool, made: nat, events: nat)

  function Initial(): State { State(None, None, None, [], [], Idle, false, 0, 0) }

  datatype Step =
    | WCall(m: Msg) | WLock(i: nat) | WCheck(i: nat) | WSend(i: nat)
    | Take                       // the write loop receives a message
    | DCall | DLock(i: nat) | DCheck(i: nat) | DSetNil(i: nat) | DClose(i: nat) | DEmit(i: nat)
    | CCall | CDial(ok: bool) | CAssign | CConn | CChan

  predicate Reader(w: Writer) { w.WInside? || w.WSending? }

  predicate IsOpen(s: State) { s.chan.Some? && s.chan.value.open }

  function SetW(s: State, i: nat, w: Writer): State
    requires i < |s.writers|
  {
    s.(writers := s.writers[i := w])
  }

  function SetD(s: State, i: nat, d: Discon): State
    requires i < |s.discons|
  {
    s.(discons := s.discons[i := d])
  }

  function NewChan(): Option<Chan> { Some(Chan(true, [], [])) }

  function Crash(s: State): State { s.(crashed := true) }

  /** What a step does; None where it cannot be taken, be it for a lock or for a full or nil channel. */
  function Do(s: State, step: Step): Option<State> {
    if s.crashed then None else
      match step
      case WCall(m) => Some(s.(writers := s.writers + [WBefore(m)]))
      case WLock(i) => if i < |s.writers| then DoWLock(s, i) else None
      case WCheck(i) => if i < |s.writers| then DoWCheck(s, i) else None
      case WSend(i) => if i < |s.writers| then DoWSend(s, i) else None
      case Take => DoTake(s)
      case DCall => Some(s.(discons := s.discons + [DBefore]))
      case DLock(i) => if i < |s.discons| then DoDLock(s, i) else None
      case DCheck(i) => if i < |s.discons| then DoDCheck(s, i) else None
      case DSetNil(i) =>
        if i < |s.discons| && s.discons[i].DClosing? then Some(SetD(s, i, DNil).(conn := None)) else None
      case DClose(i) => if i < |s.discons| then DoDClose(s, i) else None
      case DEmit(i) =>
        if i < |s.discons| && s.discons[i].DClosed?
        then Some(SetD(s, i, DDone).(holder := None, events := s.events + 1)) else None
      case CCall =>
        if s.connecting.Idle?
        then Some(s.(connecting := Clearing(|s.discons|), discons := s.discons + [DBefore])) else None
      case CDial(ok) => DoCDial(s, ok)
      case CAssign =>
        if s.connecting.Dialled?
        then Some(s.(conn := Some(s.made), chan := NewChan(), made := s.made + 1, connecting := Idle)) else None
      case CConn =>
        if s.connecting.Dialled?
        then Some(s.(conn := Some(s.made), made := s.made + 1, connecting := Halfway)) else None
      case CChan => if s.connecting.Halfway? then Some(s.(chan := NewChan(), connecting := Idle)) else None
  }

  function DoWLock(s: State, i: nat): Option<State>
    requires i < |s.writers|
  {
    if s.writers[i].WBefore? && s.holder.None? then Some(SetW(s, i, WInside(s.writers[i].m))) else None
  }

  function DoWCheck(s: State, i: nat): Option<State>
    requires i < |s.writers|
  {
    var w := s.writers[i];
    if !w.WInside? then None else Some(SetW(s, i, if s.conn.None? then WIgnored(w.m) else WSending(w.m)))
  }

  /** Sending on a nil channel blocks for ever, on a full one for a while, on a closed one it panics. */
  function DoWSend(s: State, i: nat): Option<State>
    requires i < |s.writers|
  {
    var w := s.writers[i];
    if !w.WSending? || s.chan.None? then None
    else var ch := s.chan.value;
      if !ch.open then Some(Crash(s))
      else if |ch.queue| == CAPACITY then None
      else Some(SetW(s, i, WSent(w.m)).(chan := Some(ch.(queue := ch.queue + [w.m], accepted := ch.accepted + [w.m]))))
  }

  function DoTake(s: State): Option<State> {
    if s.chan.None? || s.chan.value.queue == [] then None
    else Some(s.(chan := Some(s.chan.value.(queue := s.chan.value.queue[1..]))))
  }

  function DoDLock(s: State, i: nat): Option<State>
    requires i < |s.discons|
  {
    if s.discons[i].DBefore? && s.holder.None? && (forall w | w in s.writers :: !Reader(w))
    then Some(SetD(s, i, DInside).(holder := Some(i))) else None
  }

  function DoDCheck(s: State, i: nat): Option<State>
    requires i < |s.discons|
  {
    if !s.discons[i].DInside? then None
    else if s.conn.None? then Some(SetD(s, i, DDone).(holder := None))
    else Some(SetD(s, i, DClosing))
  }

  /** Closing a nil or a closed channel panics. */
  function DoDClose(s: State, i: nat): Option<State>
    requires i < |s.discons|
  {
    if !s.discons[i].DNil? then None
    else if !IsOpen(s) then Some(Crash(s))
    else Some(SetD(s, i, DClosed).(chan := Some(s.chan.value.(open := false))))
  }

  /** Dialling starts when the Connect's own Disconnect has finished; a failure calls Disconnect again. */
  function DoCDial(s: State, ok: bool): Option<State> {
    if !s.connecting.Clearing? || s.connecting.d >= |s.discons| || !s.discons[s.connecting.d].DDone? then None
    else if ok then Some(s.(connecting := Dialled))
    else Some(s.(connecting := Idle, discons := s.discons + [DBefore]))
  }

  function Run(s: State, steps: seq<Step>): Option<State>
    decreases |steps|
  {
    if steps == [] then Some(s)
    else match Do(s, steps[0]) case Some(s') => Run(s', steps[1..]) case None => None
  }

  lemma {:induction false} RunSnoc(s: State, steps: seq<Step>, step: Step)
    requires Run(s, steps).Some?
    ensures Run(s, steps + [step]) == Do(Run(s, steps).value, step)
    decreases |steps|
  {
    if steps == [] {
      assert [] + [step] == [step];
      assert Do(s, step).Some? ==> Run(Do(s, step).value, [step][1..]) == Do(s, step);
    } else {
      RunSnoc(Do(s, steps[0]).value, steps[1..], step);
      assert (steps + [step])[1..] == steps[1..] + [step];
    }
  }

  // ----- what every step keeps -----

  predicate Mid(d: Discon) { d.DInside? || d.DClosing? || d.DNil? || d.DClosed? }

  /** The stage of the Disconnect that holds the mutex. */
  function Held(s: State): Discon {
    if s.holder.Some? && s.holder.value < |s.discons| then s.discons[s.holder.value] else DBefore
  }

  predicate GoodDiscon(s: State, i: nat) {
    (s.holder == Some(i) ==> i < |s.discons|) && (i < |s.discons| ==> (Mid(s.discons[i]) <==> s.holder == Some(i)))
  }

  predicate GoodWriter(s: State, i: nat) {
    i < |s.writers| ==> (Reader(s.writers[i]) ==> s.holder.None?) && (s.writers[i].WSending? ==> s.conn.Some?)
  }

  /** conn is nil exactly when the channel is closed or was never made, but for two gaps. */
  predicate GoodConn(s: State) {
    if s.connecting.Halfway? then !IsOpen(s) && (s.conn.None? <==> Held(s).DNil?)
    else if Held(s).DNil? then s.conn.None? && IsOpen(s)
    else s.conn.None? <==> !IsOpen(s)
  }

  /** Where the mutex holder and the running Connect can be. */
  predicate GoodStages(s: State) {
    && (Held(s).DClosing? ==> s.conn.Some?)
    && (Held(s).DClosed? ==> !s.connecting.Halfway? && s.conn.None?)
    && (s.connecting.Dialled? ==> s.conn.None? && !Held(s).DNil? && !Held(s).DClosed?)
    && (s.connecting.Clearing? ==>
          && s.connecting.d < |s.discons|
          && (s.discons[s.connecting.d].DDone? ==> s.conn.None? && !Held(s).DNil? && !Held(s).DClosed?))
  }

  function Owed(s: State): nat { if Held(s).DNil? || Held(s).DClosed? then 1 else 0 }

  function Connections(s: State): nat { if s.conn.Some? then 1 else 0 }

  /** Every connection made is still open, or its DisconnectedEvent is emitted or about to be. */
  predicate Balanced(s: State) { s.events + Owed(s) + Connections(s) == s.made }

  predicate GoodChan(s: State) { s.chan.Some? ==> |s.chan.value.queue| <= CAPACITY && Suffix(s.chan.value) }

  ghost predicate Inv(s: State) {
    && (forall i: nat :: GoodDiscon(s, i))
    && (forall i: nat :: GoodWriter(s, i))
    && GoodConn(s) && GoodStages(s) && Balanced(s) && GoodChan(s)
  }

  lemma InitialInv()
    ensures Inv(Initial())
  {}

  lemma {:induction false} StepKeepsDiscon(s: State, step: Step, i: nat)
    requires Inv(s) && Do(s, step).Some? && !Do(s, step).value.crashed
    ensures GoodDiscon(Do(s, step).value, i)
  {
    assert GoodDiscon(s, i);
    if s.holder.Some? { assert GoodDiscon(s, s.holder.value); }
    if step.DLock? { assert GoodDiscon(s, step.i); }
    if step.DCheck? { assert GoodDiscon(s, step.i); }
    if step.DEmit? { assert GoodDiscon(s, step.i); }
  }

  lemma {:induction false} StepKeepsWriter(s: State, step: Step, i: nat)
    requires Inv(s) && Do(s, step).Some? && !Do(s, step).value.crashed
    ensures GoodWriter(Do(s, step).value, i)
  {
    assert GoodWriter(s, i);
    match step {
      case WLock(j) => assert GoodWriter(s, j);
      case DLock(j) =>
        if i < |s.writers| { assert s.writers[i] in s.writers; }
      case DSetNil(j) => assert GoodDiscon(s, j);
      case _ =>
    }
  }

  /** The Disconnects a step is about are where the mutex says. */
  lemma HolderIsGood(s: State, step: Step)
    requires Inv(s) && Do(s, step).Some?
    ensures s.holder.Some? ==> GoodDiscon(s, s.holder.value)
    ensures s.connecting.Clearing? ==> GoodDiscon(s, s.connecting.d)
    ensures step.DLock? || step.DCheck? || step.DSetNil? || step.DClose? || step.DEmit? ==> GoodDiscon(s, step.i)
  {}

  lemma {:induction false} StepKeepsConn(s: State, step: Step)
    requires Inv(s) && Do(s, step).Some? && !Do(s, step).value.crashed
    ensures GoodConn(Do(s, step).value)
  {
    HolderIsGood(s, step);
  }

  lemma {:induction false} StepKeepsStages(s: State, step: Step)
    requires Inv(s) && Do(s, step).Some? && !Do(s, step).value.crashed
    ensures GoodStages(Do(s, step).value)
  {
    HolderIsGood(s, step);
  }

  lemma {:induction false} StepKeepsBalance(s: State, step: Step)
    requires Inv(s) && Do(s, step).Some? && !Do(s, step).value.crashed
    ensures Balanced(Do(s, step).value)
  {
    HolderIsGood(s, step);
  }

  predicate Suffix(ch: Chan) {
    |ch.queue| <= |ch.accepted| && ch.queue == ch.accepted[|ch.accepted| - |ch.queue|..]
  }

  lemma SendKeepsSuffix(ch: Chan, m: Msg)
    requires Suffix(ch)
    ensures Suffix(ch.(queue := ch.queue + [m], accepted := ch.accepted + [m]))
  {}

  lemma ReceiveKeepsSuffix(ch: Chan)
    requires Suffix(ch) && ch.queue != []
    ensures Suffix(ch.(queue := ch.queue[1..]))
  {}

  lemma {:induction false} StepKeepsChan(s: State, step: Step)
    requires Inv(s) && Do(s, step).Some? && !Do(s, step).value.crashed
    ensures GoodChan(Do(s, step).value)
  {
    if step.WSend? {
      SendKeepsSuffix(s.chan.value, s.writers[step.i].m);
    } else if step.Take? {
      ReceiveKeepsSuffix(s.chan.value);
    }
  }

  lemma {:induction false} StepKeepsInv(s: State, step: Step)
    requires Inv(s) && Do(s, step).Some? && !Do(s, step).value.crashed
    ensures Inv(Do(s, step).value)
  {
    var s' := Do(s, step).value;
    forall i: nat ensures GoodDiscon(s', i) { StepKeepsDiscon(s, step, i); }
    forall i: nat ensures GoodWriter(s', i) { StepKeepsWriter(s, step, i); }
    StepKeepsConn(s, step);
    StepKeepsStages(s, step);
    StepKeepsBalance(s, step);
    StepKeepsChan(s, step);
  }

  /** What the write loop has received from a channel. */
  function Taken(ch: Chan): seq<Msg>
    requires |ch.queue| <= |ch.accepted|
  {
    ch.accepted[..|ch.accepted| - |ch.queue|]
  }

  /** A receive gets the first accepted message not yet received; a send changes nothing of what was received. */
  lemma {:induction false} ReceivedInOrder(s: State, step: Step)
    requires Inv(s) && s.chan.Some? && Do(s, step).Some? && (step.Take? || step.WSend?) && !Do(s, step).value.crashed
    ensures var ch, ch' := s.chan.value, Do(s, step).value.chan.value;
            && |ch.queue| <= |ch.accepted| && |ch'.queue| <= |ch'.accepted| && Do(s, step).value.chan.Some?
            && (step.Take? ==> ch.queue != [] && Taken(ch') == Taken(ch) + [ch.queue[0]] && ch'.accepted == ch.accepted)
            && (step.WSend? ==> Taken(ch') == Taken(ch) && ch.accepted < ch'.accepted)
  {
    StepKeepsChan(s, step);
    if step.Take? {
      var ch := s.chan.value;
      assert ch.queue[0] == ch.accepted[|ch.accepted| - |ch.queue|];
    }
  }

  // ----- what is accepted, and what Write was called with -----

  function AcceptedNow(s: State): seq<Msg> { if s.chan.Some? then s.chan.value.accepted else [] }

  /** Does a step put a new, empty channel in the place of the old one? */
  predicate Replaces(step: Step) { step.CAssign? || step.CChan? }

  /** A step from s to s' takes writer i through its send. */
  predicate Sends(s: State, s': State, i: nat) {
    i < |s.writers| && i < |s'.writers| && s.writers[i].WSending? && s'.writers[i].WSent?
  }

  /**
   A step keeps every writer and its message. One that takes a writer through its send appends exactly that
   writer's message to what the channel has accepted; any other appends nothing, and only a new channel
   starts from nothing. A writer that finds no connection, and no other, ends without a send.
   */
  lemma {:induction false} AcceptsWhatIsSent(s: State, step: Step, i: nat)
    requires Do(s, step).Some?
    ensures var s' := Do(s, step).value;
            && |s.writers| <= |s'.writers|
            && (i < |s.writers| ==> s'.writers[i].m == s.writers[i].m)
            && (Sends(s, s', i) ==> s.chan.Some? && s'.chan.Some? && !Replaces(step)
                                    && AcceptedNow(s') == AcceptedNow(s) + [s.writers[i].m])
            && ((forall j: nat :: !Sends(s, s', j)) ==>
                  AcceptedNow(s') == if Replaces(step) then [] else AcceptedNow(s))
            && (i < |s.writers| && s.writers[i].WInside? && s'.writers[i] != s.writers[i] ==>
                  s'.writers[i] == if s.conn.None? then WIgnored(s.writers[i].m) else WSending(s.writers[i].m))
  {
    var s' := Do(s, step).value;
    if step.WSend? && !s'.crashed { assert Sends(s, s', step.i); }
  }

  /** How many writers have sent m. */
  function Sent(ws: seq<Writer>, m: Msg): nat {
    if ws == [] then 0 else Sent(ws[..|ws| - 1], m) + (if ws[|ws| - 1] == WSent(m) then 1 else 0)
  }

  lemma {:induction false} SentSet(ws: seq<Writer>, i: nat, w: Writer, m: Msg)
    requires i < |ws|
    ensures Sent(ws[i := w], m) + (if ws[i] == WSent(m) then 1 else 0) == Sent(ws, m) + if w == WSent(m) then 1 else 0
  {
    var n, ws' := |ws| - 1, ws[i := w];
    if i == n {
      assert ws'[..n] == ws[..n];
    } else {
      assert ws'[..n] == ws[..n][i := w];
      SentSet(ws[..n], i, w, m);
    }
  }

  lemma SentOneMore(ws: seq<Writer>, w: Writer, m: Msg)
    ensures Sent(ws + [w], m) == Sent(ws, m) + if w == WSent(m) then 1 else 0
  {
    assert (ws + [w])[..|ws|] == ws;
  }

  function ReplacedBy(s: State, step: Step): seq<Msg> { if Replaces(step) then AcceptedNow(s) else [] }

  /** What the channels that a run replaced had accepted by then. */
  function Replaced(s: State, steps: seq<Step>): seq<Msg>
    requires Run(s, steps).Some?
    decreases |steps|
  {
    if steps == [] then []
    else ReplacedBy(s, steps[0]) + Replaced(Do(s, steps[0]).value, steps[1..])
  }

  /** How often m is in s. */
  function Times(s: seq<Msg>, m: Msg): nat { multiset(s)[m] }

  lemma TimesAppend(a: seq<Msg>, b: seq<Msg>, m: Msg)
    ensures Times(a + b, m) == Times(a, m) + Times(b, m)
  {}

  lemma TimesOne(a: seq<Msg>, x: Msg, m: Msg)
    ensures Times(a + [x], m) == Times(a, m) + if x == m then 1 else 0
  {}

  /** A step that sends nothing moves no writer to WSent and appends nothing. */
  lemma {:induction false} QuietStep(s: State, step: Step)
    requires Do(s, step).Some? && (!step.WSend? || Do(s, step).value.crashed)
    ensures var s' := Do(s, step).value;
            && (!step.WCall? && !step.WLock? && !step.WCheck? ==> s'.writers == s.writers)
            && AcceptedNow(s') == (if Replaces(step) then [] else AcceptedNow(s))
  {}

  lemma {:induction false} SendStep(s: State, step: Step)
    requires Do(s, step).Some? && step.WSend? && !Do(s, step).value.crashed
    ensures var s' := Do(s, step).value; var i := step.i;
            && i < |s.writers| && !s.writers[i].WSent? && s'.writers == s.writers[i := WSent(s.writers[i].m)]
            && AcceptedNow(s') == AcceptedNow(s) + [s.writers[i].m]
  {}

  lemma {:induction false} WriterStep(s: State, step: Step)
    requires Do(s, step).Some? && (step.WLock? || step.WCheck?)
    ensures var s' := Do(s, step).value; var i := step.i;
            && i < |s.writers| && |s'.writers| == |s.writers| && s'.writers == s.writers[i := s'.writers[i]]
            && !s.writers[i].WSent? && !s'.writers[i].WSent?
  {}

  /** One step keeps the account of accepted and sent messages. */
  lemma {:induction false} StepAccount(s: State, step: Step, m: Msg)
    requires Do(s, step).Some?
    ensures var s' := Do(s, step).value;
            Times(AcceptedNow(s'), m) + Times(ReplacedBy(s, step), m) + Sent(s.writers, m)
            == Times(AcceptedNow(s), m) + Sent(s'.writers, m)
  {
    var s' := Do(s, step).value;
    if step.WSend? && !s'.crashed {
      SendStep(s, step);
      SentSet(s.writers, step.i, s'.writers[step.i], m);
      TimesOne(AcceptedNow(s), s.writers[step.i].m, m);
    } else {
      QuietStep(s, step);
      if step.WCall? {
        SentOneMore(s.writers, WBefore(step.m), m);
      } else if step.WLock? || step.WCheck? {
        WriterStep(s, step);
        SentSet(s.writers, step.i, s'.writers[step.i], m);
      }
    }
  }

  /** The messages Write was called with in a run, in order. */
  function Calls(steps: seq<Step>): seq<Msg> {
    if steps == [] then [] else Calls(steps[..|steps| - 1]) + Called(steps[|steps| - 1])
  }

  function Called(step: Step): seq<Msg> { if step.WCall? then [step.m] else [] }

  /** Every writer is a call of Write, with the message it was called with. */
  predicate WritersAre(s: State, ms: seq<Msg>) {
    |s.writers| == |ms| && forall i | 0 <= i < |ms| :: s.writers[i].m == ms[i]
  }

  lemma {:induction false} StepCalls(s: State, step: Step, ms: seq<Msg>)
    requires WritersAre(s, ms) && Do(s, step).Some?
    ensures WritersAre(Do(s, step).value, ms + Called(step))
  {
    var s' := Do(s, step).value;
    forall i | 0 <= i < |ms| ensures s'.writers[i].m == ms[i] { AcceptsWhatIsSent(s, step, i); }
  }

  lemma {:induction false} RunPrefix(s: State, steps: seq<Step>, n: nat)
    requires Run(s, steps).Some? && n <= |steps|
    ensures Run(s, steps[..n]).Some?
    decreases |steps|
  {
    if n > 0 {
      RunPrefix(Do(s, steps[0]).value, steps[1..], n - 1);
      assert steps[..n][1..] == steps[1..][..n - 1];
    }
  }

  lemma {:induction false} ReplacedSnoc(s: State, steps: seq<Step>, step: Step)
    requires Run(s, steps).Some? && Run(s, steps + [step]).Some?
    ensures Replaced(s, steps + [step])
            == Replaced(s, steps) + ReplacedBy(Run(s, steps).value, step)
    decreases |steps|
  {
    if steps == [] {
      assert [] + [step] == [step] && [step][1..] == [];
    } else {
      assert (steps + [step])[1..] == steps[1..] + [step];
      ReplacedSnoc(Do(s, steps[0]).value, steps[1..], step);
      Reassociate(ReplacedBy(s, steps[0]), Replaced(Do(s, steps[0]).value, steps[1..]),
                  ReplacedBy(Run(s, steps).value, step));
    }
  }

  /**
   Over any run, what all its channels accepted is, as often for every message, what the writers that have
   sent were called with: no message of Write's is accepted twice, or in the place of another.
   */
  lemma {:induction false} AcceptedIsSent(steps: seq<Step>, m: Msg)
    requires Run(Initial(), steps).Some?
    ensures var s := Run(Initial(), steps).value;
            && Times(Replaced(Initial(), steps), m) + Times(AcceptedNow(s), m) == Sent(s.writers, m)
            && WritersAre(s, Calls(steps))
    decreases |steps|
  {
    if steps != [] {
      var n := |steps| - 1;
      assert steps == steps[..n] + [steps[n]];
      RunPrefix(Initial(), steps, n);
      AcceptedIsSent(steps[..n], m);
      RunSnoc(Initial(), steps[..n], steps[n]);
      OneMoreStep(steps[..n], steps[n], m);
    }
  }

  lemma OneMoreStep(steps: seq<Step>, step: Step, m: Msg)
    requires Run(Initial(), steps).Some? && Run(Initial(), steps + [step]).Some?
    requires Run(Initial(), steps + [step]) == Do(Run(Initial(), steps).value, step)
    requires var s := Run(Initial(), steps).value;
             && Times(Replaced(Initial(), steps), m) + Times(AcceptedNow(s), m) == Sent(s.writers, m)
             && WritersAre(s, Calls(steps))
    ensures var s := Run(Initial(), steps + [step]).value;
            && Times(Replaced(Initial(), steps + [step]), m) + Times(AcceptedNow(s), m) == Sent(s.writers, m)
            && WritersAre(s, Calls(steps + [step]))
  {
    var s := Run(Initial(), steps).value;
    StepAccount(s, step, m);
    StepCalls(s, step, Calls(steps));
    assert (steps + [step])[..|steps|] == steps;
    ReplacedSnoc(Initial(), steps, step);
    TimesAppend(Replaced(Initial(), steps), ReplacedBy(s, step), m);
  }

  lemma {:induction false} SentAreCalls(ws: seq<Writer>, ms: seq<Msg>, m: Msg)
    requires |ws| == |ms| && forall i | 0 <= i < |ms| :: ws[i].m == ms[i]
    ensures Sent(ws, m) <= Times(ms, m)
  {
    if ws != [] {
      var n := |ws| - 1;
      SentAreCalls(ws[..n], ms[..n], m);
      assert ms == ms[..n] + [ms[n]];
      TimesOne(ms[..n], ms[n], m);
    }
  }

  /** The channel has accepted no message more often than writers have sent it, nor they than Write was called. */
  lemma AcceptedWasWritten(steps: seq<Step>, m: Msg)
    requires Run(Initial(), steps).Some?
    ensures var s := Run(Initial(), steps).value;
            Times(AcceptedNow(s), m) <= Sent(s.writers, m) <= Times(Calls(steps), m)
  {
    AcceptedIsSent(steps, m);
    SentAreCalls(Run(Initial(), steps).value.writers, Calls(steps), m);
  }

  /** While the channel is the same one it forgets nothing: what was accepted earlier comes first. */
  lemma {:induction false} AcceptedGrows(s: State, steps: seq<Step>)
    requires Run(s, steps).Some? && forall step | step in steps :: !Replaces(step)
    ensures AcceptedNow(s) <= AcceptedNow(Run(s, steps).value)
    decreases |steps|
  {
    if steps != [] {
      var s' := Do(s, steps[0]).value;
      assert steps[0] in steps && forall step | step in steps[1..] :: step in steps;
      AcceptsWhatIsSent(s, steps[0], 0);
      if i: nat :| Sends(s, s', i) { AcceptsWhatIsSent(s, steps[0], i); }
      AcceptedGrows(s', steps[1..]);
    }
  }

  // ----- Connect and Disconnect, stage by stage -----

  /**
   Connect first lets a Disconnect of its own run to its end; a failed dial calls Disconnect once more; a
   successful one is followed by a new connection and a new, empty and open channel.
   */
  lemma {:induction false} ConnectMoves(s: State)
    requires !s.crashed
    ensures Do(s, CCall).Some? <==> s.connecting.Idle?
    ensures s.connecting.Idle? ==>
              Do(s, CCall).value == s.(connecting := Clearing(|s.discons|), discons := s.discons + [DBefore])
    ensures forall ok :: Do(s, CDial(ok)).Some? <==>
              s.connecting.Clearing? && s.connecting.d < |s.discons| && s.discons[s.connecting.d].DDone?
    ensures Do(s, CDial(true)).Some? ==> Do(s, CDial(true)).value == s.(connecting := Dialled)
    ensures Do(s, CDial(false)).Some? ==>
              Do(s, CDial(false)).value == s.(connecting := Idle, discons := s.discons + [DBefore])
    ensures s.connecting.Dialled? ==>
              && Do(s, CAssign) == Some(s.(conn := Some(s.made), made := s.made + 1,
                                           chan := Some(Chan(true, [], [])), connecting := Idle))
              && Do(s, CConn) == Some(s.(conn := Some(s.made), made := s.made + 1, connecting := Halfway))
    ensures s.connecting.Halfway? ==> Do(s, CChan) == Some(s.(chan := Some(Chan(true, [], [])), connecting := Idle))
  {}

  /**
   Disconnect waits until nobody holds the mutex, in either way; without a connection it ends there; with one
   it takes it away, closes the channel, and emits one event as it ends.
   */
  lemma {:induction false} DisconnectMoves(s: State, i: nat)
    requires !s.crashed && i < |s.discons|
    ensures s.discons[i].DBefore? ==>
              Do(s, DLock(i)) == if s.holder.None? && (forall w | w in s.writers :: !w.WInside? && !w.WSending?)
                                 then Some(s.(discons := s.discons[i := DInside], holder := Some(i))) else None
    ensures s.discons[i].DInside? ==>
              Do(s, DCheck(i)) == if s.conn.None? then Some(s.(discons := s.discons[i := DDone], holder := None))
                                  else Some(s.(discons := s.discons[i := DClosing]))
    ensures s.discons[i].DClosing? ==>
              Do(s, DSetNil(i)) == Some(s.(discons := s.discons[i := DNil], conn := None))
    ensures s.discons[i].DNil? && IsOpen(s) ==>
              Do(s, DClose(i)) == Some(s.(discons := s.discons[i := DClosed],
                                          chan := Some(s.chan.value.(open := false))))
    ensures s.discons[i].DClosed? ==>
              Do(s, DEmit(i)) == Some(s.(discons := s.discons[i := DDone], holder := None, events := s.events + 1))
  {}

  // ----- panics -----

  /**
   In a state with these invariants a step panics exactly when it falls between the two assignments of a
   Connect: a close of the old channel, or a send on it if it is not nil.
   */
  lemma {:induction false} CrashIff(s: State, step: Step)
    requires Inv(s) && Do(s, step).Some?
    ensures Do(s, step).value.crashed <==>
            s.connecting.Halfway? && (step.DClose? || (step.WSend? && s.chan.Some?))
  {
    match step {
      case WSend(i) => assert GoodWriter(s, i);
      case DClose(i) => assert GoodDiscon(s, i);
      case _ =>
    }
  }

  /** A Write that passed its check blocks for ever exactly between the two assignments of the first Connect. */
  lemma {:induction false} BlockedIff(s: State, i: nat)
    requires Inv(s) && !s.crashed && i < |s.writers| && s.writers[i].WSending?
    ensures s.connecting.Halfway? || IsOpen(s)
    ensures Do(s, WSend(i)).None? <==> s.chan.None? || (s.chan.value.open && |s.chan.value.queue| == 5)
    ensures s.chan.None? ==> s.connecting.Halfway?
  {
    assert GoodWriter(s, i);
  }

  // ----- whole runs -----

  predicate Split(step: Step) { step.CConn? || step.CChan? }

  lemma {:induction false} RunKeepsInv(s: State, steps: seq<Step>)
    requires Inv(s) && !s.crashed && Run(s, steps).Some?
    ensures !Run(s, steps).value.crashed ==> Inv(Run(s, steps).value)
    decreases |steps|
  {
    if steps != [] {
      var s' := Do(s, steps[0]).value;
      if s'.crashed {
        CrashedEnds(s', steps[1..]);
      } else {
        StepKeepsInv(s, steps[0]);
        RunKeepsInv(s', steps[1..]);
      }
    }
  }

  /** Without separate assignments there is no window, so nothing panics. */
  lemma {:induction false} RunIsSafe(s: State, steps: seq<Step>)
    requires Inv(s) && !s.crashed && Run(s, steps).Some?
    requires !s.connecting.Halfway? && forall step | step in steps :: !Split(step)
    ensures !Run(s, steps).value.crashed && !Run(s, steps).value.connecting.Halfway?
    decreases |steps|
  {
    if steps != [] {
      CrashIff(s, steps[0]);
      StepKeepsInv(s, steps[0]);
      assert steps[0] in steps && forall step | step in steps[1..] :: step in steps;
      RunIsSafe(Do(s, steps[0]).value, steps[1..]);
    }
  }

  lemma CrashedEnds(s: State, steps: seq<Step>)
    requires s.crashed && Run(s, steps).Some?
    ensures steps == []
  {}

  /**
   With every Connect's assignments taken as one step, in every reachable state: nothing has panicked, so no
   send and no close met a closed channel; whenever no Disconnect is between its assignment and its close,
   conn is nil exactly when the channel is closed or was never made; and when no Disconnect is part-way,
   the DisconnectedEvents number the connections made but for the one still open.
   */
  lemma AtomicConnects(steps: seq<Step>)
    requires Run(Initial(), steps).Some? && forall step | step in steps :: !Split(step)
    ensures var s := Run(Initial(), steps).value;
            && !s.crashed
            && (!Held(s).DNil? ==> (s.conn.None? <==> !IsOpen(s)))
            && (!Held(s).DNil? && !Held(s).DClosed? ==> s.events == s.made - Connections(s))
            && (forall i: nat | i < |s.writers| && s.writers[i].WSending? :: IsOpen(s))
  {
    InitialInv();
    RunKeepsInv(Initial(), steps);
    RunIsSafe(Initial(), steps);
    OutsideTheWindow(Run(Initial(), steps).value);
  }

  lemma OutsideTheWindow(s: State)
    requires Inv(s) && !s.crashed && !s.connecting.Halfway?
    ensures !Held(s).DNil? ==> (s.conn.None? <==> !IsOpen(s))
    ensures !Held(s).DNil? && !Held(s).DClosed? ==> s.events == s.made - Connections(s)
    ensures forall i: nat | i < |s.writers| && s.writers[i].WSending? :: IsOpen(s)
  {
    forall i: nat | i < |s.writers| && s.writers[i].WSending? ensures IsOpen(s) {
      BlockedIff(s, i);
    }
  }

  /** With the assignments apart, a run panics exactly in a step between them, and keeps its invariants until then. */
  lemma SplitConnects(steps: seq<Step>, step: Step)
    requires Run(Initial(), steps).Some? && Do(Run(Initial(), steps).value, step).Some?
    ensures var s := Run(Initial(), steps).value;
            && Inv(s)
            && (Do(s, step).value.crashed <==>
                  s.connecting.Halfway? && (step.DClose? || (step.WSend? && s.chan.Some?)))
  {
    InitialInv();
    RunKeepsInv(Initial(), steps);
    CrashIff(Run(Initial(), steps).value, step);
  }

  // ----- the window is real -----

  /** Reached from s by some run. */
  ghost predicate Reaches(s: State, s': State) { exists steps :: Run(s, steps) == Some(s') }

  lemma Reach(s: State, mid: State, step: Step, s': State)
    requires Reaches(s, mid) && Do(mid, step) == Some(s')
    ensures Reaches(s, s')
  {
    var steps :| Run(s, steps) == Some(mid);
    RunSnoc(s, steps, step);
  }

  lemma ReachSelf(s: State)
    ensures Reaches(s, s)
  {
    assert Run(s, []) == Some(s);
  }

  /**
   Any Write that comes in between the assignments of a reconnection, with nothing else holding the mutex
   and no Disconnect part-way, can run to its send, and panics there.
   */
  lemma WindowPanics(s: State, m: Msg)
    requires Inv(s) && !s.crashed && s.connecting.Halfway? && s.chan.Some? && s.holder.None?
    ensures exists s' :: Reaches(s, s') && s'.crashed
  {
    var i := |s.writers|;
    ReachSelf(s);
    var s1 := s.(writers := s.writers + [WBefore(m)]);
    Reach(s, s, WCall(m), s1);
    var s2 := s.(writers := s.writers + [WInside(m)]);
    assert s1.writers[i := WInside(m)] == s2.writers;
    Reach(s, s1, WLock(i), s2);
    var s3 := s.(writers := s.writers + [WSending(m)]);
    assert s2.writers[i := WSending(m)] == s3.writers;
    Reach(s, s2, WCheck(i), s3);
    Reach(s, s3, WSend(i), Crash(s3));
  }

  /** A Connect up to its assignments, from a state with no connection. */
  lemma ReachDialled(s0: State, s: State)
    requires Reaches(s0, s) && !s.crashed && s.conn.None? && s.holder.None? && s.writers == [] && s.connecting.Idle?
    ensures Reaches(s0, s.(connecting := Dialled, discons := s.discons + [DDone]))
  {
    var i := |s.discons|;
    var s1 := s.(connecting := Clearing(i), discons := s.discons + [DBefore]);
    Reach(s0, s, CCall, s1);
    var s2 := s1.(discons := s.discons + [DInside], holder := Some(i));
    assert s1.discons[i := DInside] == s2.discons;
    Reach(s0, s1, DLock(i), s2);
    var s3 := s1.(discons := s.discons + [DDone]);
    assert s2.discons[i := DDone] == s3.discons;
    Reach(s0, s2, DCheck(i), s3);
    Reach(s0, s3, CDial(true), s3.(connecting := Dialled));
  }

  /** A whole Disconnect of a connected client. */
  lemma ReachDisconnected(s0: State, s: State)
    requires Reaches(s0, s) && !s.crashed && s.conn.Some? && s.holder.None? && s.writers == [] && IsOpen(s)
    ensures Reaches(s0, s.(conn := None, chan := Some(s.chan.value.(open := false)), events := s.events + 1,
                           discons := s.discons + [DDone]))
  {
    var i := |s.discons|;
    var s1 := s.(discons := s.discons + [DBefore]);
    Reach(s0, s, DCall, s1);
    var s2 := s.(discons := s.discons + [DInside], holder := Some(i));
    assert s1.discons[i := DInside] == s2.discons;
    Reach(s0, s1, DLock(i), s2);
    var s3 := s2.(discons := s.discons + [DClosing]);
    assert s2.discons[i := DClosing] == s3.discons;
    Reach(s0, s2, DCheck(i), s3);
    var s4 := s2.(discons := s.discons + [DNil], conn := None);
    assert s3.discons[i := DNil] == s4.discons;
    Reach(s0, s3, DSetNil(i), s4);
    var s5 := s4.(discons := s.discons + [DClosed], chan := Some(s.chan.value.(open := false)));
    assert s4.discons[i := DClosed] == s5.discons;
    Reach(s0, s4, DClose(i), s5);
    var s6 := s5.(discons := s.discons + [DDone], holder := None, events := s.events + 1);
    assert s5.discons[i := DDone] == s6.discons;
    Reach(s0, s5, DEmit(i), s6);
  }

  /** Connected, disconnected, and reconnecting with the channel not yet replaced. */
  function Window(): State {
    State(Some(1), Some(Chan(false, [], [])), None, [], ([DDone] + [DDone]) + [DDone], Halfway, false, 2, 1)
  }

  /** That state is reached from the start, so a Write really can panic. */
  lemma WindowIsReached(m: Msg)
    ensures Reaches(Initial(), Window())
    ensures Inv(Window()) && exists s :: Reaches(Window(), s) && s.crashed
  {
    ConnectedOnce();
    var s0 := Initial();
    var s2 := s0.(conn := Some(0), chan := NewChan(), made := 1, discons := [DDone]);
    ReachDisconnected(s0, s2);
    var s3 := s2.(conn := None, chan := Some(Chan(false, [], [])), events := 1, discons := [DDone] + [DDone]);
    ReachDialled(s0, s3);
    var s4 := s3.(connecting := Dialled, discons := ([DDone] + [DDone]) + [DDone]);
    Reach(s0, s4, CConn, Window());
    WindowPanics(Window(), m);
  }

  lemma ConnectedOnce()
    ensures Reaches(Initial(), Initial().(conn := Some(0), chan := NewChan(), made := 1, discons := [DDone]))
  {
    var s0 := Initial();
    ReachSelf(s0);
    ReachDialled(s0, s0);
    var s1 := s0.(connecting := Dialled, discons := [DDone]);
    assert s0.discons + [DDone] == [DDone];
    Reach(s0, s1, CAssign, s1.(conn := Some(0), chan := NewChan(), made := 1, connecting := Idle));
  }
}
