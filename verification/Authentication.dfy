/**
 Authentication.call and HandlePacket as interleaved steps. A step is what one goroutine does between two
 points where another may run: one critical section under the mutex, one channel operation, one atomic add.
 */
module Authentication {
  import opened Basics
  import opened Headers
  import opened Packets

  const SERVICE_METHOD_RESPONSE := 147

  /** A call of call(): its result is None after a timeout. */
  datatype Stage = GotId | Inserted | Waiting | Leaving(result: Option<Packet>) | Returned(result: Option<Packet>)

  /**
   buf is the call's channel, which holds one packet. The last two fields are history: which id in the
   order of issue the call got, and every packet that was offered to its channel.
   */
  datatype Call = Call(job: nat, stage: Stage, buf: Option<Packet>, issue: nat, offers: seq<Packet>)

  /** A call of HandlePacket: before the lookup, holding the channel of a call, or finished. */
  datatype Lookup = Start | Found(call: nat) | Finished

  datatype Handler = Handler(p: Packet, at: Lookup)

  /** issued is history: how many ids GetNextJobId has handed out. */
  datatype State = State(currentJobId: nat, issued: nat, pending: map<int, nat>, calls: seq<Call>,
                         handlers: seq<Handler>)

  function Initial(): State { State(0, 0, map[], [], []) }

  datatype Step =
    | OtherIssue          // GetNextJobId, called by anyone else
    | Begin               // call: GetNextJobId, make(chan)
    | Insert(i: nat)      // pending[jobID] = ch
    | Send(i: nat)        // sendNoStamp
    | Receive(i: nat)     // packet := <-ch
    | Timeout(i: nat)     // time.After fired; also chosen when a packet is there
    | Delete(i: nat)      // the deferred delete
    | Arrive(p: Packet)   // HandlePacket is called
    | LookUp(h: nat)      // pending[packet.TargetJobId]
    | Offer(h: nat)       // the select with a default

  /** atomic.AddUint64. */
  function NextId(current: nat): nat { (current + 1) % TWO64 }

  function Update(s: State, i: nat, c: Call): State
    requires i < |s.calls|
  {
    s.(calls := s.calls[i := c])
  }

  function AtStage(s: State, i: nat): Option<Stage> { if i < |s.calls| then Some(s.calls[i].stage) else None }

  /** What a step does; None where it cannot be taken. */
  function Do(s: State, step: Step): Option<State> {
    match step
    case OtherIssue => Some(s.(currentJobId := NextId(s.currentJobId), issued := s.issued + 1))
    case Begin =>
      var id := NextId(s.currentJobId);
      Some(s.(currentJobId := id, issued := s.issued + 1, calls := s.calls + [Call(id, GotId, None, s.issued, [])]))
    case Insert(i) => if AtStage(s, i) == Some(GotId) then Some(DoInsert(s, i)) else None
    case Send(i) => if AtStage(s, i) == Some(Inserted) then Some(Update(s, i, s.calls[i].(stage := Waiting))) else None
    case Receive(i) =>
      if AtStage(s, i) == Some(Waiting) && s.calls[i].buf.Some?
      then Some(Update(s, i, s.calls[i].(stage := Leaving(s.calls[i].buf), buf := None))) else None
    case Timeout(i) =>
      if AtStage(s, i) == Some(Waiting) then Some(Update(s, i, s.calls[i].(stage := Leaving(None)))) else None
    case Delete(i) => if i < |s.calls| && s.calls[i].stage.Leaving? then Some(DoDelete(s, i)) else None
    case Arrive(p) => Some(s.(handlers := s.handlers + [Handler(p, Start)]))
    case LookUp(h) => if h < |s.handlers| && s.handlers[h].at.Start? then Some(DoLookUp(s, h)) else None
    case Offer(h) => if h < |s.handlers| && s.handlers[h].at.Found? then DoOffer(s, h) else None
  }

  function DoInsert(s: State, i: nat): State
    requires i < |s.calls|
  {
    Update(s.(pending := s.pending[s.calls[i].job := i]), i, s.calls[i].(stage := Inserted))
  }

  function DoDelete(s: State, i: nat): State
    requires i < |s.calls| && s.calls[i].stage.Leaving?
  {
    Update(s.(pending := s.pending - {s.calls[i].job}), i, s.calls[i].(stage := Returned(s.calls[i].stage.result)))
  }

  function DoLookUp(s: State, h: nat): State
    requires h < |s.handlers|
  {
    var p := s.handlers[h].p;
    var at := if p.emsg == SERVICE_METHOD_RESPONSE && p.target in s.pending
              then Found(s.pending[p.target]) else Finished;
    s.(handlers := s.handlers[h := Handler(p, at)])
  }

  function DoOffer(s: State, h: nat): Option<State>
    requires h < |s.handlers| && s.handlers[h].at.Found?
  {
    var p, i := s.handlers[h].p, s.handlers[h].at.call;
    if i >= |s.calls| then None else
      var c := s.calls[i];
      var c' := c.(buf := if c.buf.None? then Some(p) else c.buf, offers := c.offers + [p]);
      Some(Update(s.(handlers := s.handlers[h := Handler(p, Finished)]), i, c'))
  }

  function Run(s: State, steps: seq<Step>): Option<State>
    decreases |steps|
  {
    if steps == [] then Some(s)
    else match Do(s, steps[0]) case Some(s') => Run(s', steps[1..]) case None => None
  }

  // ----- job ids -----

  /** The id handed out as number n, counting from 0. */
  function IdOf(n: nat): nat { (n + 1) % TWO64 }

  lemma {:induction false} SameIdIff(m: nat, n: nat)
    requires m <= n
    ensures IdOf(m) == IdOf(n) <==> (n - m) % TWO64 == 0
  {}

  // ----- what every step keeps -----

  predicate Live(c: Call) { !c.stage.GotId? && !c.stage.Returned? }

  predicate Reading(c: Call) { c.stage.GotId? || c.stage.Inserted? || c.stage.Waiting? }

  function First(ps: seq<Packet>): Option<Packet> { if ps == [] then None else Some(ps[0]) }

  predicate ForJob(p: Packet, job: nat) { p.emsg == SERVICE_METHOD_RESPONSE && p.target == job }

  /** One call's channel and result agree with what was offered to it. */
  predicate GoodCall(c: Call) {
    && c.job == IdOf(c.issue)
    && (forall k | 0 <= k < |c.offers| :: ForJob(c.offers[k], c.job))
    && (Reading(c) ==> c.buf == First(c.offers))
    && ((c.stage.Leaving? || c.stage.Returned?) && c.stage.result.Some? ==> c.stage.result == First(c.offers))
  }

  predicate GoodHandler(s: State, h: Handler) {
    h.at.Found? ==> h.at.call < |s.calls| && ForJob(h.p, s.calls[h.at.call].job)
  }

  predicate GoodEntry(s: State, k: int) {
    k in s.pending ==> s.pending[k] < |s.calls| && s.calls[s.pending[k]].job == k
  }

  /** The id and its place in the order of issue. */
  predicate GoodIssue(s: State, i: nat) {
    && (i < |s.calls| ==> GoodCall(s.calls[i]) && s.calls[i].issue < s.issued)
    && (0 < i < |s.calls| ==> s.calls[i - 1].issue < s.calls[i].issue)
  }

  /** What holds whatever number of ids was issued. */
  ghost predicate Inv(s: State) {
    && s.currentJobId == s.issued % TWO64
    && (forall i: nat :: GoodIssue(s, i))
    && (forall h: nat :: h < |s.handlers| ==> GoodHandler(s, s.handlers[h]))
    && (forall k :: GoodEntry(s, k))
  }

  predicate Registered(s: State, i: nat) {
    i < |s.calls| && Live(s.calls[i]) ==> s.calls[i].job in s.pending && s.pending[s.calls[i].job] == i
  }

  predicate Owned(s: State, k: int) {
    k in s.pending ==> s.pending[k] < |s.calls| && Live(s.calls[s.pending[k]])
  }

  /** pending holds exactly the calls between their insert and their delete, each under its own id. */
  ghost predicate PendingExact(s: State) {
    (forall i: nat :: Registered(s, i)) && (forall k :: Owned(s, k))
  }

  /** No step changes a call's id, and every step keeps its channel and result in order. */
  lemma {:induction false} StepKeepsCall(s: State, step: Step, i: nat)
    requires Do(s, step).Some? && i < |s.calls| && GoodIssue(s, i)
    requires step.Offer? ==> GoodHandler(s, s.handlers[step.h])
    ensures var s' := Do(s, step).value;
            i < |s'.calls| && GoodCall(s'.calls[i])
            && s'.calls[i].job == s.calls[i].job && s'.calls[i].issue == s.calls[i].issue
  {}

  lemma {:induction false} StepKeepsIssues(s: State, step: Step, i: nat)
    requires Inv(s) && Do(s, step).Some?
    ensures GoodIssue(Do(s, step).value, i)
  {
    assert GoodIssue(s, i);
    if i < |s.calls| {
      StepKeepsCall(s, step, i);
      if i > 0 { StepKeepsCall(s, step, i - 1); }
    } else if i == |s.calls| && step.Begin? {
      NewIssue(s);
    }
  }

  lemma NewIssue(s: State)
    requires Inv(s)
    ensures GoodIssue(Do(s, Begin).value, |s.calls|)
  {
    if |s.calls| > 0 { assert GoodIssue(s, |s.calls| - 1); }
    var c := Do(s, Begin).value.calls[|s.calls|];
    assert c.job == (s.issued % TWO64 + 1) % TWO64 == (s.issued + 1) % TWO64;
  }

  lemma {:induction false} StepKeepsHandler(s: State, step: Step, h: nat)
    requires Inv(s) && Do(s, step).Some? && h < |Do(s, step).value.handlers|
    ensures GoodHandler(Do(s, step).value, Do(s, step).value.handlers[h])
  {
    var s' := Do(s, step).value;
    if s'.handlers[h].at.Found? {
      if step == LookUp(h) {
        assert GoodEntry(s, s.handlers[h].p.target);
      } else {
        var i := s.handlers[h].at.call;
        assert GoodHandler(s, s.handlers[h]) && GoodIssue(s, i);
        StepKeepsCall(s, step, i);
      }
    }
  }

  lemma {:induction false} StepKeepsEntry(s: State, step: Step, k: int)
    requires Inv(s) && Do(s, step).Some?
    ensures GoodEntry(Do(s, step).value, k)
  {
    assert GoodEntry(s, k);
    if k in s.pending {
      assert GoodIssue(s, s.pending[k]);
      StepKeepsCall(s, step, s.pending[k]);
    }
  }

  lemma {:induction false} StepKeepsInv(s: State, step: Step)
    requires Inv(s) && Do(s, step).Some?
    ensures Inv(Do(s, step).value) && s.issued <= Do(s, step).value.issued
  {
    var s' := Do(s, step).value;
    forall i: nat ensures GoodIssue(s', i) { StepKeepsIssues(s, step, i); }
    forall h: nat | h < |s'.handlers| ensures GoodHandler(s', s'.handlers[h]) { StepKeepsHandler(s, step, h); }
    forall k ensures GoodEntry(s', k) { StepKeepsEntry(s, step, k); }
  }

  lemma {:induction false} IssuesIncrease(s: State, i: nat, j: nat)
    requires Inv(s) && i < j < |s.calls|
    ensures s.calls[i].issue < s.calls[j].issue
    decreases j
  {
    assert GoodIssue(s, j);
    if i < j - 1 { IssuesIncrease(s, i, j - 1); }
  }

  /** The step inserts an id that a live call holds. */
  predicate Clashes(s: State, step: Step) {
    step.Insert? && step.i < |s.calls| &&
    exists j | 0 <= j < |s.calls| :: j != step.i && Live(s.calls[j]) && s.calls[j].job == s.calls[step.i].job
  }

  /** A step keeps the pending map exact if and only if it inserts no id that a live call holds. */
  lemma {:induction false} StepKeepsPendingIff(s: State, step: Step)
    requires Inv(s) && PendingExact(s) && Do(s, step).Some?
    ensures PendingExact(Do(s, step).value) <==> !Clashes(s, step)
  {
    var s' := Do(s, step).value;
    if Clashes(s, step) {
      var j :| 0 <= j < |s.calls| && j != step.i && Live(s.calls[j]) && s.calls[j].job == s.calls[step.i].job;
      assert !Registered(s', j);
    } else {
      forall i: nat ensures Registered(s', i) {
        assert Registered(s, i);
        if step.Delete? { assert Registered(s, step.i); }
      }
      forall k ensures Owned(s', k) { assert Owned(s, k) && GoodEntry(s, k); }
    }
  }

  lemma {:induction false} StepKeepsPending(s: State, step: Step)
    requires Inv(s) && PendingExact(s) && Do(s, step).Some? && Do(s, step).value.issued <= TWO64
    ensures !Clashes(s, step) && PendingExact(Do(s, step).value)
  {
    DistinctJobs(s);
    StepKeepsPendingIff(s, step);
  }

  /** While the map is exact, a response is led to the live call of its id, if there is one. */
  lemma LookUpFinds(s: State, h: nat, i: nat)
    requires Inv(s) && PendingExact(s) && Do(s, LookUp(h)).Some? && i < |s.calls|
    ensures Do(s, LookUp(h)).value.handlers[h].at == Found(i) <==>
            Live(s.calls[i]) && s.handlers[h].p.emsg == 147 && s.handlers[h].p.target == s.calls[i].job
  {
    assert Registered(s, i) && GoodEntry(s, s.handlers[h].p.target) && Owned(s, s.handlers[h].p.target);
  }

  /** Ids are distinct as long as no more than 2^64 were issued. */
  lemma DistinctJobs(s: State)
    requires Inv(s) && s.issued <= TWO64
    ensures forall i, j | 0 <= i < j < |s.calls| :: s.calls[i].job != s.calls[j].job
  {
    forall i, j | 0 <= i < j < |s.calls| ensures s.calls[i].job != s.calls[j].job {
      IssuesIncrease(s, i, j);
      assert GoodIssue(s, i) && GoodIssue(s, j);
      SameIdIff(s.calls[i].issue, s.calls[j].issue);
    }
  }

  lemma {:induction false} RunKeepsInv(s: State, steps: seq<Step>)
    requires Inv(s) && Run(s, steps).Some?
    ensures Inv(Run(s, steps).value) && Run(s, steps).value.issued >= s.issued
    ensures PendingExact(s) && Run(s, steps).value.issued <= TWO64 ==> PendingExact(Run(s, steps).value)
    decreases |steps|
  {
    if steps != [] {
      StepKeepsInv(s, steps[0]);
      var s' := Do(s, steps[0]).value;
      RunKeepsInv(s', steps[1..]);
      if PendingExact(s) && Run(s, steps).value.issued <= TWO64 {
        StepKeepsPending(s, steps[0]);
      }
    }
  }

  ghost predicate AlwaysExact(s: State, steps: seq<Step>)
    requires Run(s, steps).Some?
    decreases |steps|
  {
    PendingExact(s) && (steps == [] || AlwaysExact(Do(s, steps[0]).value, steps[1..]))
  }

  predicate NoClash(s: State, steps: seq<Step>)
    requires Run(s, steps).Some?
    decreases |steps|
  {
    steps == [] || (!Clashes(s, steps[0]) && NoClash(Do(s, steps[0]).value, steps[1..]))
  }

  /** Along any run the map stays exact if and only if no id is inserted while a live call holds it. */
  lemma {:induction false} AlwaysExactIff(s: State, steps: seq<Step>)
    requires Inv(s) && PendingExact(s) && Run(s, steps).Some?
    ensures AlwaysExact(s, steps) <==> NoClash(s, steps)
    decreases |steps|
  {
    if steps != [] {
      StepKeepsPendingIff(s, steps[0]);
      StepKeepsInv(s, steps[0]);
      if !Clashes(s, steps[0]) { AlwaysExactIff(Do(s, steps[0]).value, steps[1..]); }
    }
  }

  // ----- nothing waits for ever -----

  /**
   An offer never blocks: whatever the channel holds, the handler finishes; the packet stays in the channel if
   that was empty and is dropped if it was full; and nothing else changes.
   */
  lemma {:induction false} OfferFinishes(s: State, h: nat)
    requires Inv(s) && h < |s.handlers| && s.handlers[h].at.Found?
    ensures var p, i := s.handlers[h].p, s.handlers[h].at.call;
            && Do(s, Offer(h)).Some? && i < |s.calls|
            && var s' := Do(s, Offer(h)).value;
            && s'.handlers == s.handlers[h := Handler(p, Finished)] && s'.pending == s.pending
            && |s'.calls| == |s.calls| && s'.calls[i].stage == s.calls[i].stage
            && s'.calls[i].buf == (if s.calls[i].buf.None? then Some(p) else s.calls[i].buf)
            && forall j | 0 <= j < |s.calls| && j != i :: s'.calls[j] == s.calls[j]
  {
    assert GoodHandler(s, s.handlers[h]);
  }

  /** A handler that has a service-method response looks up its target job, any other finishes at once. */
  lemma {:induction false} HandlerLooks(s: State, h: nat)
    requires h < |s.handlers| && s.handlers[h].at.Start?
    ensures var p := s.handlers[h].p;
            Do(s, LookUp(h)) == Some(s.(handlers := s.handlers[h := Handler(p,
              if p.emsg == 147 && p.target in s.pending then Found(s.pending[p.target]) else Finished)]))
  {}

  /** A new call gets the id of the next number, and nobody else's state changes. */
  lemma CallBegins(s: State)
    requires Inv(s)
    ensures var id := (s.issued + 1) % 0x1_0000_0000_0000_0000;
            Do(s, Begin) == Some(s.(currentJobId := id, issued := s.issued + 1,
                                    calls := s.calls + [Call(id, GotId, None, s.issued, [])]))
  {
    assert (s.issued % TWO64 + 1) % TWO64 == (s.issued + 1) % TWO64;
  }

  /** A handler that has not finished does so in its next two steps at most, in whatever state it is left. */
  lemma HandlerFinishes(s: State, h: nat)
    requires Inv(s) && h < |s.handlers| && !s.handlers[h].at.Finished?
    ensures var one := Do(s, if s.handlers[h].at.Start? then LookUp(h) else Offer(h));
            && one.Some? && |one.value.handlers| == |s.handlers|
            && (one.value.handlers[h].at.Finished? ||
                (Do(one.value, Offer(h)).Some? && |Do(one.value, Offer(h)).value.handlers| == |s.handlers|
                 && Do(one.value, Offer(h)).value.handlers[h] == Handler(s.handlers[h].p, Finished)))
  {
    if s.handlers[h].at.Start? {
      StepKeepsInv(s, LookUp(h));
      var s' := Do(s, LookUp(h)).value;
      if s'.handlers[h].at.Found? { OfferFinishes(s', h); }
    } else {
      OfferFinishes(s, h);
    }
  }

  /**
   A call goes from stage to stage: it enters itself under its id, sends, and waits; it leaves with what its
   channel holds, as soon as that is something, or at any time without anything; it deletes the entry of its id
   and returns that.
   */
  lemma {:induction false} CallMoves(s: State, i: nat)
    requires i < |s.calls|
    ensures var c := s.calls[i];
            match c.stage
            case GotId => Do(s, Insert(i)) ==
              Some(s.(pending := s.pending[c.job := i], calls := s.calls[i := c.(stage := Inserted)]))
            case Inserted => Do(s, Send(i)) == Some(s.(calls := s.calls[i := c.(stage := Waiting)]))
            case Waiting =>
              && Do(s, Timeout(i)) == Some(s.(calls := s.calls[i := c.(stage := Leaving(None))]))
              && Do(s, Receive(i)) == (if c.buf.None? then None else
                   Some(s.(calls := s.calls[i := c.(stage := Leaving(c.buf), buf := None)])))
            case Leaving(r) => Do(s, Delete(i)) ==
              Some(s.(pending := s.pending - {c.job}, calls := s.calls[i := c.(stage := Returned(r))]))
            case Returned(_) => true
  {}

  // ----- whole runs -----

  lemma InitialInv()
    ensures Inv(Initial()) && PendingExact(Initial())
  {}

  /** The packets that HandlePacket tried to hand over for an id, in order, duplicates and all. */
  function Delivered(s: State, steps: seq<Step>, job: nat): seq<Packet>
    requires Run(s, steps).Some?
    decreases |steps|
  {
    if steps == [] then [] else DeliveredBy(s, steps[0], job) + Delivered(Do(s, steps[0]).value, steps[1..], job)
  }

  function DeliveredBy(s: State, step: Step, job: nat): seq<Packet>
    requires Do(s, step).Some?
  {
    if step.Offer? && s.handlers[step.h].p.target == job then [s.handlers[step.h].p] else []
  }

  /** What was offered to a call in a step is what was delivered for its id. */
  lemma {:induction false} StepOffers(s: State, step: Step, i: nat)
    requires Inv(s) && Do(s, step).Some? && s.issued <= TWO64 && i < |s.calls|
    ensures Do(s, step).value.calls[i].offers == s.calls[i].offers + DeliveredBy(s, step, s.calls[i].job)
  {
    if step.Offer? {
      var j := s.handlers[step.h].at.call;
      assert GoodHandler(s, s.handlers[step.h]);
      DistinctJobs(s);
      assert j != i ==> s.calls[j].job != s.calls[i].job;
    }
  }

  /** Nothing is delivered for an id before the call that will own it has begun. */
  lemma {:induction false} NothingEarly(s: State, step: Step, job: nat)
    requires Inv(s) && Do(s, step).Some? && forall j | 0 <= j < |s.calls| :: s.calls[j].job != job
    ensures DeliveredBy(s, step, job) == []
  {
    if step.Offer? { assert GoodHandler(s, s.handlers[step.h]); }
  }

  lemma {:induction false} RunKeepsJobs(s: State, steps: seq<Step>, i: nat)
    requires Inv(s) && Run(s, steps).Some? && i < |s.calls|
    ensures i < |Run(s, steps).value.calls| && Run(s, steps).value.calls[i].job == s.calls[i].job
    decreases |steps|
  {
    if steps != [] {
      StepKeepsInv(s, steps[0]);
      assert GoodIssue(s, i) && (steps[0].Offer? ==> GoodHandler(s, s.handlers[steps[0].h]));
      StepKeepsCall(s, steps[0], i);
      RunKeepsJobs(Do(s, steps[0]).value, steps[1..], i);
    }
  }

  /** Along a run, a call is offered exactly what is delivered for its id. */
  lemma {:induction false} RunOffers(s: State, steps: seq<Step>, i: nat)
    requires Inv(s) && Run(s, steps).Some? && Run(s, steps).value.issued <= TWO64
    requires i < |Run(s, steps).value.calls|
    ensures var c := Run(s, steps).value.calls[i]; c.offers == OffersAt(s, i) + Delivered(s, steps, c.job)
    decreases |steps|
  {
    if steps != [] {
      var s' := Do(s, steps[0]).value;
      var job := Run(s, steps).value.calls[i].job;
      StepKeepsInv(s, steps[0]);
      RunKeepsInv(s', steps[1..]);
      RunOffers(s', steps[1..], i);
      FirstOffers(s, steps, i);
      Reassociate(OffersAt(s, i), DeliveredBy(s, steps[0], job), Delivered(s', steps[1..], job));
    }
  }

  function OffersAt(s: State, i: nat): seq<Packet> { if i < |s.calls| then s.calls[i].offers else [] }

  lemma {:induction false} FirstOffers(s: State, steps: seq<Step>, i: nat)
    requires Inv(s) && steps != [] && Run(s, steps).Some? && Run(s, steps).value.issued <= TWO64
    requires i < |Run(s, steps).value.calls| && Inv(Run(s, steps).value) && s.issued <= TWO64
    ensures OffersAt(Do(s, steps[0]).value, i)
            == OffersAt(s, i) + DeliveredBy(s, steps[0], Run(s, steps).value.calls[i].job)
  {
    var end := Run(s, steps).value;
    if i < |s.calls| {
      RunKeepsJobs(s, steps, i);
      StepOffers(s, steps[0], i);
    } else {
      DistinctJobs(end);
      forall j | 0 <= j < |s.calls| ensures s.calls[j].job != end.calls[i].job {
        RunKeepsJobs(s, steps, j);
      }
      NothingEarly(s, steps[0], end.calls[i].job);
      NewCallHasNoOffers(s, steps[0], i);
    }
  }

  lemma {:induction false} NewCallHasNoOffers(s: State, step: Step, i: nat)
    requires Do(s, step).Some? && |s.calls| <= i
    ensures OffersAt(Do(s, step).value, i) == []
  {}

  /**
   What a call returned, if it did not time out, is the first packet delivered under its own id; no two
   calls share an id; and the pending map holds exactly the calls between their insert and their delete.
   */
  ghost predicate Correlated(steps: seq<Step>)
    requires Run(Initial(), steps).Some?
  {
    var s := Run(Initial(), steps).value;
    && PendingExact(s)
    && (forall i, j | 0 <= i < j < |s.calls| :: s.calls[i].job != s.calls[j].job)
    && (forall i | 0 <= i < |s.calls| && s.calls[i].stage.Returned? && s.calls[i].stage.result.Some? ::
          s.calls[i].stage.result == First(Delivered(Initial(), steps, s.calls[i].job))
          && ForJob(s.calls[i].stage.result.value, s.calls[i].job))
  }

  /** So it is in every interleaving in which at most 2^64 ids were issued. */
  lemma CallsGetTheirOwn(steps: seq<Step>)
    requires Run(Initial(), steps).Some? && Run(Initial(), steps).value.issued <= TWO64
    ensures Correlated(steps)
  {
    var s := Run(Initial(), steps).value;
    InitialInv();
    RunKeepsInv(Initial(), steps);
    DistinctJobs(s);
    forall i | 0 <= i < |s.calls| && s.calls[i].stage.Returned? && s.calls[i].stage.result.Some?
      ensures s.calls[i].stage.result == First(Delivered(Initial(), steps, s.calls[i].job))
      ensures ForJob(s.calls[i].stage.result.value, s.calls[i].job)
    {
      RunOffers(Initial(), steps, i);
      assert GoodIssue(s, i);
    }
  }

  /**
   A handler that is about to send holds the channel of the call its packet answers, even when that call
   has timed out and deleted its entry in the meantime: however many ids were issued, and whatever
   other calls have inserted since the lookup.
   */
  lemma LateSendStaysHome(steps: seq<Step>, h: nat)
    requires Run(Initial(), steps).Some? && h < |Run(Initial(), steps).value.handlers|
    requires Run(Initial(), steps).value.handlers[h].at.Found?
    ensures var s := Run(Initial(), steps).value; var at := s.handlers[h].at;
            at.call < |s.calls| && ForJob(s.handlers[h].p, s.calls[at.call].job)
  {
    var s := Run(Initial(), steps).value;
    InitialInv();
    RunKeepsInv(Initial(), steps);
    assert GoodHandler(s, s.handlers[h]);
  }

  /** Below 2^64 - 1 ids, a response without a target job is delivered to nobody. */
  lemma {:induction false} NoJobIsNobody(steps: seq<Step>, more: Step)
    requires Run(Initial(), steps).Some? && Run(Initial(), steps).value.issued < TWO64 - 1
    requires Do(Run(Initial(), steps).value, more).Some?
    ensures DeliveredBy(Run(Initial(), steps).value, more, NO_JOB) == []
  {
    var s := Run(Initial(), steps).value;
    InitialInv();
    RunKeepsInv(Initial(), steps);
    forall j | 0 <= j < |s.calls| ensures s.calls[j].job != NO_JOB { assert GoodIssue(s, j); }
    NothingEarly(s, more, NO_JOB);
  }

  // ----- the bound on the ids is sharp -----

  lemma {:induction false} RunAppend(s: State, a: seq<Step>, b: seq<Step>)
    requires Run(s, a).Some?
    ensures Run(s, a + b) == Run(Run(s, a).value, b)
    decreases |a|
  {
    if a == [] {
      assert a + b == b;
    } else {
      RunAppend(Do(s, a[0]).value, a[1..], b);
      assert (a + b)[0] == a[0] && (a + b)[1..] == a[1..] + b;
    }
  }

  lemma {:induction false} ManyIssues(s: State, n: nat)
    requires s.currentJobId == s.issued % TWO64
    ensures Run(s, seq(n, _ => OtherIssue)) == Some(s.(currentJobId := (s.issued + n) % TWO64, issued := s.issued + n))
    decreases n
  {
    var steps := seq(n, _ => OtherIssue);
    if n > 0 {
      var s' := Do(s, OtherIssue).value;
      assert s'.currentJobId == (s.issued + 1) % TWO64;
      ManyIssues(s', n - 1);
      assert steps[0] == OtherIssue && steps[1..] == seq(n - 1, _ => OtherIssue);
    }
  }

  lemma RunStep(s: State, step: Step, rest: seq<Step>)
    requires Do(s, step).Some?
    ensures Run(s, [step] + rest) == Run(Do(s, step).value, rest)
  {
    assert ([step] + rest)[1..] == rest;
  }

  /** A call begins and waits. */
  function Ask(i: nat): seq<Step> { [Begin] + ([Insert(i)] + ([Send(i)] + [])) }

  /** A packet comes for call i, is handed over and returned. */
  function Answer(p: Packet, i: nat): seq<Step> {
    ([Arrive(p)] + ([LookUp(0)] + ([Offer(0)] + []))) + ([Receive(i)] + ([Delete(i)] + []))
  }

  function Colliding(p: Packet): seq<Step> { Ask(0) + (seq(TWO64 - 1, _ => OtherIssue) + (Ask(1) + Answer(p, 1))) }

  /**
   With one id more, the theorem fails: the answer to the first call is returned by the last, which was
   given the same id, and the first call waits with no entry left to find it by.
   */
  lemma IdsWrap(p: Packet)
    requires ForJob(p, 1)
    ensures var end := Run(Initial(), Colliding(p));
            && end.Some? && end.value.issued == TWO64 + 1 && |end.value.calls| == 2
            && end.value.calls[0].job == end.value.calls[1].job == 1
            && end.value.calls[0].stage == Waiting && end.value.calls[0].offers == []
            && end.value.calls[1].stage == Returned(Some(p)) && end.value.pending == map[]
  {
    var first, last := Call(1, Waiting, None, 0, []), Call(1, Waiting, None, TWO64, []);
    var a := State(1, 1, map[1 := 0], [first], []);
    var b := State(0, TWO64, map[1 := 0], [first], []);
    var c := State(1, TWO64 + 1, map[1 := 1], [first, last], []);
    var issues, rest := seq(TWO64 - 1, _ => OtherIssue), Ask(1) + Answer(p, 1);
    assert Run(Initial(), Ask(0)) == Some(a) by {
      Asked(Initial());
      assert Initial().pending[1 := 0] == a.pending && Initial().calls + [first] == a.calls;
    }
    RunAppend(Initial(), Ask(0), issues + rest);
    assert Run(a, issues) == Some(b) by { ManyIssues(a, TWO64 - 1); }
    RunAppend(a, issues, rest);
    assert Run(b, Ask(1)) == Some(c) by {
      Asked(b);
      assert b.pending[1 := 1] == c.pending && b.calls + [last] == c.calls;
    }
    RunAppend(b, Ask(1), Answer(p, 1));
    AnsweredLast(p, c);
  }

  /** A run with at most n ids, if it is one, correlates. */
  ghost predicate CorrelatesBelow(steps: seq<Step>, n: nat) {
    Run(Initial(), steps).Some? && Run(Initial(), steps).value.issued <= n ==> Correlated(steps)
  }

  /** Every run with at most n ids correlates if and only if n is at most 2^64. */
  lemma CorrelationIff(n: nat)
    ensures (forall steps :: CorrelatesBelow(steps, n)) <==> n <= TWO64
  {
    if n <= TWO64 {
      forall steps ensures CorrelatesBelow(steps, n) {
        if Run(Initial(), steps).Some? && Run(Initial(), steps).value.issued <= n { CallsGetTheirOwn(steps); }
      }
    } else {
      var p := Packet(SERVICE_METHOD_RESPONSE, true, 1, NO_JOB, []);
      IdsWrap(p);
      assert !CorrelatesBelow(Colliding(p), n);
    }
  }

  lemma AnsweredLast(p: Packet, s: State)
    requires ForJob(p, 1) && s.pending == map[1 := 1] && s.handlers == [] && |s.calls| == 2
    requires s.calls[1] == Call(1, Waiting, None, TWO64, [])
    ensures var end := Run(s, Answer(p, 1));
            && end.Some? && end.value.issued == s.issued && |end.value.calls| == 2 && end.value.pending == map[]
            && end.value.calls[0] == s.calls[0] && end.value.calls[1] == Call(1, Returned(Some(p)), None, TWO64, [p])
  {
    Answered(p, s, 1);
  }

  lemma Asked(s: State)
    ensures var (i, id) := (|s.calls|, NextId(s.currentJobId));
            Run(s, Ask(i))
            == Some(State(id, s.issued + 1, s.pending[id := i], s.calls + [Call(id, Waiting, None, s.issued, [])],
                          s.handlers))
  {
    var (i, id) := (|s.calls|, NextId(s.currentJobId));
    var c := Call(id, GotId, None, s.issued, []);
    var s1 := s.(currentJobId := id, issued := s.issued + 1, calls := s.calls + [c]);
    RunStep(s, Begin, [Insert(i)] + ([Send(i)] + []));
    InsertedAndSent(s1, s.calls, c);
  }

  lemma InsertedAndSent(s: State, before: seq<Call>, c: Call)
    requires s.calls == before + [c] && c.stage == GotId
    ensures var i := |before|;
            Run(s, [Insert(i)] + ([Send(i)] + [])) ==
            Some(s.(pending := s.pending[c.job := i], calls := before + [c.(stage := Waiting)]))
  {
    var i := |before|;
    var s2 := s.(pending := s.pending[c.job := i], calls := before + [c.(stage := Inserted)]);
    assert s.calls[i := c.(stage := Inserted)] == s2.calls;
    RunStep(s, Insert(i), [Send(i)] + []);
    assert s2.calls[i := c.(stage := Waiting)] == before + [c.(stage := Waiting)];
    RunStep(s2, Send(i), []);
  }

  /** s with one handler in it and call i changed. */
  function At(s: State, h: Handler, i: nat, c: Call): State
    requires i < |s.calls|
  {
    s.(handlers := [h], calls := s.calls[i := c])
  }

  lemma Arrived(p: Packet, s: State, i: nat)
    requires i < |s.calls| && ForJob(p, s.calls[i].job) && s.handlers == [] && s.calls[i].job in s.pending
    requires s.pending[s.calls[i].job] == i && s.calls[i].buf == None
    ensures var c := s.calls[i]; var c' := c.(buf := Some(p), offers := c.offers + [p]);
            Run(s, [Arrive(p)] + ([LookUp(0)] + ([Offer(0)] + []))) == Some(At(s, Handler(p, Finished), i, c'))
  {
    var s1 := s.(handlers := [Handler(p, Start)]);
    assert s.handlers + [Handler(p, Start)] == [Handler(p, Start)];
    RunStep(s, Arrive(p), [LookUp(0)] + ([Offer(0)] + []));
    var s2 := s.(handlers := [Handler(p, Found(i))]);
    assert s1.handlers[0 := Handler(p, Found(i))] == [Handler(p, Found(i))];
    RunStep(s1, LookUp(0), [Offer(0)] + []);
    assert s2.handlers[0 := Handler(p, Finished)] == [Handler(p, Finished)];
    RunStep(s2, Offer(0), []);
  }

  lemma Answered(p: Packet, s: State, i: nat)
    requires i < |s.calls| && ForJob(p, s.calls[i].job) && s.handlers == [] && s.calls[i].job in s.pending
    requires s.pending[s.calls[i].job] == i
    requires s.calls[i].stage == Waiting && s.calls[i].buf == None && s.calls[i].offers == []
    ensures Run(s, Answer(p, i)) == Some(s.(
                pending := s.pending - {s.calls[i].job}, handlers := [Handler(p, Finished)],
                calls := s.calls[i := s.calls[i].(stage := Returned(Some(p)), offers := [p])]))
  {
    Arrived(p, s, i);
    assert s.calls[i].offers + [p] == [p];
    var c := s.calls[i].(offers := [p]);
    var s3 := At(s, Handler(p, Finished), i, c.(buf := Some(p)));
    RunAppend(s, [Arrive(p)] + ([LookUp(0)] + ([Offer(0)] + [])), [Receive(i)] + ([Delete(i)] + []));
    var s4 := At(s, Handler(p, Finished), i, c.(stage := Leaving(Some(p))));
    assert s3.calls[i := c.(stage := Leaving(Some(p)))] == s4.calls;
    RunStep(s3, Receive(i), [Delete(i)] + []);
    assert s4.calls[i := c.(stage := Returned(Some(p)))] == s.calls[i := c.(stage := Returned(Some(p)))];
    RunStep(s4, Delete(i), []);
  }
}
