/** A trade's event log: batches of numbered entries folded into a queue, a ready flag and a log position. */
module Trade {
  import opened Basics

  datatype Item = Item(appId: nat, contextId: nat, assetId: nat)
  datatype Currency = Currency(appId: nat, contextId: nat, currencyId: nat)

  /** tradeapi.Event. */
  datatype Entry = Entry(steamId: nat, action: nat, appId: nat, contextId: nat, assetId: nat, text: string,
                         currencyId: nat, oldAmount: nat, newAmount: nat)

  datatype EndReason = Complete | Cancelled | Timeout | Failed

  datatype Event =
    | ItemAdded(item: Item) | ItemRemoved(item: Item) | Ready | Unready
    | SetCurrency(currency: Currency, oldAmount: nat, newAmount: nat) | Chat(text: string)
    | TradeEnded(reason: EndReason)

  const READY := 2
  const UNREADY := 3

  function ItemOf(e: Entry): Item { Item(e.appId, e.contextId, e.assetId) }

  /** The event an entry's action stands for; accepting (4) and unknown actions stand for none. */
  function EventOf(e: Entry): Option<Event> {
    match e.action
    case 0 => Some(ItemAdded(ItemOf(e)))
    case 1 => Some(ItemRemoved(ItemOf(e)))
    case 2 => Some(Ready)
    case 3 => Some(Unready)
    case 6 => Some(SetCurrency(Currency(e.appId, e.contextId, e.currencyId), e.oldAmount, e.newAmount))
    case 7 => Some(Chat(e.text))
    case _ => None
  }

  // ----- one batch, in some order -----

  predicate NoDup(s: seq<nat>) { forall i, j | 0 <= i < j < |s| :: s[i] != s[j] }

  /** s lists once each the keys that do not remain. */
  ghost predicate Visited(s: seq<nat>, keys: set<nat>, remaining: set<nat>) {
    NoDup(s) && remaining <= keys && (forall i :: i in s <==> i in keys - remaining)
  }

  lemma OneMoreVisited(s: seq<nat>, keys: set<nat>, remaining: set<nat>, i: nat)
    requires Visited(s, keys, remaining) && i in remaining
    ensures Visited(s + [i], keys, remaining - {i})
  {
    assert i !in s;
    assert forall x :: x in s + [i] <==> x in s || x == i;
    NoDupAppend(s, i);
  }

  lemma NoDupAppend(s: seq<nat>, i: nat)
    requires NoDup(s) && i !in s
    ensures NoDup(s + [i])
  {
    forall j, k | 0 <= j < k < |s + [i]| ensures (s + [i])[j] != (s + [i])[k] {
      assert (s + [i])[j] == s[j] && s[j] in s;
      if k < |s| { assert (s + [i])[k] == s[k]; }
    }
  }

  /** order lists every key once: an order in which the map may be iterated. */
  ghost predicate Enumerates(order: seq<nat>, keys: set<nat>) {
    NoDup(order) && (forall i :: i in order <==> i in keys)
  }

  /** An entry the loop does not skip. */
  predicate Fresh(events: map<nat, Entry>, logPos: nat, them: nat, i: nat) {
    i in events && logPos <= i && events[i].steamId == them
  }

  datatype Folded = Folded(last: nat, themReady: bool, queue: seq<Event>)

  function OneEntry(f: Folded, events: map<nat, Entry>, logPos: nat, them: nat, i: nat): Folded {
    if !Fresh(events, logPos, them, i) then f else
      var e := events[i];
      Folded(if f.last < i then i else f.last,
             if e.action == READY then true else if e.action == UNREADY then false else f.themReady,
             f.queue + Queued(e))
  }

  function Queued(e: Entry): seq<Event> { match EventOf(e) case Some(v) => [v] case None => [] }

  function Fold(f: Folded, events: map<nat, Entry>, logPos: nat, them: nat, order: seq<nat>): Folded {
    if order == [] then f else
      var n := |order| - 1;
      OneEntry(Fold(f, events, logPos, them, order[..n]), events, logPos, them, order[n])
  }

  // ----- the trade -----

  /** tradeapi.Status. */
  datatype Status = Status(success: bool, newVersion: bool, version: nat, meReady: bool, themReady: bool,
                           tradeStatus: nat, events: map<nat, Entry>)

  /** The event a trade status adds. */
  function Ending(tradeStatus: nat): seq<Event> {
    match tradeStatus
    case 1 => [TradeEnded(Complete)]
    case 3 => [TradeEnded(Cancelled)]
    case 4 => [TradeEnded(Timeout)]
    case 5 => [TradeEnded(Failed)]
    case _ => []
  }

  /** The fields of a trade that a status changes. */
  datatype View = View(meReady: bool, themReady: bool, queued: seq<Event>, logPos: nat, version: nat)

  /** A successful status: version and flags if they are new, the ending, and the entries in some order. */
  ghost predicate TakesIn(v: View, status: Status, them: nat, order: seq<nat>, v': View) {
    if !status.success then v' == v else
      var f := Fold(Folded(0, if status.newVersion then status.themReady else v.themReady,
                           v.queued + Ending(status.tradeStatus)),
                    status.events, v.logPos, them, order);
      && Enumerates(order, status.events.Keys)
      && v'.themReady == f.themReady && v'.queued == f.queue
      && v'.logPos == (if status.events == map[] then v.logPos else f.last + 1)
      && v'.meReady == (if status.newVersion then status.meReady else v.meReady)
      && v'.version == (if status.newVersion then status.version else v.version)
  }

  /** A successful status that was folded in. */
  datatype Taken = Taken(status: Status, order: seq<nat>)

  function History(reply: Option<Status>, order: seq<nat>): seq<Taken> {
    if reply.Some? && reply.value.success then [Taken(reply.value, order)] else []
  }

  function BatchOf(t: Taken): Batch { Batch(0, t.status.events, t.order) }

  /** The log position after a history of statuses. */
  function LogPosFrom(them: nat, logPos: nat, taken: seq<Taken>): nat
    decreases |taken|
  {
    if taken == [] then logPos else LogPosFrom(them, NextLogPos(BatchOf(taken[0]), logPos, them), taken[1..])
  }

  /** What one status queues: its ending, and the events of its handled entries. */
  function QueuedBy(them: nat, logPos: nat, t: Taken): seq<Event> {
    Ending(t.status.tradeStatus) + Convert(t.status.events, Sources(t.status.events, logPos, them, t.order))
  }

  /** What a history of statuses queues. */
  function QueuedFrom(them: nat, logPos: nat, taken: seq<Taken>): seq<Event>
    decreases |taken|
  {
    if taken == [] then []
    else QueuedBy(them, logPos, taken[0]) + QueuedFrom(them, NextLogPos(BatchOf(taken[0]), logPos, them), taken[1..])
  }

  lemma {:induction false} HistorySnoc(them: nat, logPos: nat, taken: seq<Taken>, t: Taken)
    ensures LogPosFrom(them, logPos, taken + [t]) == NextLogPos(BatchOf(t), LogPosFrom(them, logPos, taken), them)
    ensures QueuedFrom(them, logPos, taken + [t])
            == QueuedFrom(them, logPos, taken) + QueuedBy(them, LogPosFrom(them, logPos, taken), t)
    decreases |taken|
  {
    if taken == [] {
      assert [] + [t] == [t] && [t][1..] == [];
      assert QueuedBy(them, logPos, t) + [] == [] + QueuedBy(them, logPos, t);
    } else {
      var next := NextLogPos(BatchOf(taken[0]), logPos, them);
      HistorySnoc(them, next, taken[1..], t);
      assert (taken + [t])[1..] == taken[1..] + [t];
      Reassociate(QueuedBy(them, logPos, taken[0]), QueuedFrom(them, next, taken[1..]),
                  QueuedBy(them, LogPosFrom(them, next, taken[1..]), t));
    }
  }

  /** lastLogPos does not depend on what is in the queue or on the flag. */
  lemma {:induction false} LastAlone(f: Folded, g: Folded, events: map<nat, Entry>, logPos: nat, them: nat,
                                     order: seq<nat>)
    requires f.last == g.last
    ensures Fold(f, events, logPos, them, order).last == Fold(g, events, logPos, them, order).last
  {
    if order != [] { LastAlone(f, g, events, logPos, them, order[..|order| - 1]); }
  }

  /** A successful status moves the position as NextLogPos says and queues what QueuedBy says. */
  lemma TakesInIs(v: View, status: Status, them: nat, order: seq<nat>, v': View)
    requires status.success && TakesIn(v, status, them, order, v')
    ensures v'.logPos == NextLogPos(BatchOf(Taken(status, order)), v.logPos, them)
    ensures v'.queued == v.queued + QueuedBy(them, v.logPos, Taken(status, order))
  {
    var start := Folded(0, if status.newVersion then status.themReady else v.themReady,
                        v.queued + Ending(status.tradeStatus));
    LastAlone(start, Folded(0, false, []), status.events, v.logPos, them, order);
    FoldQueue(start, status.events, v.logPos, them, order);
    Reassociate(v.queued, Ending(status.tradeStatus),
                Convert(status.events, Sources(status.events, v.logPos, them, order)));
  }

  lemma TracedOneMore(v: View, all: seq<Event>, v': View, all': seq<Event>, drained: seq<Event>, taken: seq<Taken>,
                      them: nat, status: Status, order: seq<nat>)
    requires status.success && TakesIn(v, status, them, order, v')
    requires all == drained + v.queued && all' == drained + v'.queued
    requires v.logPos == LogPosFrom(them, 0, taken) && all == QueuedFrom(them, 0, taken)
    ensures v'.logPos == LogPosFrom(them, 0, taken + [Taken(status, order)])
    ensures all' == QueuedFrom(them, 0, taken + [Taken(status, order)])
  {
    TakesInIs(v, status, them, order, v');
    HistorySnoc(them, 0, taken, Taken(status, order));
    Reassociate(drained, v.queued, QueuedBy(them, v.logPos, Taken(status, order)));
  }

  /** The partner's readiness: a Ready without an Unready makes it true, the converse false, neither leaves it. */
  ghost predicate ReadyAfter(events: map<nat, Entry>, logPos: nat, them: nat, before: bool, after: bool) {
    && (AnyFresh(events, logPos, them, 2) && !AnyFresh(events, logPos, them, 3) ==> after)
    && (AnyFresh(events, logPos, them, 3) && !AnyFresh(events, logPos, them, 2) ==> !after)
    && (!AnyFresh(events, logPos, them, 2) && !AnyFresh(events, logPos, them, 3) ==> after == before)
  }

  /** The log position: one past the partner's last entry, 1 if there is none, and as it was if there are no entries. */
  ghost predicate PositionAfter(events: map<nat, Entry>, before: nat, them: nat, after: nat) {
    if events == map[] then after == before
    else
      && (forall i: nat | Fresh(events, before, them, i) :: i < after)
      && (after == 1 || (after > 0 && Fresh(events, before, them, after - 1)))
  }

  /** What a status does to the flags, the version and the position, whatever the order of iteration. */
  lemma StatusMeans(v: View, status: Status, them: nat, order: seq<nat>, v': View)
    requires TakesIn(v, status, them, order, v')
    ensures !status.success ==> v' == v
    ensures status.success ==>
              && (if status.newVersion then v'.meReady == status.meReady && v'.version == status.version
                  else v'.meReady == v.meReady && v'.version == v.version)
              && ReadyAfter(status.events, v.logPos, them, if status.newVersion then status.themReady else v.themReady,
                            v'.themReady)
              && PositionAfter(status.events, v.logPos, them, v'.logPos)
              && v.queued + EndsFirst(status.tradeStatus) <= v'.queued
  {
    if status.success {
      var start := Folded(0, if status.newVersion then status.themReady else v.themReady,
                          v.queued + Ending(status.tradeStatus));
      ReadyIsDetermined(start, status.events, v.logPos, them, order);
      FoldLast(start, status.events, v.logPos, them, order);
      FoldQueue(start, status.events, v.logPos, them, order);
    }
  }

  /** The ending, if there is one, comes before the events of the entries. */
  function EndsFirst(tradeStatus: nat): seq<Event> {
    if tradeStatus == 1 then [TradeEnded(Complete)]
    else if tradeStatus == 3 then [TradeEnded(Cancelled)]
    else if tradeStatus == 4 then [TradeEnded(Timeout)]
    else if tradeStatus == 5 then [TradeEnded(Failed)]
    else []
  }

  class Trade {
    const them: nat
    var meReady: bool
    var themReady: bool
    var queued: seq<Event>
    var logPos: nat
    var version: nat
    ghost var all: seq<Event>      // every event ever queued
    ghost var drained: seq<Event>  // every event handed to the caller
    ghost var taken: seq<Taken>    // every successful status, and the order its map was iterated in

    ghost predicate Valid()
      reads this
    {
      all == drained + queued
    }

    /** The position and all events ever queued are what the statuses taken so far make them. */
    ghost predicate Traced()
      reads this
    {
      logPos == LogPosFrom(them, 0, taken) && all == QueuedFrom(them, 0, taken)
    }

    ghost function Now(): View
      reads this
    {
      View(meReady, themReady, queued, logPos, version)
    }

    constructor (them: nat)
      ensures Valid() && Traced() && this.them == them && Now() == View(false, false, [], 0, 1)
      ensures all == [] && drained == [] && taken == []
    {
      this.them := them;
      meReady, themReady, queued, logPos, version, all, drained, taken := false, false, [], 0, 1, [], [], [];
    }

    method AddEvent(e: Event)
      requires Valid()
      modifies this`queued, this`all
      ensures Valid() && queued == old(queued) + [e] && all == old(all) + [e]
    {
      queued, all := queued + [e], all + [e];
    }

    /** Drains the queue. */
    method Events() returns (events: seq<Event>)
      requires Valid()
      modifies this`queued, this`drained
      ensures Valid() && events == old(queued) && queued == [] && drained == old(drained) + events
    {
      events := queued;
      queued := [];
      drained := drained + events;
    }

    /** One turn of the loop of updateEvents: last is lastLogPos. */
    method UpdateEvent(events: map<nat, Entry>, i: nat, last: nat) returns (last': nat)
      requires Valid() && i in events
      modifies this`queued, this`all, this`themReady
      ensures Valid()
      ensures Folded(last', themReady, queued)
              == OneEntry(Folded(last, old(themReady), old(queued)), events, logPos, them, i)
    {
      last' := last;
      var event := events[i];
      if i < logPos { return; }
      if event.steamId != them { return; }
      if last < i { last' := i; }
      match event.action {
        case 0 => AddEvent(ItemAdded(ItemOf(event)));
        case 1 => AddEvent(ItemRemoved(ItemOf(event)));
        case 2 => themReady := true; AddEvent(Ready);
        case 3 => themReady := false; AddEvent(Unready);
        case 6 =>
          var currency := Currency(event.appId, event.contextId, event.currencyId);
          AddEvent(SetCurrency(currency, event.oldAmount, event.newAmount));
        case 7 => AddEvent(Chat(event.text));
        case _ =>
      }
    }

    /** The map is iterated in an order nobody chose. */
    method UpdateEvents(events: map<nat, Entry>) returns (ghost order: seq<nat>)
      requires Valid()
      modifies this`queued, this`all, this`themReady, this`logPos
      ensures Valid()
      ensures Enumerates(order, events.Keys)
      ensures events == map[] ==> logPos == old(logPos)
      ensures var f := Fold(Folded(0, old(themReady), old(queued)), events, old(logPos), them, order);
              themReady == f.themReady && queued == f.queue && (events != map[] ==> logPos == f.last + 1)
    {
      order := [];
      if |events| == 0 {
        assert events == map[];
        return;
      }
      var last, remaining := 0, events.Keys;
      while remaining != {}
        invariant Valid() && logPos == old(logPos)
        invariant Visited(order, events.Keys, remaining)
        invariant Folded(last, themReady, queued)
                  == Fold(Folded(0, old(themReady), old(queued)), events, logPos, them, order)
        decreases |remaining|
      {
        var i :| i in remaining;
        last := UpdateEvent(events, i, last);
        OneMoreVisited(order, events.Keys, remaining, i);
        remaining := remaining - {i};
        assert (order + [i])[..|order|] == order;
        order := order + [i];
      }
      logPos := last + 1;
    }

    /** An unsuccessful status changes nothing. */
    method OnStatus(status: Status) returns (ok: bool, ghost order: seq<nat>)
      requires Valid() && Traced()
      modifies this`queued, this`all, this`meReady, this`themReady, this`logPos, this`version, this`taken
      ensures Valid() && Traced() && ok == status.success && TakesIn(old(Now()), status, them, order, Now())
      ensures taken == if ok then old(taken) + [Taken(status, order)] else old(taken)
      ensures meReady == (if ok && status.newVersion then status.meReady else old(meReady))
      ensures version == (if ok && status.newVersion then status.version else old(version))
    {
      order := [];
      if !status.success { return false, order; }
      if status.newVersion {
        version := status.version;
        meReady := status.meReady;
        themReady := status.themReady;
      }
      AddEnding(status.tradeStatus);
      order := UpdateEvents(status.events);
      ok := true;
      taken := taken + [Taken(status, order)];
      TracedOneMore(old(Now()), old(all), Now(), all, drained, old(taken), them, status, order);
    }

    /** The switch over the trade status. */
    method AddEnding(tradeStatus: nat)
      requires Valid()
      modifies this`queued, this`all
      ensures Valid() && queued == old(queued) + Ending(tradeStatus)
    {
      match tradeStatus {
        case 1 => AddEvent(TradeEnded(Complete));
        case 3 => AddEvent(TradeEnded(Cancelled));
        case 4 => AddEvent(TradeEnded(Timeout));
        case 5 => AddEvent(TradeEnded(Failed));
        case _ =>
      }
    }

    /** What a request's error or status does; that a status was unsuccessful is not reported. */
    method Action(reply: Option<Status>) returns (failed: bool, ghost order: seq<nat>)
      requires Valid() && Traced()
      modifies this`queued, this`all, this`meReady, this`themReady, this`logPos, this`version, this`taken
      ensures Valid() && Traced() && failed == reply.None?
      ensures reply.None? ==> Now() == old(Now())
      ensures reply.Some? ==> TakesIn(old(Now()), reply.value, them, order, Now())
      ensures taken == old(taken) + History(reply, order)
    {
      order := [];
      if reply.None? { return true, order; }
      var ok;
      ok, order := OnStatus(reply.value);
      failed := false;
    }

    /** What is queued, or the events of a new status; reply is what a request would be answered with. */
    method Poll(reply: Option<Status>) returns (r: Option<seq<Event>>, ghost order: seq<nat>)
      requires Valid() && Traced()
      modifies this
      ensures Valid() && Traced() && queued == [] && drained == old(drained) + (if r.Some? then r.value else [])
      ensures old(queued) != [] ==> r == Some(old(queued)) && Now() == old(Now()).(queued := [])
      ensures old(queued) == [] && reply.None? ==> r == None && Now() == old(Now())
      ensures old(queued) == [] && reply.Some? ==>
                r.Some? && TakesIn(old(Now()), reply.value, them, order, Now().(queued := r.value))
      ensures taken == old(taken) + if old(queued) == [] then History(reply, order) else []
    {
      order := [];
      if |queued| != 0 {
        var events := Events();
        return Some(events), order;
      }
      var failed;
      failed, order := Action(reply);
      if failed { return None, order; }
      var events := Events();
      r := Some(events);
    }
  }

  // ----- what a batch does, in any order -----

  /** The entries of the order that queue something. */
  function Sources(events: map<nat, Entry>, logPos: nat, them: nat, order: seq<nat>): (s: seq<nat>)
    ensures forall i | i in s :: i in events
  {
    if order == [] then [] else
      var n := |order| - 1;
      Sources(events, logPos, them, order[..n]) + (if Handled(events, logPos, them, order[n]) then [order[n]] else [])
  }

  predicate Handled(events: map<nat, Entry>, logPos: nat, them: nat, i: nat) {
    Fresh(events, logPos, them, i) && EventOf(events[i]).Some?
  }

  function Convert(events: map<nat, Entry>, s: seq<nat>): seq<Event>
    requires forall i | i in s :: i in events
  {
    if s == [] then [] else Convert(events, s[..|s| - 1]) + Queued(events[s[|s| - 1]])
  }

  /** The queue keeps what it had and gains one event for each handled entry, in the order of iteration. */
  lemma {:induction false} FoldQueue(f: Folded, events: map<nat, Entry>, logPos: nat, them: nat, order: seq<nat>)
    ensures Fold(f, events, logPos, them, order).queue
            == f.queue + Convert(events, Sources(events, logPos, them, order))
  {
    if order != [] {
      var n := |order| - 1;
      FoldQueue(f, events, logPos, them, order[..n]);
      var before, s := Sources(events, logPos, them, order[..n]), Sources(events, logPos, them, order);
      if Handled(events, logPos, them, order[n]) {
        assert s[..|s| - 1] == before;
        Reassociate(f.queue, Convert(events, before), Queued(events[order[n]]));
      } else {
        assert s == before;
      }
    }
  }

  lemma {:induction false} SourcesAre(events: map<nat, Entry>, logPos: nat, them: nat, order: seq<nat>)
    requires NoDup(order)
    ensures var s := Sources(events, logPos, them, order);
            NoDup(s) && (forall i :: i in s <==> i in order && Handled(events, logPos, them, i))
            && (s != [] ==> Handled(events, logPos, them, s[0]))
  {
    if order != [] {
      var n := |order| - 1;
      SourcesAre(events, logPos, them, order[..n]);
      assert order == order[..n] + [order[n]] && order[n] !in order[..n];
    }
  }

  /** lastLogPos ends as the greatest fresh index, or 0 where nothing is fresh. */
  lemma {:induction false} FoldLast(f: Folded, events: map<nat, Entry>, logPos: nat, them: nat, order: seq<nat>)
    ensures var last := Fold(f, events, logPos, them, order).last;
            && f.last <= last && (forall i | i in order && Fresh(events, logPos, them, i) :: i <= last)
            && (last == f.last || (last in order && Fresh(events, logPos, them, last)))
  {
    if order != [] {
      var n := |order| - 1;
      FoldLast(f, events, logPos, them, order[..n]);
      assert order == order[..n] + [order[n]];
    }
  }

  // ----- the ready flag and the order of iteration -----

  predicate FreshAction(events: map<nat, Entry>, logPos: nat, them: nat, action: nat, i: nat) {
    Fresh(events, logPos, them, i) && events[i].action == action
  }

  ghost predicate AnyFresh(events: map<nat, Entry>, logPos: nat, them: nat, action: nat) {
    exists i :: FreshAction(events, logPos, them, action, i)
  }

  lemma {:induction false} OneReadiness(f: Folded, events: map<nat, Entry>, logPos: nat, them: nat, order: seq<nat>)
    ensures var r := Fold(f, events, logPos, them, order).themReady;
            && (!AnyFresh(events, logPos, them, UNREADY) && f.themReady ==> r)
            && (!AnyFresh(events, logPos, them, READY) && !f.themReady ==> !r)
            && (forall i | i in order && FreshAction(events, logPos, them, READY, i) ::
                  !AnyFresh(events, logPos, them, UNREADY) ==> r)
            && (forall i | i in order && FreshAction(events, logPos, them, UNREADY, i) ::
                  !AnyFresh(events, logPos, them, READY) ==> !r)
            && ((forall i | i in order
                   :: !FreshAction(events, logPos, them, READY, i) && !FreshAction(events, logPos, them, UNREADY, i))
                  ==> r == f.themReady)
  {
    if order != [] {
      var n := |order| - 1;
      OneReadiness(f, events, logPos, them, order[..n]);
      assert order == order[..n] + [order[n]];
      assert forall i :: i in order <==> i in order[..n] || i == order[n];
      if FreshAction(events, logPos, them, READY, order[n]) {
        assert AnyFresh(events, logPos, them, READY);
      }
      if FreshAction(events, logPos, them, UNREADY, order[n]) {
        assert AnyFresh(events, logPos, them, UNREADY);
      }
    }
  }

  /** Without fresh entries of both kinds, every order of iteration leaves the same flag. */
  lemma ReadyIsDetermined(f: Folded, events: map<nat, Entry>, logPos: nat, them: nat, order: seq<nat>)
    requires Enumerates(order, events.Keys)
    ensures var r := Fold(f, events, logPos, them, order).themReady;
            && (AnyFresh(events, logPos, them, READY) && !AnyFresh(events, logPos, them, UNREADY) ==> r)
            && (AnyFresh(events, logPos, them, UNREADY) && !AnyFresh(events, logPos, them, READY) ==> !r)
            && (!AnyFresh(events, logPos, them, READY) && !AnyFresh(events, logPos, them, UNREADY) ==> r == f.themReady)
  {
    OneReadiness(f, events, logPos, them, order);
    if AnyFresh(events, logPos, them, READY) {
      var i :| FreshAction(events, logPos, them, READY, i);
      assert i in order;
    }
    if AnyFresh(events, logPos, them, UNREADY) {
      var i :| FreshAction(events, logPos, them, UNREADY, i);
      assert i in order;
    }
  }

  /** An order that visits a chosen key last. */
  lemma OrderEndingIn(keys: set<nat>, last: nat) returns (order: seq<nat>)
    requires last in keys
    ensures Enumerates(order, keys) && order != [] && order[|order| - 1] == last
  {
    var init := SomeOrder(keys - {last});
    order := init + [last];
  }

  lemma SomeOrder(keys: set<nat>) returns (order: seq<nat>)
    ensures Enumerates(order, keys)
    decreases |keys|
  {
    order := [];
    if keys != {} {
      var i :| i in keys;
      var init := SomeOrder(keys - {i});
      order := init + [i];
    }
  }

  ghost predicate LeavesReady(f: Folded, events: map<nat, Entry>, logPos: nat, them: nat, order: seq<nat>,
                              ready: bool) {
    Enumerates(order, events.Keys) && Fold(f, events, logPos, them, order).themReady == ready
  }

  /**
   Whether the partner counts as ready after a batch depends on the order in which the map happens to be
   iterated exactly when the batch holds both a fresh Ready and a fresh Unready of the partner.
   */
  lemma ReadyDependsOnOrderIff(f: Folded, events: map<nat, Entry>, logPos: nat, them: nat)
    ensures (exists a, b
               :: LeavesReady(f, events, logPos, them, a, true) && LeavesReady(f, events, logPos, them, b, false))
            <==> AnyFresh(events, logPos, them, READY) && AnyFresh(events, logPos, them, UNREADY)
  {
    if AnyFresh(events, logPos, them, READY) && AnyFresh(events, logPos, them, UNREADY) {
      var i :| FreshAction(events, logPos, them, READY, i);
      var j :| FreshAction(events, logPos, them, UNREADY, j);
      var a := OrderEndingIn(events.Keys, i);
      var b := OrderEndingIn(events.Keys, j);
      assert LeavesReady(f, events, logPos, them, a, true) && LeavesReady(f, events, logPos, them, b, false);
    } else {
      forall a, b | LeavesReady(f, events, logPos, them, a, true) && LeavesReady(f, events, logPos, them, b, false)
        ensures false {
        ReadyIsDetermined(f, events, logPos, them, a);
        ReadyIsDetermined(f, events, logPos, them, b);
      }
    }
  }

  // ----- whole runs -----

  /** A status batch, and the order its map was iterated in; the server's log was len entries long. */
  datatype Batch = Batch(len: nat, events: map<nat, Entry>, order: seq<nat>)

  /** It holds entries of the log, all of them from the log position on unless it holds none at all. */
  ghost predicate FromLog(log: seq<Entry>, logPos: nat, b: Batch) {
    && b.len <= |log| && Enumerates(b.order, b.events.Keys)
    && (forall i | i in b.events :: i < b.len && b.events[i] == log[i])
    && (b.events == map[] || forall i | logPos <= i < b.len :: i in b.events)
  }

  ghost predicate HasFresh(b: Batch, logPos: nat, them: nat) { exists i :: Fresh(b.events, logPos, them, i) }

  function NextLogPos(b: Batch, logPos: nat, them: nat): nat {
    if b.events == map[] then logPos else Fold(Folded(0, false, []), b.events, logPos, them, b.order).last + 1
  }

  /** A partner's log entry with a handled action. */
  predicate Due(log: seq<Entry>, them: nat, i: nat) {
    i < |log| && log[i].steamId == them && EventOf(log[i]).Some?
  }

  /** The log position after a batch: just past the last fresh partner entry, or 1 where there is none. */
  lemma LogPosAfter(log: seq<Entry>, logPos: nat, them: nat, b: Batch)
    requires FromLog(log, logPos, b) && b.events != map[]
    ensures var next := NextLogPos(b, logPos, them);
            if HasFresh(b, logPos, them)
            then logPos < next <= b.len && Fresh(b.events, logPos, them, next - 1)
                 && forall i | next <= i :: !Fresh(b.events, logPos, them, i)
            else next == 1
  {
    FoldLast(Folded(0, false, []), b.events, logPos, them, b.order);
    var next := NextLogPos(b, logPos, them);
    if HasFresh(b, logPos, them) {
      var i :| Fresh(b.events, logPos, them, i);
      assert i in b.order;
      forall i | next <= i ensures !Fresh(b.events, logPos, them, i) {
        assert i in b.events ==> i in b.order;
      }
    }
  }

  /** sources lists once each the log entries below the position that were due. */
  ghost predicate ExactlyOnce(log: seq<Entry>, them: nat, logPos: nat, sources: seq<nat>) {
    NoDup(sources) && forall i: nat :: i in sources <==> i < logPos && Due(log, them, i)
  }

  /** A batch without a fresh entry of the partner's resets the position to 1: harmless if nothing was due since. */
  ghost predicate Harmless(log: seq<Entry>, them: nat, logPos: nat, b: Batch) {
    b.events == map[] || HasFresh(b, logPos, them) || (forall i | 1 <= i < logPos :: !Due(log, them, i))
  }

  /** A batch extends "exactly once" by what it queues if and only if it is harmless. */
  lemma BatchKeepsExactlyOnceIff(log: seq<Entry>, them: nat, logPos: nat, sources: seq<nat>, b: Batch)
    requires FromLog(log, logPos, b) && ExactlyOnce(log, them, logPos, sources)
    ensures ExactlyOnce(log, them, NextLogPos(b, logPos, them), sources + Sources(b.events, logPos, them, b.order))
            <==> Harmless(log, them, logPos, b)
  {
    var next, added := NextLogPos(b, logPos, them), Sources(b.events, logPos, them, b.order);
    SourcesAre(b.events, logPos, them, b.order);
    if b.events == map[] {
      assert sources + added == sources;
    } else {
      LogPosAfter(log, logPos, them, b);
      BatchSources(log, them, logPos, sources, b, next);
    }
  }

  lemma BatchSources(log: seq<Entry>, them: nat, logPos: nat, sources: seq<nat>, b: Batch, next: nat)
    requires FromLog(log, logPos, b) && ExactlyOnce(log, them, logPos, sources) && b.events != map[]
    requires if HasFresh(b, logPos, them)
             then logPos < next <= b.len && forall i | next <= i :: !Fresh(b.events, logPos, them, i)
             else next == 1
    ensures ExactlyOnce(log, them, next, sources + Sources(b.events, logPos, them, b.order)) <==>
            HasFresh(b, logPos, them) || (forall i | 1 <= i < logPos :: !Due(log, them, i))
  {
    var added := Sources(b.events, logPos, them, b.order);
    SourcesAre(b.events, logPos, them, b.order);
    forall i, j | 0 <= i < |sources| && 0 <= j < |added| ensures sources[i] != added[j] {
      assert sources[i] in sources && added[j] in added;
    }
    assert NoDup(sources + added);
    if HasFresh(b, logPos, them) {
      forall i: nat ensures i in sources + added <==> i < next && Due(log, them, i) {
        if i in added { assert Fresh(b.events, logPos, them, i); }
        if logPos <= i < next && Due(log, them, i) { assert Handled(b.events, logPos, them, i); }
      }
    } else {
      assert sources + added == sources;
    }
  }

  /** Batches of one growing log, each polled from the position its predecessors left; bound is how long it was. */
  ghost predicate LogRun(log: seq<Entry>, them: nat, logPos: nat, bound: nat, batches: seq<Batch>)
    decreases |batches|
  {
    batches == [] ||
    var b := batches[0];
    && FromLog(log, logPos, b) && (b.events == map[] || bound <= b.len)
    && LogRun(log, them, NextLogPos(b, logPos, them), if b.events == map[] then bound else b.len, batches[1..])
  }

  /** The entries queued in a run, in order. */
  function RunSources(them: nat, logPos: nat, batches: seq<Batch>): seq<nat>
    decreases |batches|
  {
    if batches == [] then [] else
      Sources(batches[0].events, logPos, them, batches[0].order)
      + RunSources(them, NextLogPos(batches[0], logPos, them), batches[1..])
  }

  /** "Exactly once" holds before the run and after each of its batches. */
  ghost predicate AlwaysOnce(log: seq<Entry>, them: nat, logPos: nat, sources: seq<nat>, batches: seq<Batch>)
    decreases |batches|
  {
    ExactlyOnce(log, them, logPos, sources) &&
    (batches == [] ||
     var b := batches[0];
     AlwaysOnce(log, them, NextLogPos(b, logPos, them), sources + Sources(b.events, logPos, them, b.order),
                batches[1..]))
  }

  ghost predicate AllHarmless(log: seq<Entry>, them: nat, logPos: nat, batches: seq<Batch>)
    decreases |batches|
  {
    batches == [] ||
    (Harmless(log, them, logPos, batches[0])
     && AllHarmless(log, them, NextLogPos(batches[0], logPos, them), batches[1..]))
  }

  lemma {:induction false} AlwaysOnceIff(log: seq<Entry>, them: nat, logPos: nat, bound: nat, sources: seq<nat>,
                                         batches: seq<Batch>)
    requires LogRun(log, them, logPos, bound, batches) && ExactlyOnce(log, them, logPos, sources)
    ensures AlwaysOnce(log, them, logPos, sources, batches) <==> AllHarmless(log, them, logPos, batches)
    decreases |batches|
  {
    if batches != [] {
      var b := batches[0];
      BatchKeepsExactlyOnceIff(log, them, logPos, sources, b);
      if Harmless(log, them, logPos, b) {
        AlwaysOnceIff(log, them, NextLogPos(b, logPos, them), if b.events == map[] then bound else b.len,
                      sources + Sources(b.events, logPos, them, b.order), batches[1..]);
      }
    }
  }

  /**
   Over any run of a new trade and whatever the orders of iteration, after every batch each of the partner's
   entries below the log position with a handled action has been queued exactly once, and nothing else, if
   and only if every batch of the run is harmless.
   */
  lemma EveryEntryOnce(log: seq<Entry>, them: nat, batches: seq<Batch>)
    requires LogRun(log, them, 0, 0, batches)
    ensures AlwaysOnce(log, them, 0, [], batches) <==> AllHarmless(log, them, 0, batches)
  {
    AlwaysOnceIff(log, them, 0, 0, [], batches);
  }

  // ----- when an entry is queued twice -----

  ghost predicate Quiet(batches: seq<Batch>) { forall b | b in batches :: b.events == map[] }

  /** No batch that does harm is followed by one that holds anything. */
  ghost predicate HarmIsLast(log: seq<Entry>, them: nat, logPos: nat, batches: seq<Batch>)
    decreases |batches|
  {
    batches == [] ||
    if Harmless(log, them, logPos, batches[0])
    then HarmIsLast(log, them, NextLogPos(batches[0], logPos, them), batches[1..])
    else Quiet(batches[1..])
  }

  lemma NothingFromNothing(logPos: nat, them: nat, b: Batch)
    requires Enumerates(b.order, b.events.Keys) && b.events == map[]
    ensures Sources(b.events, logPos, them, b.order) == []
  {
    SourcesAre(b.events, logPos, them, b.order);
  }

  /** From position 1 on, the next batch that holds anything queues every due entry of the old log again. */
  lemma {:induction false} AfterReset(log: seq<Entry>, them: nat, bound: nat, batches: seq<Batch>, i: nat)
    requires LogRun(log, them, 1, bound, batches) && 1 <= i < bound && Due(log, them, i)
    ensures if Quiet(batches) then RunSources(them, 1, batches) == [] else i in RunSources(them, 1, batches)
    decreases |batches|
  {
    if batches != [] {
      var b := batches[0];
      if b.events == map[] {
        NothingFromNothing(1, them, b);
        AfterReset(log, them, bound, batches[1..], i);
        assert Quiet(batches) <==> Quiet(batches[1..]) by {
          assert batches == [b] + batches[1..];
        }
      } else {
        assert !Quiet(batches);
        SourcesAre(b.events, 1, them, b.order);
        assert i in b.order && Handled(b.events, 1, them, i);
      }
    }
  }

  lemma TwiceIn(a: seq<nat>, b: seq<nat>, i: nat)
    requires i in a && i in b
    ensures !NoDup(a + b)
  {
    var j :| 0 <= j < |a| && a[j] == i;
    var k :| 0 <= k < |b| && b[k] == i;
    assert (a + b)[j] == (a + b)[|a| + k];
  }

  lemma {:induction false} NoRepeatIff(log: seq<Entry>, them: nat, logPos: nat, bound: nat, sources: seq<nat>,
                                       batches: seq<Batch>)
    requires LogRun(log, them, logPos, bound, batches) && logPos <= bound && ExactlyOnce(log, them, logPos, sources)
    ensures NoDup(sources + RunSources(them, logPos, batches)) <==> HarmIsLast(log, them, logPos, batches)
    decreases |batches|
  {
    if batches == [] {
      assert sources + [] == sources;
    } else {
      var b, rest := batches[0], batches[1..];
      var next, added := NextLogPos(b, logPos, them), Sources(b.events, logPos, them, b.order);
      BatchKeepsExactlyOnceIff(log, them, logPos, sources, b);
      if b.events != map[] { LogPosAfter(log, logPos, them, b); }
      if Harmless(log, them, logPos, b) {
        assert b.events != map[] ==> b.len >= 1 by { SomeKey(log, logPos, b); }
        NoRepeatIff(log, them, next, if b.events == map[] then bound else b.len, sources + added, rest);
        Reassociate(sources, added, RunSources(them, next, rest));
      } else {
        var i :| 1 <= i < logPos && Due(log, them, i);
        HarmQueuesNothing(logPos, them, b);
        AfterReset(log, them, b.len, rest, i);
        assert added + RunSources(them, next, rest) == RunSources(them, next, rest);
        if Quiet(rest) {
          assert sources + [] == sources;
        } else {
          TwiceIn(sources, RunSources(them, next, rest), i);
        }
      }
    }
  }

  lemma SomeKey(log: seq<Entry>, logPos: nat, b: Batch)
    requires FromLog(log, logPos, b)
    ensures b.events != map[] ==> b.len >= 1
  {
    if b.events != map[] {
      var i :| i in b.events;
      assert i < b.len;
    }
  }

  lemma HarmQueuesNothing(logPos: nat, them: nat, b: Batch)
    requires Enumerates(b.order, b.events.Keys) && !HasFresh(b, logPos, them)
    ensures Sources(b.events, logPos, them, b.order) == []
  {
    SourcesAre(b.events, logPos, them, b.order);
  }

  /** A run queues no entry twice if and only if no harmful batch is followed by a batch that holds anything. */
  lemma NothingTwiceIff(log: seq<Entry>, them: nat, batches: seq<Batch>)
    requires LogRun(log, them, 0, 0, batches)
    ensures NoDup(RunSources(them, 0, batches)) <==> HarmIsLast(log, them, 0, batches)
  {
    NoRepeatIff(log, them, 0, 0, [], batches);
    assert [] + RunSources(them, 0, batches) == RunSources(them, 0, batches);
  }

  // ----- the events a trade queues, and the entries of the log -----

  /** The batches of a log are those that a history of statuses took in. */
  predicate Matches(taken: seq<Taken>, batches: seq<Batch>) {
    |taken| == |batches|
    && forall i | 0 <= i < |taken| :: batches[i].events == taken[i].status.events && batches[i].order == taken[i].order
  }

  function LogEvent(log: seq<Entry>, i: nat): seq<Event> { if i < |log| then Queued(log[i]) else [] }

  /** The events that entries of the log stand for. */
  function LogEvents(log: seq<Entry>, s: seq<nat>): seq<Event> {
    if s == [] then [] else LogEvents(log, s[..|s| - 1]) + LogEvent(log, s[|s| - 1])
  }

  lemma {:induction false} LogEventsAppend(log: seq<Entry>, a: seq<nat>, b: seq<nat>)
    ensures LogEvents(log, a + b) == LogEvents(log, a) + LogEvents(log, b)
  {
    if b == [] {
      assert a + b == a;
    } else {
      var n := |b| - 1;
      LogEventsAppend(log, a, b[..n]);
      assert (a + b)[..|a + b| - 1] == a + b[..n];
      Reassociate(LogEvents(log, a), LogEvents(log, b[..n]), LogEvent(log, b[n]));
    }
  }

  /** All events but the endings. */
  function Entries(s: seq<Event>): seq<Event> {
    if s == [] then [] else Entries(s[..|s| - 1]) + (if s[|s| - 1].TradeEnded? then [] else [s[|s| - 1]])
  }

  lemma {:induction false} EntriesAppend(a: seq<Event>, b: seq<Event>)
    ensures Entries(a + b) == Entries(a) + Entries(b)
  {
    if b == [] {
      assert a + b == a;
    } else {
      var n := |b| - 1;
      EntriesAppend(a, b[..n]);
      assert (a + b)[..|a + b| - 1] == a + b[..n];
      Reassociate(Entries(a), Entries(b[..n]), if b[n].TradeEnded? then [] else [b[n]]);
    }
  }

  lemma OneEvent(e: Event)
    ensures Entries([e]) == if e.TradeEnded? then [] else [e]
  {
    assert [e][..0] == [];
  }

  lemma QueuedIsEntry(e: Entry)
    ensures Entries(Queued(e)) == Queued(e)
  {
    match EventOf(e) {
      case None =>
      case Some(v) => OneEvent(v);
    }
  }

  /** No entry stands for an ending. */
  lemma {:induction false} ConvertIsEntries(events: map<nat, Entry>, s: seq<nat>)
    requires forall i | i in s :: i in events
    ensures Entries(Convert(events, s)) == Convert(events, s)
  {
    if s != [] {
      var n := |s| - 1;
      ConvertIsEntries(events, s[..n]);
      EntriesAppend(Convert(events, s[..n]), Queued(events[s[n]]));
      QueuedIsEntry(events[s[n]]);
    }
  }

  predicate SameEntry(log: seq<Entry>, events: map<nat, Entry>, i: nat) {
    i in events && i < |log| && events[i] == log[i]
  }

  lemma {:induction false} ConvertIsLogEvents(log: seq<Entry>, events: map<nat, Entry>, s: seq<nat>)
    requires (forall i | i in s :: i in events) && forall i | i in s :: SameEntry(log, events, i)
    ensures Convert(events, s) == LogEvents(log, s)
  {
    if s != [] {
      var n := |s| - 1;
      ConvertIsLogEvents(log, events, s[..n]);
      assert SameEntry(log, events, s[n]);
    }
  }

  lemma SourcesAreInLog(log: seq<Entry>, them: nat, logPos: nat, b: Batch)
    requires FromLog(log, logPos, b)
    ensures forall i | i in Sources(b.events, logPos, them, b.order) :: SameEntry(log, b.events, i)
  {
    forall i | i in Sources(b.events, logPos, them, b.order) ensures SameEntry(log, b.events, i) {
      assert i in b.events;
    }
  }

  lemma EndingIsNoEntry(tradeStatus: nat)
    ensures Entries(Ending(tradeStatus)) == []
  {
    if Ending(tradeStatus) != [] { OneEvent(Ending(tradeStatus)[0]); }
  }

  lemma QueuedByIs(log: seq<Entry>, them: nat, logPos: nat, b: Batch, t: Taken)
    requires FromLog(log, logPos, b) && b.events == t.status.events && b.order == t.order
    ensures Entries(QueuedBy(them, logPos, t)) == LogEvents(log, Sources(b.events, logPos, them, b.order))
  {
    var src := Sources(b.events, logPos, them, b.order);
    EntriesAppend(Ending(t.status.tradeStatus), Convert(b.events, src));
    EndingIsNoEntry(t.status.tradeStatus);
    ConvertIsEntries(b.events, src);
    SourcesAreInLog(log, them, logPos, b);
    ConvertIsLogEvents(log, b.events, src);
    assert [] + LogEvents(log, src) == LogEvents(log, src);
  }

  function RunLogPos(them: nat, logPos: nat, batches: seq<Batch>): nat
    decreases |batches|
  {
    if batches == [] then logPos else RunLogPos(them, NextLogPos(batches[0], logPos, them), batches[1..])
  }

  lemma MatchesRest(taken: seq<Taken>, batches: seq<Batch>)
    requires Matches(taken, batches) && batches != []
    ensures Matches(taken[1..], batches[1..])
    ensures batches[0].events == taken[0].status.events && batches[0].order == taken[0].order
  {}

  lemma {:induction false} PositionIsRun(them: nat, logPos: nat, taken: seq<Taken>, batches: seq<Batch>)
    requires Matches(taken, batches)
    ensures LogPosFrom(them, logPos, taken) == RunLogPos(them, logPos, batches)
    decreases |batches|
  {
    if batches != [] {
      MatchesRest(taken, batches);
      PositionIsRun(them, NextLogPos(batches[0], logPos, them), taken[1..], batches[1..]);
    }
  }

  /**
   What a trade queues over a run of statuses is, but for the endings, the events of the entries that the run
   over the log counts, in that order; and its position is the run's.
   */
  lemma {:induction false} HistoryIsRun(log: seq<Entry>, them: nat, logPos: nat, bound: nat, taken: seq<Taken>,
                                        batches: seq<Batch>)
    requires LogRun(log, them, logPos, bound, batches) && Matches(taken, batches)
    ensures Entries(QueuedFrom(them, logPos, taken)) == LogEvents(log, RunSources(them, logPos, batches))
    ensures LogPosFrom(them, logPos, taken) == RunLogPos(them, logPos, batches)
    decreases |batches|
  {
    PositionIsRun(them, logPos, taken, batches);
    if batches != [] {
      MatchesRest(taken, batches);
      OneMoreStatus(log, them, logPos, taken, batches);
      HistoryIsRun(log, them, NextLogPos(batches[0], logPos, them),
                   if batches[0].events == map[] then bound else batches[0].len, taken[1..], batches[1..]);
    }
  }

  lemma OneMoreStatus(log: seq<Entry>, them: nat, logPos: nat, taken: seq<Taken>, batches: seq<Batch>)
    requires batches != [] && taken != [] && FromLog(log, logPos, batches[0])
    requires batches[0].events == taken[0].status.events && batches[0].order == taken[0].order
    ensures var next := NextLogPos(batches[0], logPos, them);
            Entries(QueuedFrom(them, next, taken[1..])) == LogEvents(log, RunSources(them, next, batches[1..])) ==>
              Entries(QueuedFrom(them, logPos, taken)) == LogEvents(log, RunSources(them, logPos, batches))
  {
    var b, t := batches[0], taken[0];
    var next := NextLogPos(b, logPos, them);
    assert next == NextLogPos(BatchOf(t), logPos, them);
    QueuedByIs(log, them, logPos, b, t);
    EntriesAppend(QueuedBy(them, logPos, t), QueuedFrom(them, next, taken[1..]));
    LogEventsAppend(log, Sources(b.events, logPos, them, b.order), RunSources(them, next, batches[1..]));
  }

  lemma {:induction false} OnceAtTheEnd(log: seq<Entry>, them: nat, logPos: nat, sources: seq<nat>, batches: seq<Batch>)
    requires AlwaysOnce(log, them, logPos, sources, batches)
    ensures ExactlyOnce(log, them, RunLogPos(them, logPos, batches), sources + RunSources(them, logPos, batches))
    decreases |batches|
  {
    if batches == [] {
      assert sources + [] == sources;
    } else {
      var b := batches[0];
      var next, added := NextLogPos(b, logPos, them), Sources(b.events, logPos, them, b.order);
      OnceAtTheEnd(log, them, next, sources + added, batches[1..]);
      Reassociate(sources, added, RunSources(them, next, batches[1..]));
    }
  }

  /**
   A trade that took in the batches of a log, all of them harmless: the events it ever queued, but for the
   endings, are those of the partner's due entries below its log position, each exactly once.
   */
  lemma TradeQueuesOnce(log: seq<Entry>, t: Trade, batches: seq<Batch>) returns (sources: seq<nat>)
    requires t.Valid() && t.Traced() && Matches(t.taken, batches) && LogRun(log, t.them, 0, 0, batches)
    requires AllHarmless(log, t.them, 0, batches)
    ensures ExactlyOnce(log, t.them, t.logPos, sources)
    ensures Entries(t.drained + t.queued) == LogEvents(log, sources)
  {
    sources := RunSources(t.them, 0, batches);
    HistoryIsRun(log, t.them, 0, 0, t.taken, batches);
    EveryEntryOnce(log, t.them, batches);
    OnceAtTheEnd(log, t.them, 0, [], batches);
    assert [] + sources == sources;
  }

  function MineThenTheirs(mine: Entry, theirs: Entry): Batch { Batch(2, map[0 := mine, 1 := theirs], [0, 1]) }

  function OnlyMine(mine: Entry): Batch { Batch(3, map[2 := mine], [2]) }

  function TheirsAgain(mine: Entry, theirs: Entry): Batch { Batch(3, map[1 := theirs, 2 := mine], [1, 2]) }

  lemma RunCons(them: nat, logPos: nat, b: Batch, rest: seq<Batch>)
    ensures RunSources(them, logPos, [b] + rest)
            == Sources(b.events, logPos, them, b.order) + RunSources(them, NextLogPos(b, logPos, them), rest)
  {
    assert ([b] + rest)[1..] == rest;
  }

  /**
   Without a fresh entry the position falls back to 1: of a log in which the partner's entry stands between
   two of ours, polled when it is two long and twice when it is three long, the partner's is queued twice.
   */
  lemma ResetQueuesTwice(them: nat, mine: Entry, theirs: Entry)
    requires theirs.steamId == them && mine.steamId != them && EventOf(theirs).Some?
    ensures var log := [mine, theirs, mine];
            && FromLog(log, 0, MineThenTheirs(mine, theirs)) && FromLog(log, 2, OnlyMine(mine))
            && FromLog(log, 1, TheirsAgain(mine, theirs))
    ensures RunSources(them, 0,
                       [MineThenTheirs(mine, theirs)] + ([OnlyMine(mine)] + ([TheirsAgain(mine, theirs)] + [])))
            == [1, 1]
  {
    var first, second, third := MineThenTheirs(mine, theirs), OnlyMine(mine), TheirsAgain(mine, theirs);
    FirstBatch(them, mine, theirs);
    SecondBatch(them, mine, theirs);
    ThirdBatch(them, mine, theirs);
    RunCons(them, 0, first, [second] + ([third] + []));
    RunCons(them, 2, second, [third] + []);
    RunCons(them, 1, third, []);
  }

  lemma FirstBatch(them: nat, mine: Entry, theirs: Entry)
    requires theirs.steamId == them && mine.steamId != them && EventOf(theirs).Some?
    ensures var b := MineThenTheirs(mine, theirs);
            && FromLog([mine, theirs, mine], 0, b) && NextLogPos(b, 0, them) == 2
            && Sources(b.events, 0, them, b.order) == [1]
  {
    TwoEntries(MineThenTheirs(mine, theirs).events, 0, them, 0, 1);
  }

  lemma SecondBatch(them: nat, mine: Entry, theirs: Entry)
    requires mine.steamId != them
    ensures var b := OnlyMine(mine);
            && FromLog([mine, theirs, mine], 2, b) && NextLogPos(b, 2, them) == 1
            && Sources(b.events, 2, them, b.order) == []
  {
    var b := OnlyMine(mine);
    assert [2][..0] == [];
    assert Fold(Folded(0, false, []), b.events, 2, them, b.order) == Folded(0, false, []);
  }

  lemma ThirdBatch(them: nat, mine: Entry, theirs: Entry)
    requires theirs.steamId == them && mine.steamId != them && EventOf(theirs).Some?
    ensures var b := TheirsAgain(mine, theirs);
            FromLog([mine, theirs, mine], 1, b) && Sources(b.events, 1, them, b.order) == [1]
  {
    TwoEntries(TheirsAgain(mine, theirs).events, 1, them, 1, 2);
  }

  lemma TwoEntries(events: map<nat, Entry>, logPos: nat, them: nat, i: nat, j: nat)
    ensures Fold(Folded(0, false, []), events, logPos, them, [i, j])
            == OneEntry(OneEntry(Folded(0, false, []), events, logPos, them, i), events, logPos, them, j)
    ensures Sources(events, logPos, them, [i, j])
            == (if Handled(events, logPos, them, i) then [i] else [])
               + (if Handled(events, logPos, them, j) then [j] else [])
  {
    var f := Folded(0, false, []);
    assert [i, j][..1] == [i] && [i][..0] == [];
    assert Fold(f, events, logPos, them, [i]) == OneEntry(f, events, logPos, them, i);
    assert Sources(events, logPos, them, [i]) == if Handled(events, logPos, them, i) then [i] else [];
  }
}
