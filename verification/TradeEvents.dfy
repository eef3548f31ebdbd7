/** What a trade's queued events are, in terms of the fields and action codes of the entries it took in. */
module TradeEvents {
  import opened Basics
  import opened Trade

  /** The entry stands for the event, by the codes of tradeapi.Action. */
  predicate Tells(e: Entry, v: Event) {
    match v
    case ItemAdded(item) =>
      e.action == 0 && e.appId == item.appId && e.contextId == item.contextId && e.assetId == item.assetId
    case ItemRemoved(item) =>
      e.action == 1 && e.appId == item.appId && e.contextId == item.contextId && e.assetId == item.assetId
    case Ready => e.action == 2
    case Unready => e.action == 3
    case SetCurrency(c, oldAmount, newAmount) =>
      && e.action == 6 && e.appId == c.appId && e.contextId == c.contextId && e.currencyId == c.currencyId
      && e.oldAmount == oldAmount && e.newAmount == newAmount
    case Chat(text) => e.action == 7 && e.text == text
    case TradeEnded(_) => false
  }

  function One(b: bool): nat { if b then 1 else 0 }

  /** How often the event is among the events. */
  function Times(s: seq<Event>, v: Event): nat {
    if s == [] then 0 else Times(s[..|s| - 1], v) + One(s[|s| - 1] == v)
  }

  lemma {:induction false} TimesIs(s: seq<Event>, v: Event)
    ensures Times(s, v) == multiset(s)[v]
  {
    if s != [] {
      var n := |s| - 1;
      TimesIs(s[..n], v);
      assert s == s[..n] + [s[n]];
    }
  }

  lemma {:induction false} OfTwo(a: seq<Event>, b: seq<Event>, v: Event)
    ensures Times(a + b, v) == Times(a, v) + Times(b, v)
  {
    if b == [] {
      assert a + b == a;
    } else {
      OfTwo(a, b[..|b| - 1], v);
      assert (a + b)[..|a + b| - 1] == a + b[..|b| - 1];
    }
  }

  lemma OfOne(e: Event, v: Event)
    ensures Times([e], v) == One(e == v)
  {
    assert [e][..0] == [];
  }

  lemma QueuedTells(e: Entry, v: Event)
    ensures Times(Queued(e), v) == One(Tells(e, v))
    ensures Tells(e, v) ==> EventOf(e).Some?
  {
    if EventOf(e).Some? { OfOne(EventOf(e).value, v); }
  }

  /** How many of the entries stand for the event. */
  function Number(es: seq<Entry>, v: Event): nat {
    if es == [] then 0 else Number(es[..|es| - 1], v) + One(Tells(es[|es| - 1], v))
  }

  lemma {:induction false} NumberAppend(a: seq<Entry>, b: seq<Entry>, v: Event)
    ensures Number(a + b, v) == Number(a, v) + Number(b, v)
  {
    if b == [] {
      assert a + b == a;
    } else {
      NumberAppend(a, b[..|b| - 1], v);
      assert (a + b)[..|a + b| - 1] == a + b[..|b| - 1];
    }
  }

  function Telling(es: seq<Entry>, v: Event): set<int> { set k | 0 <= k < |es| && Tells(es[k], v) }

  lemma TellingOne(es: seq<Entry>, e: Entry, v: Event)
    ensures |Telling(es + [e], v)| == |Telling(es, v)| + One(Tells(e, v))
  {
    assert Telling(es + [e], v) == Telling(es, v) + if Tells(e, v) then {|es|} else {};
  }

  lemma {:induction false} NumberIs(es: seq<Entry>, v: Event)
    ensures Number(es, v) == |Telling(es, v)|
  {
    if es != [] {
      var n := |es| - 1;
      NumberIs(es[..n], v);
      assert es == es[..n] + [es[n]];
      TellingOne(es[..n], es[n], v);
    }
  }

  // ----- the entries a trade takes in -----

  /** The entry under a key, if it is the partner's and not before the log position. */
  function FreshOne(events: map<nat, Entry>, logPos: nat, them: nat, i: nat): seq<Entry> {
    if i in events && logPos <= i && events[i].steamId == them then [events[i]] else []
  }

  /** The partner's entries of a batch from the log position on, in the order of iteration. */
  function FreshEntries(events: map<nat, Entry>, logPos: nat, them: nat, order: seq<nat>): seq<Entry> {
    if order == [] then [] else
      var n := |order| - 1;
      FreshEntries(events, logPos, them, order[..n]) + FreshOne(events, logPos, them, order[n])
  }

  /** Those of a history of statuses. */
  function EntriesTaken(them: nat, logPos: nat, taken: seq<Taken>): seq<Entry>
    decreases |taken|
  {
    if taken == [] then [] else
      FreshEntries(taken[0].status.events, logPos, them, taken[0].order)
      + EntriesTaken(them, NextLogPos(BatchOf(taken[0]), logPos, them), taken[1..])
  }

  /** One more entry of the order converts to its event, or to nothing. */
  lemma ConvertStep(events: map<nat, Entry>, logPos: nat, them: nat, order: seq<nat>, i: nat)
    requires order != [] && i == order[|order| - 1]
    ensures Convert(events, Sources(events, logPos, them, order))
            == Convert(events, Sources(events, logPos, them, order[..|order| - 1]))
               + if Handled(events, logPos, them, i) then Queued(events[i]) else []
  {
    var before, s := Sources(events, logPos, them, order[..|order| - 1]), Sources(events, logPos, them, order);
    if Handled(events, logPos, them, i) { assert s[..|s| - 1] == before; } else { assert s == before; }
  }

  lemma OneTells(events: map<nat, Entry>, logPos: nat, them: nat, i: nat, v: Event)
    ensures Times(if Handled(events, logPos, them, i) then Queued(events[i]) else [], v)
            == Number(FreshOne(events, logPos, them, i), v)
  {
    if Fresh(events, logPos, them, i) {
      QueuedTells(events[i], v);
      assert [events[i]][..0] == [];
      assert Number([events[i]], v) == One(Tells(events[i], v));
    }
  }

  lemma {:induction false} ConvertTells(events: map<nat, Entry>, logPos: nat, them: nat, order: seq<nat>, v: Event)
    ensures Times(Convert(events, Sources(events, logPos, them, order)), v)
            == Number(FreshEntries(events, logPos, them, order), v)
  {
    if order != [] {
      var n, i := |order| - 1, order[|order| - 1];
      ConvertTells(events, logPos, them, order[..n], v);
      ConvertStep(events, logPos, them, order, i);
      OneTells(events, logPos, them, i, v);
      OfTwo(Convert(events, Sources(events, logPos, them, order[..n])),
            if Handled(events, logPos, them, i) then Queued(events[i]) else [], v);
      NumberAppend(FreshEntries(events, logPos, them, order[..n]), FreshOne(events, logPos, them, i), v);
    }
  }

  lemma EndingTells(tradeStatus: nat, v: Event)
    requires !v.TradeEnded?
    ensures Times(Ending(tradeStatus), v) == 0
  {
    if Ending(tradeStatus) != [] { OfOne(Ending(tradeStatus)[0], v); }
  }

  lemma QueuedByTells(them: nat, logPos: nat, t: Taken, v: Event)
    requires !v.TradeEnded?
    ensures Times(QueuedBy(them, logPos, t), v) == Number(FreshEntries(t.status.events, logPos, them, t.order), v)
  {
    EndingTells(t.status.tradeStatus, v);
    ConvertTells(t.status.events, logPos, them, t.order, v);
    OfTwo(Ending(t.status.tradeStatus), Convert(t.status.events, Sources(t.status.events, logPos, them, t.order)), v);
  }

  lemma {:induction false} QueuedTellsAll(them: nat, logPos: nat, taken: seq<Taken>, v: Event)
    requires !v.TradeEnded?
    ensures Times(QueuedFrom(them, logPos, taken), v) == Number(EntriesTaken(them, logPos, taken), v)
    decreases |taken|
  {
    if taken != [] {
      var t := taken[0];
      var next := NextLogPos(BatchOf(t), logPos, them);
      QueuedTellsAll(them, next, taken[1..], v);
      QueuedByTells(them, logPos, t, v);
      OfTwo(QueuedBy(them, logPos, t), QueuedFrom(them, next, taken[1..]), v);
      NumberAppend(FreshEntries(t.status.events, logPos, them, t.order), EntriesTaken(them, next, taken[1..]), v);
    }
  }

  /** How often an event was ever queued, by the entries that stand for it. */
  lemma EverQueued(t: Trade, v: Event)
    requires t.Valid() && t.Traced() && !v.TradeEnded?
    ensures multiset(t.drained + t.queued)[v] == |Telling(EntriesTaken(t.them, 0, t.taken), v)|
  {
    TimesIs(t.drained + t.queued, v);
    QueuedTellsAll(t.them, 0, t.taken, v);
    NumberIs(EntriesTaken(t.them, 0, t.taken), v);
  }

  lemma TellingItem(es: seq<Entry>, app: nat, context: nat, asset: nat)
    ensures Telling(es, ItemAdded(Item(app, context, asset))) == set k | 0 <= k < |es| && es[k].action == 0
              && es[k].appId == app && es[k].contextId == context && es[k].assetId == asset
    ensures Telling(es, ItemRemoved(Item(app, context, asset))) == set k | 0 <= k < |es| && es[k].action == 1
              && es[k].appId == app && es[k].contextId == context && es[k].assetId == asset
  {}

  /**
   Over any history of a trade: an item was queued as added as often as the entries taken in have action 0 and
   the item's three ids, and as removed as often as they have action 1 and those.
   */
  lemma ItemsQueued(t: Trade, app: nat, context: nat, asset: nat)
    requires t.Valid() && t.Traced()
    ensures var es, all := EntriesTaken(t.them, 0, t.taken), multiset(t.drained + t.queued);
            && all[ItemAdded(Item(app, context, asset))] == |set k | 0 <= k < |es| && es[k].action == 0
                 && es[k].appId == app && es[k].contextId == context && es[k].assetId == asset|
            && all[ItemRemoved(Item(app, context, asset))] == |set k | 0 <= k < |es| && es[k].action == 1
                 && es[k].appId == app && es[k].contextId == context && es[k].assetId == asset|
  {
    var es, item := EntriesTaken(t.them, 0, t.taken), Item(app, context, asset);
    EverQueued(t, ItemAdded(item));
    EverQueued(t, ItemRemoved(item));
    TellingItem(es, app, context, asset);
  }

  lemma TellingSignal(es: seq<Entry>)
    ensures Telling(es, Ready) == set k | 0 <= k < |es| && es[k].action == 2
    ensures Telling(es, Unready) == set k | 0 <= k < |es| && es[k].action == 3
  {}

  lemma TellingChat(es: seq<Entry>, text: string)
    ensures Telling(es, Chat(text)) == set k | 0 <= k < |es| && es[k].action == 7 && es[k].text == text
  {}

  /** And Ready as often as the entries have action 2, Unready action 3. */
  lemma SignalsQueued(t: Trade)
    requires t.Valid() && t.Traced()
    ensures var es, all := EntriesTaken(t.them, 0, t.taken), multiset(t.drained + t.queued);
            && all[Ready] == |set k | 0 <= k < |es| && es[k].action == 2|
            && all[Unready] == |set k | 0 <= k < |es| && es[k].action == 3|
  {
    var es := EntriesTaken(t.them, 0, t.taken);
    EverQueued(t, Ready);
    EverQueued(t, Unready);
    TellingSignal(es);
  }

  /** And a chat message as often as they have action 7 and its text. */
  lemma ChatsQueued(t: Trade, text: string)
    requires t.Valid() && t.Traced()
    ensures var es, all := EntriesTaken(t.them, 0, t.taken), multiset(t.drained + t.queued);
            all[Chat(text)] == |set k | 0 <= k < |es| && es[k].action == 7 && es[k].text == text|
  {
    var es := EntriesTaken(t.them, 0, t.taken);
    EverQueued(t, Chat(text));
    TellingChat(es, text);
  }

  lemma TellingCurrency(es: seq<Entry>, app: nat, context: nat, currency: nat, before: nat, after: nat)
    ensures Telling(es, SetCurrency(Currency(app, context, currency), before, after)) ==
            set k | 0 <= k < |es| && es[k].action == 6 && es[k].appId == app && es[k].contextId == context
               && es[k].currencyId == currency && es[k].oldAmount == before && es[k].newAmount == after
  {}

  /** And a change of a currency as often as they have action 6, its three ids, and both amounts in their places. */
  lemma CurrenciesQueued(t: Trade, app: nat, context: nat, currency: nat, before: nat, after: nat)
    requires t.Valid() && t.Traced()
    ensures var es, all := EntriesTaken(t.them, 0, t.taken), multiset(t.drained + t.queued);
            all[SetCurrency(Currency(app, context, currency), before, after)] ==
            |set k | 0 <= k < |es| && es[k].action == 6 && es[k].appId == app && es[k].contextId == context
               && es[k].currencyId == currency && es[k].oldAmount == before && es[k].newAmount == after|
  {
    var es, v := EntriesTaken(t.them, 0, t.taken), SetCurrency(Currency(app, context, currency), before, after);
    EverQueued(t, v);
    TellingCurrency(es, app, context, currency, before, after);
  }

  // ----- endings -----

  /** The trade status that ends a trade for a reason. */
  predicate Ends(tradeStatus: nat, reason: EndReason) {
    match reason
    case Complete => tradeStatus == 1
    case Cancelled => tradeStatus == 3
    case Timeout => tradeStatus == 4
    case Failed => tradeStatus == 5
  }

  function Ended(taken: seq<Taken>, reason: EndReason): set<int> {
    set k | 0 <= k < |taken| && Ends(taken[k].status.tradeStatus, reason)
  }

  lemma NoEnding(e: Entry, reason: EndReason)
    ensures Times(Queued(e), TradeEnded(reason)) == 0
  {
    if EventOf(e).Some? { OfOne(EventOf(e).value, TradeEnded(reason)); }
  }

  lemma {:induction false} ConvertHasNoEnding(events: map<nat, Entry>, s: seq<nat>, reason: EndReason)
    requires forall i | i in s :: i in events
    ensures Times(Convert(events, s), TradeEnded(reason)) == 0
  {
    if s != [] {
      var n := |s| - 1;
      ConvertHasNoEnding(events, s[..n], reason);
      NoEnding(events[s[n]], reason);
      OfTwo(Convert(events, s[..n]), Queued(events[s[n]]), TradeEnded(reason));
    }
  }

  lemma OneEnding(tradeStatus: nat, reason: EndReason)
    ensures Times(Ending(tradeStatus), TradeEnded(reason)) == One(Ends(tradeStatus, reason))
  {
    if Ending(tradeStatus) != [] { OfOne(Ending(tradeStatus)[0], TradeEnded(reason)); }
  }

  lemma StatusEnds(them: nat, logPos: nat, t: Taken, reason: EndReason)
    ensures Times(QueuedBy(them, logPos, t), TradeEnded(reason)) == One(Ends(t.status.tradeStatus, reason))
  {
    var sources := Sources(t.status.events, logPos, them, t.order);
    OneEnding(t.status.tradeStatus, reason);
    ConvertHasNoEnding(t.status.events, sources, reason);
    OfTwo(Ending(t.status.tradeStatus), Convert(t.status.events, sources), TradeEnded(reason));
  }

  lemma EndedOneMore(taken: seq<Taken>, t: Taken, reason: EndReason)
    ensures |Ended(taken + [t], reason)| == |Ended(taken, reason)| + One(Ends(t.status.tradeStatus, reason))
  {
    assert Ended(taken + [t], reason)
        == Ended(taken, reason) + if Ends(t.status.tradeStatus, reason) then {|taken|} else {};
  }

  lemma {:induction false} EndingsQueued(them: nat, logPos: nat, taken: seq<Taken>, reason: EndReason)
    ensures Times(QueuedFrom(them, logPos, taken), TradeEnded(reason)) == |Ended(taken, reason)|
    decreases |taken|
  {
    if taken != [] {
      var n := |taken| - 1;
      var before, t := taken[..n], taken[n];
      assert taken == before + [t];
      EndingsQueued(them, logPos, before, reason);
      HistorySnoc(them, logPos, before, t);
      StatusEnds(them, LogPosFrom(them, logPos, before), t, reason);
      OfTwo(QueuedFrom(them, logPos, before), QueuedBy(them, LogPosFrom(them, logPos, before), t), TradeEnded(reason));
      EndedOneMore(before, t, reason);
    }
  }

  /** A trade was queued as ended for a reason as often as a successful status gave the code of that reason. */
  lemma EndingsAreQueued(t: Trade)
    requires t.Valid() && t.Traced()
    ensures var all, taken := multiset(t.drained + t.queued), t.taken;
            && all[TradeEnded(Complete)] == |set k | 0 <= k < |taken| && taken[k].status.tradeStatus == 1|
            && all[TradeEnded(Cancelled)] == |set k | 0 <= k < |taken| && taken[k].status.tradeStatus == 3|
            && all[TradeEnded(Timeout)] == |set k | 0 <= k < |taken| && taken[k].status.tradeStatus == 4|
            && all[TradeEnded(Failed)] == |set k | 0 <= k < |taken| && taken[k].status.tradeStatus == 5|
  {
    EndedIs(t, Complete);
    EndedIs(t, Cancelled);
    EndedIs(t, Timeout);
    EndedIs(t, Failed);
    EndedSets(t.taken);
  }

  lemma EndedSets(taken: seq<Taken>)
    ensures Ended(taken, Complete) == set k | 0 <= k < |taken| && taken[k].status.tradeStatus == 1
    ensures Ended(taken, Cancelled) == set k | 0 <= k < |taken| && taken[k].status.tradeStatus == 3
    ensures Ended(taken, Timeout) == set k | 0 <= k < |taken| && taken[k].status.tradeStatus == 4
    ensures Ended(taken, Failed) == set k | 0 <= k < |taken| && taken[k].status.tradeStatus == 5
  {}

  lemma EndedIs(t: Trade, reason: EndReason)
    requires t.Valid() && t.Traced()
    ensures multiset(t.drained + t.queued)[TradeEnded(reason)] == |Ended(t.taken, reason)|
  {
    TimesIs(t.drained + t.queued, TradeEnded(reason));
    EndingsQueued(t.them, 0, t.taken, reason);
  }

  // ----- once each, over one log -----

  /** The log entries below a position that are the partner's and stand for the event. */
  function DueFor(log: seq<Entry>, them: nat, logPos: nat, v: Event): set<nat> {
    set i: nat | i < |log| && i < logPos && log[i].steamId == them && Tells(log[i], v)
  }

  function TellingIn(log: seq<Entry>, s: seq<nat>, v: Event): set<nat> {
    set i | i in s && i < |log| && Tells(log[i], v)
  }

  lemma TellingOneMore(log: seq<Entry>, s: seq<nat>, i: nat, v: Event)
    requires i !in s
    ensures |TellingIn(log, s + [i], v)| == |TellingIn(log, s, v)| + One(i < |log| && Tells(log[i], v))
  {
    assert TellingIn(log, s + [i], v) == TellingIn(log, s, v) + if i < |log| && Tells(log[i], v) then {i} else {};
  }

  lemma LogEventTells(log: seq<Entry>, i: nat, v: Event)
    ensures Times(LogEvent(log, i), v) == One(i < |log| && Tells(log[i], v))
  {
    if i < |log| { QueuedTells(log[i], v); }
  }

  lemma LastIsNew(s: seq<nat>)
    requires NoDup(s) && s != []
    ensures var n := |s| - 1; s == s[..n] + [s[n]] && s[n] !in s[..n] && NoDup(s[..n])
  {}

  lemma {:induction false} LogEventsTell(log: seq<Entry>, s: seq<nat>, v: Event)
    requires NoDup(s)
    ensures Times(LogEvents(log, s), v) == |TellingIn(log, s, v)|
  {
    if s != [] {
      var n := |s| - 1;
      LogEventsTell(log, s[..n], v);
      LastIsNew(s);
      OfTwo(LogEvents(log, s[..n]), LogEvent(log, s[n]), v);
      LogEventTells(log, s[n], v);
      TellingOneMore(log, s[..n], s[n], v);
    }
  }

  lemma OneKept(e: Event, v: Event)
    requires !v.TradeEnded?
    ensures Times(if e.TradeEnded? then [] else [e], v) == One(e == v)
  {
    OfOne(e, v);
  }

  lemma {:induction false} EntriesKeep(s: seq<Event>, v: Event)
    requires !v.TradeEnded?
    ensures Times(Entries(s), v) == Times(s, v)
  {
    if s != [] {
      var n := |s| - 1;
      var before, e := s[..n], s[n];
      EntriesKeep(before, v);
      OfTwo(Entries(before), if e.TradeEnded? then [] else [e], v);
      OneKept(e, v);
    }
  }

  /**
   A trade whose batches of one log were all harmless has queued every event exactly as often as the partner's
   log entries below its position stand for it.
   */
  lemma QueuedOncePerEntry(log: seq<Entry>, t: Trade, batches: seq<Batch>, v: Event)
    requires t.Valid() && t.Traced() && Matches(t.taken, batches) && LogRun(log, t.them, 0, 0, batches)
    requires AllHarmless(log, t.them, 0, batches) && !v.TradeEnded?
    ensures multiset(t.drained + t.queued)[v] == |DueFor(log, t.them, t.logPos, v)|
  {
    var sources := TradeQueuesOnce(log, t, batches);
    TimesIs(t.drained + t.queued, v);
    EntriesKeep(t.drained + t.queued, v);
    LogEventsTell(log, sources, v);
    assert TellingIn(log, sources, v) == DueFor(log, t.them, t.logPos, v) by {
      forall i: nat | i < |log| && i < t.logPos && log[i].steamId == t.them && Tells(log[i], v)
        ensures i in sources
      {
        QueuedTells(log[i], v);
        assert Due(log, t.them, i);
      }
    }
  }

  /** So an item added once in the partner's part of the log was queued as added once: the items, by their ids. */
  lemma ItemsOncePerEntry(log: seq<Entry>, t: Trade, batches: seq<Batch>, app: nat, context: nat, asset: nat)
    requires t.Valid() && t.Traced() && Matches(t.taken, batches) && LogRun(log, t.them, 0, 0, batches)
    requires AllHarmless(log, t.them, 0, batches)
    ensures multiset(t.drained + t.queued)[ItemAdded(Item(app, context, asset))] ==
            |set i: nat | i < |log| && i < t.logPos && log[i].steamId == t.them && log[i].action == 0
               && log[i].appId == app && log[i].contextId == context && log[i].assetId == asset|
  {
    var v := ItemAdded(Item(app, context, asset));
    QueuedOncePerEntry(log, t, batches, v);
    assert DueFor(log, t.them, t.logPos, v) ==
           set i: nat | i < |log| && i < t.logPos && log[i].steamId == t.them && log[i].action == 0
               && log[i].appId == app && log[i].contextId == context && log[i].assetId == asset;
  }
}
