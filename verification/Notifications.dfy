/** The map of notification counts and the events its updates emit. */
module Notifications {
  import opened Basics

  /** A NotificationEvent, and an entry of a notifications packet: a type and its count. */
  datatype Event = Event(typ: nat, count: nat)

  /** The count of the last event of a type, on top of what it was before. */
  function Replay(before: nat, events: seq<Event>, typ: nat): nat {
    if events == [] then before
    else
      var last := events[|events| - 1];
      if last.typ == typ then last.count else Replay(before, events[..|events| - 1], typ)
  }

  lemma {:induction false} ReplayAppend(before: nat, a: seq<Event>, b: seq<Event>, typ: nat)
    ensures Replay(before, a + b, typ) == Replay(Replay(before, a, typ), b, typ)
  {
    if b == [] {
      assert a + b == a;
    } else {
      ReplayAppend(before, a, b[..|b| - 1], typ);
      assert (a + b)[..|a + b| - 1] == a + b[..|b| - 1];
    }
  }

  predicate HasType(events: seq<Event>, typ: nat) { exists e | e in events :: e.typ == typ }

  /** A type that does not occur keeps its count; one that does gets a count that occurs with it. */
  lemma {:induction false} ReplayOf(before: nat, events: seq<Event>, typ: nat)
    ensures if HasType(events, typ) then Event(typ, Replay(before, events, typ)) in events
            else Replay(before, events, typ) == before
    ensures HasType(events, typ) ==> forall other: nat :: Replay(other, events, typ) == Replay(before, events, typ)
  {
    if events != [] {
      var init, last := events[..|events| - 1], events[|events| - 1];
      ReplayOf(before, init, typ);
      assert events == init + [last] && last in events;
      assert HasType(events, typ) <==> HasType(init, typ) || last.typ == typ by {
        if HasType(init, typ) {
          var e :| e in init && e.typ == typ;
          assert e in events;
        }
      }
    }
  }

  function Count(m: map<nat, nat>, typ: nat): nat { if typ in m then m[typ] else 0 }

  /** Replaying the events on all-zero counts gives the map, read with an absent type as zero. */
  ghost predicate Agrees(m: map<nat, nat>, emitted: seq<Event>) {
    forall typ: nat :: Replay(0, emitted, typ) == Count(m, typ)
  }

  lemma AgreesEmit(m: map<nat, nat>, emitted: seq<Event>, e: Event)
    requires Agrees(m, emitted)
    ensures Agrees(m[e.typ := e.count], emitted + [e])
    ensures e.count == 0 ==> Agrees(m - {e.typ}, emitted + [e])
  {
    assert (emitted + [e])[..|emitted|] == emitted;
    forall typ: nat
      ensures Replay(0, emitted + [e], typ) == Count(m[e.typ := e.count], typ)
      ensures e.count == 0 ==> Replay(0, emitted + [e], typ) == Count(m - {e.typ}, typ)
    {
      assert Replay(0, emitted, typ) == Count(m, typ);
    }
  }

  predicate NoDup(s: seq<Event>) { forall i, j | 0 <= i < j < |s| :: s[i].typ != s[j].typ }

  /** One zero event for every type that was in the map and is not in the packet, in some order. */
  ghost predicate Clears(cleared: seq<Event>, types: set<nat>) {
    NoDup(cleared) && (forall e | e in cleared :: e.count == 0)
    && forall typ: nat :: HasType(cleared, typ) <==> typ in types
  }

  lemma ClearsOneMore(cleared: seq<Event>, types: set<nat>, typ: nat)
    requires Clears(cleared, types) && typ !in types
    ensures Clears(cleared + [Event(typ, 0)], types + {typ})
  {
    var e := Event(typ, 0);
    forall t: nat ensures HasType(cleared + [e], t) <==> t in types + {typ} {
      assert e in cleared + [e];
      if HasType(cleared, t) {
        var x :| x in cleared && x.typ == t;
        assert x in cleared + [e];
      }
    }
    forall i | 0 <= i < |cleared| ensures cleared[i].typ != typ {
      assert cleared[i] in cleared;
      assert HasType(cleared, cleared[i].typ);
    }
  }

  class Notifications {
    var notifications: map<nat, nat>
    var emitted: seq<Event>  // everything sent to the events channel

    ghost predicate Valid()
      reads this
    {
      Agrees(notifications, emitted)
    }

    constructor ()
      ensures Valid() && notifications == map[] && emitted == []
    {
      notifications, emitted := map[], [];
    }

    /** Is the type in the packet? */
    method Exists(packet: seq<Event>, typ: nat) returns (found: bool)
      ensures found == HasType(packet, typ)
    {
      found := false;
      for i := 0 to |packet|
        invariant forall k | 0 <= k < i :: packet[k].typ != typ
      {
        if packet[i].typ == typ {
          assert packet[i] in packet;
          return true;
        }
      }
    }

    method Store(packet: seq<Event>)
      requires Valid()
      modifies this
      ensures Valid() && emitted == old(emitted) + packet
      ensures forall typ: nat :: typ in notifications <==> typ in old(notifications) || HasType(packet, typ)
    {
      for i := 0 to |packet|
        invariant Valid() && emitted == old(emitted) + packet[..i]
        invariant forall typ: nat :: typ in notifications <==> typ in old(notifications) || HasType(packet[..i], typ)
      {
        var e := packet[i];
        ghost var before := notifications;
        AgreesEmit(notifications, emitted, e);
        notifications := notifications[e.typ := e.count];
        emitted := emitted + [e];
        assert packet[..i + 1] == packet[..i] + [e];
        forall typ: nat ensures HasType(packet[..i + 1], typ) <==> HasType(packet[..i], typ) || typ == e.typ {
          OneMoreType(packet[..i], e, typ);
        }
      }
      assert packet[..|packet|] == packet;
    }

    /** The second loop deletes from the map it iterates, in an order nobody chose. */
    method ClearMissing(packet: seq<Event>) returns (ghost cleared: seq<Event>)
      requires Valid()
      modifies this
      ensures Valid() && emitted == old(emitted) + cleared
      ensures Clears(cleared, set typ | typ in old(notifications) && !HasType(packet, typ))
      ensures notifications == map typ | typ in old(notifications) && HasType(packet, typ) :: old(notifications)[typ]
    {
      cleared := [];
      var remaining := notifications.Keys;
      while remaining != {}
        invariant Valid() && remaining <= old(notifications).Keys && emitted == old(emitted) + cleared
        invariant notifications == map typ
                  | typ in old(notifications) && (typ in remaining || HasType(packet, typ)) :: old(notifications)[typ]
        invariant Clears(cleared, set typ | typ in old(notifications) && typ !in remaining && !HasType(packet, typ))
        decreases |remaining|
      {
        var typ :| typ in remaining;
        var present := Exists(packet, typ);
        ghost var types := set typ | typ in old(notifications) && typ !in remaining && !HasType(packet, typ);
        remaining := remaining - {typ};
        if !present {
          AgreesEmit(notifications, emitted, Event(typ, 0));
          ClearsOneMore(cleared, types, typ);
          notifications := notifications - {typ};
          emitted := emitted + [Event(typ, 0)];
          cleared := cleared + [Event(typ, 0)];
          assert types + {typ} == set typ | typ in old(notifications) && typ !in remaining && !HasType(packet, typ);
        } else {
          assert types == set typ | typ in old(notifications) && typ !in remaining && !HasType(packet, typ);
        }
      }
    }

    /**
     A packet emits its own entries in order and then a zero for every type that was stored and is missing
     from it; afterwards the types stored are exactly the packet's, and Valid still ties the map to all the
     events ever emitted.
     */
    method HandleClientUserNotifications(packet: seq<Event>) returns (ghost cleared: seq<Event>)
      requires Valid()
      modifies this
      ensures Valid() && emitted == old(emitted) + packet + cleared
      ensures Clears(cleared, set typ | typ in old(notifications) && !HasType(packet, typ))
      ensures forall typ: nat :: typ in notifications <==> HasType(packet, typ)
    {
      Store(packet);
      ghost var stored := notifications;
      cleared := ClearMissing(packet);
      assert (set typ | typ in stored && !HasType(packet, typ))
             == set typ | typ in old(notifications) && !HasType(packet, typ);
    }
  }

  lemma OneMoreType(events: seq<Event>, e: Event, typ: nat)
    ensures HasType(events + [e], typ) <==> HasType(events, typ) || e.typ == typ
  {
    assert e in events + [e];
    if HasType(events, typ) {
      var x :| x in events && x.typ == typ;
      assert x in events + [e];
    }
  }

  /** What a stored count is: the last one the packet gives for its type. */
  lemma StoredCounts(m: map<nat, nat>, before: seq<Event>, packet: seq<Event>, cleared: seq<Event>, typ: nat)
    requires Agrees(m, before + packet + cleared) && HasType(packet, typ) && !HasType(cleared, typ)
    ensures Count(m, typ) == Replay(0, packet, typ) && Event(typ, Count(m, typ)) in packet
  {
    ReplayAppend(0, before + packet, cleared, typ);
    ReplayAppend(0, before, packet, typ);
    ReplayOf(Replay(0, before + packet, typ), cleared, typ);
    ReplayOf(Replay(0, before, typ), packet, typ);
  }
}
