/** The social packets as changes of the three caches, and what the caches hold after any run of them. */
module Social {
  import opened Basics
  import opened SocialCache
  import ChatPayload
  import Rwu

  predicate IsClan(ids: Ids, id: Id) { ids.kind(id) == CLAN }

  // ----- what the packets say -----

  /** One entry of a friends list: an id and its relationship, 0 for none. */
  datatype Entry = Entry(id: Id, rel: nat)

  /** One entry of a persona-state packet. */
  datatype Persona = Persona(id: Id, name: string, avatar: seq<byte>, state: nat, stateFlags: nat,
                             gameAppId: nat, gameId: nat, gameName: string)

  datatype NameInfo = NameInfo(name: string, avatar: seq<byte>)
  datatype Counts = Counts(total: nat, online: nat, chatting: nat, inGame: nat)

  /** What a social packet does to the caches, one change at a time. */
  datatype Change =
    | LoggedOn(self: Id)
    | Listed(e: Entry)
    | Seen(flags: Shown, p: Persona)
    | ClanState(clan: Id, info: Option<NameInfo>, counts: Option<Counts>)
    | Entered(chat: Id, clan: Id)
    | Joined(room: Id, member: ChatMember)
    | Gone(room: Id, who: Id)

  /** Which of three groups of fields a persona-state packet's status flags announce. */
  datatype Shown = Shown(playerName: bool, presence: bool, gameData: bool)

  const PLAYER_NAME: bv32 := 2
  const PRESENCE: bv32 := 16
  const GAME_DATA: bv32 := 512

  function ShownBy(flags: bv32): Shown {
    Shown(flags & PLAYER_NAME == PLAYER_NAME, flags & PRESENCE == PRESENCE, flags & GAME_DATA == GAME_DATA)
  }

  /** protocol.ValidAvatar: 20 bytes, not all of them zero. */
  predicate ValidAvatar(a: seq<byte>) { |a| == 20 && exists k | 0 <= k < 20 :: a[k] != 0 }

  // ----- the caches as values -----

  /** self is the client's own id, 0 before it logs on. */
  datatype State = State(self: Id, friends: map<Id, Friend>, groups: map<Id, Group>, chats: map<Id, Chat>,
                         name: string, avatar: seq<byte>)

  function Empty(): State { State(0, map[], map[], map[], "", []) }

  function DoListed(ids: Ids, s: State, e: Entry): State {
    if IsClan(ids, e.id) then
      s.(groups := if e.rel == 0 then s.groups - {e.id} else Added(s.groups, e.id, NewGroup(e.id, e.rel)))
    else
      s.(friends := if e.rel == 0 then s.friends - {e.id} else Added(s.friends, e.id, NewFriend(e.id, e.rel)))
  }

  function NewName(flags: Shown, p: Persona): Option<string> {
    if flags.playerName && p.name != "" then Some(p.name) else None
  }

  function FriendSeen(flags: Shown, p: Persona, f: Friend): Friend {
    var f := match NewName(flags, p) case Some(n) => f.(name := n) case None => f;
    var f := if flags.presence && ValidAvatar(p.avatar) then f.(avatar := p.avatar) else f;
    var f := if flags.presence then f.(personaState := p.state, personaStateFlags := p.stateFlags) else f;
    if flags.gameData then f.(gameAppId := p.gameAppId, gameId := p.gameId, gameName := p.gameName) else f
  }

  function GroupSeen(flags: Shown, p: Persona, g: Group): Group {
    var g := match NewName(flags, p) case Some(n) => g.(name := n) case None => g;
    if flags.presence && ValidAvatar(p.avatar) then g.(avatar := p.avatar) else g
  }

  function DoSeen(ids: Ids, s: State, flags: Shown, p: Persona): State {
    if p.id == s.self then
      s.(name := if p.name != "" then p.name else s.name,
         avatar := if ValidAvatar(p.avatar) then p.avatar else s.avatar)
    else if ids.kind(p.id) == INDIVIDUAL
    then s.(friends := Put(s.friends, p.id, FriendSeen(flags, p, FriendIn(s.friends, p.id))))
    else if IsClan(ids, p.id) then s.(groups := Put(s.groups, p.id, GroupSeen(flags, p, GroupIn(s.groups, p.id))))
    else s
  }

  function GroupTold(info: Option<NameInfo>, counts: Option<Counts>, g: Group): Group {
    var g := match info case Some(n) => g.(name := n.name, avatar := n.avatar) case None => g;
    match counts
    case Some(c) => g.(total := c.total, online := c.online, chatting := c.chatting, inGame := c.inGame)
    case None => g
  }

  function Do(ids: Ids, s: State, c: Change): State {
    match c
    case LoggedOn(self) => s.(self := self)
    case Listed(e) => DoListed(ids, s, e)
    case Seen(flags, p) => DoSeen(ids, s, flags, p)
    case ClanState(clan, info, counts) =>
      s.(groups := Put(s.groups, ids.toClan(clan), GroupTold(info, counts, GroupIn(s.groups, ids.toClan(clan)))))
    case Entered(chat, clan) => s.(chats := Added(s.chats, chat, Chat(chat, clan, map[])))
    case Joined(room, member) => s.(chats := WithMember(s.chats, room, member))
    case Gone(room, who) =>
      s.(chats := Put(s.chats, room, ChatIn(s.chats, room).(members := ChatIn(s.chats, room).members - {who})))
  }

  /** The caches after a whole history, oldest change first. */
  function After(ids: Ids, log: seq<Change>): State {
    if log == [] then Empty() else Do(ids, After(ids, log[..|log| - 1]), log[|log| - 1])
  }

  lemma AfterOne(ids: Ids, log: seq<Change>, c: Change)
    ensures After(ids, log + [c]) == Do(ids, After(ids, log), c)
  {
    assert (log + [c])[..|log|] == log;
  }

  // ----- the class -----

  /** A second change of the same entry. */
  ghost function Then<V>(m: map<Id, V>, id: Id, v: V, w: V): (r: V)
    ensures r == w && Put(Put(m, id, v), id, w) == Put(m, id, w)
  {
    PutTwice(m, id, v, w);
    w
  }

  class Social {
    const ids: Ids
    var self: Id
    var name: string
    var avatar: seq<byte>
    const friends: FriendsList
    const groups: GroupsList
    const chats: ChatsList
    ghost var log: seq<Change>

    ghost predicate Valid()
      reads this, friends, groups, chats
    {
      groups.toClan == ids.toClan && Normal(ids) && Now() == After(ids, log)
    }

    function Now(): State
      reads this, friends, groups, chats
    {
      State(self, friends.byId, groups.byId, chats.byId, name, avatar)
    }

    constructor (ids: Ids)
      requires Normal(ids)
      ensures Valid() && this.ids == ids && log == [] && fresh(friends) && fresh(groups) && fresh(chats)
    {
      this.ids, self, name, avatar, log := ids, 0, "", [], [];
      friends := new FriendsList();
      groups := new GroupsList(ids.toClan);
      chats := new ChatsList();
    }

    /** A lookup in the groups, by the history: the last entry naming the clan, under its own id, was not "none". */
    method FindGroup(id: Id) returns (r: Option<Group>)
      requires Valid()
      ensures r.Some? <==> IsClan(ids, ids.toClan(id)) && Present(log, ids.toClan(id))
      ensures r.Some? ==> r.value.steamId == ids.toClan(id)
    {
      CachedIff(ids, log, ids.toClan(id));
      r := groups.ById(id);
      assert SocialCache.FindGroup(groups.toClan, groups.byId, id) == r;
    }

    /** Auth sets the client's id, before and after the server has answered a logon. */
    method LogOn(id: Id)
      requires Valid()
      modifies this`self, this`log
      ensures Valid() && log == old(log) + [LoggedOn(id)]
    {
      AfterOne(ids, log, LoggedOn(id));
      self := id;
      log := log + [LoggedOn(id)];
    }

    /** handleFriendsList; whether the list is incremental changes only what is emitted. */
    method HandleFriendsList(list: seq<Entry>)
      requires Valid()
      modifies friends, groups, this`log
      ensures Valid() && log == old(log) + seq(|list|, i requires 0 <= i < |list| => Listed(list[i]))
    {
      for i := 0 to |list|
        invariant Valid() && log == old(log) + seq(i, k requires 0 <= k < i => Listed(list[k]))
      {
        HandleEntry(list[i]);
      }
    }

    method HandleEntry(e: Entry)
      requires Valid()
      modifies friends, groups, this`log
      ensures Valid() && log == old(log) + [Listed(e)]
    {
      AfterOne(ids, log, Listed(e));
      ListEntry(e);
      log := log + [Listed(e)];
    }

    method ListEntry(e: Entry)
      modifies friends, groups
      ensures Now() == DoListed(ids, old(Now()), e)
    {
      if IsClan(ids, e.id) {
        if e.rel == 0 { groups.Remove(e.id); } else { groups.Add(NewGroup(e.id, e.rel)); }
      } else {
        if e.rel == 0 { friends.Remove(e.id); } else { friends.Add(NewFriend(e.id, e.rel)); }
      }
    }

    method HandlePersonaState(statusFlags: bv32, list: seq<Persona>)
      requires Valid()
      modifies friends, groups, this`name, this`avatar, this`log
      ensures Valid()
              && log == old(log) + seq(|list|, i requires 0 <= i < |list| => Seen(ShownBy(statusFlags), list[i]))
    {
      var flags := ShownBy(statusFlags);
      for i := 0 to |list|
        invariant Valid() && log == old(log) + seq(i, k requires 0 <= k < i => Seen(flags, list[k]))
      {
        HandlePersona(flags, list[i]);
      }
    }

    method HandlePersona(flags: Shown, p: Persona)
      requires Valid()
      modifies friends, groups, this`name, this`avatar, this`log
      ensures Valid() && log == old(log) + [Seen(flags, p)]
    {
      AfterOne(ids, log, Seen(flags, p));
      if p.id == self {
        if p.name != "" { name := p.name; }
        if ValidAvatar(p.avatar) { avatar := p.avatar; }
      } else if ids.kind(p.id) == INDIVIDUAL {
        SeeFriend(flags, p);
      } else if IsClan(ids, p.id) {
        SeeGroup(flags, p);
      }
      log := log + [Seen(flags, p)];
    }

    method SeeFriend(flags: Shown, p: Persona)
      modifies friends
      ensures friends.byId == Put(old(friends.byId), p.id, FriendSeen(flags, p, FriendIn(old(friends.byId), p.id)))
    {
      ghost var m := friends.byId;
      ghost var f := FriendIn(m, p.id);
      if flags.playerName {
        if p.name != "" {
          friends.SetName(p.id, p.name);
          f := f.(name := p.name);
        }
      }
      assert friends.byId == Put(m, p.id, f);
      if flags.presence {
        if ValidAvatar(p.avatar) {
          friends.SetAvatar(p.id, p.avatar);
          f := Then(m, p.id, f, f.(avatar := p.avatar));
        }
        friends.SetPersonaState(p.id, p.state);
        f := Then(m, p.id, f, f.(personaState := p.state));
        friends.SetPersonaStateFlags(p.id, p.stateFlags);
        f := Then(m, p.id, f, f.(personaStateFlags := p.stateFlags));
      }
      if flags.gameData {
        friends.SetGameAppId(p.id, p.gameAppId);
        f := Then(m, p.id, f, f.(gameAppId := p.gameAppId));
        friends.SetGameId(p.id, p.gameId);
        f := Then(m, p.id, f, f.(gameId := p.gameId));
        friends.SetGameName(p.id, p.gameName);
        f := Then(m, p.id, f, f.(gameName := p.gameName));
      }
    }

    method SeeGroup(flags: Shown, p: Persona)
      requires IsClan(ids, p.id) && Normal(ids) && groups.toClan == ids.toClan
      modifies groups
      ensures groups.byId == Put(old(groups.byId), p.id, GroupSeen(flags, p, GroupIn(old(groups.byId), p.id)))
    {
      ghost var m := groups.byId;
      assert KeepsClan(ids, p.id);
      if flags.playerName {
        if p.name != "" { groups.SetName(p.id, p.name); }
      }
      ghost var g := match NewName(flags, p) case Some(n) => GroupIn(m, p.id).(name := n) case None => GroupIn(m, p.id);
      assert groups.byId == Put(m, p.id, g);
      if flags.presence {
        if ValidAvatar(p.avatar) {
          groups.SetAvatar(p.id, p.avatar);
          PutTwice(m, p.id, g, g.(avatar := p.avatar));
        }
      }
    }

    /** The part of handleClanState that changes the cache. */
    method HandleClanState(clan: Id, info: Option<NameInfo>, counts: Option<Counts>)
      requires Valid()
      modifies groups, this`log
      ensures Valid() && log == old(log) + [ClanState(clan, info, counts)]
    {
      AfterOne(ids, log, ClanState(clan, info, counts));
      TellGroup(clan, info, counts);
      log := log + [ClanState(clan, info, counts)];
    }

    method TellGroup(clan: Id, info: Option<NameInfo>, counts: Option<Counts>)
      requires groups.toClan == ids.toClan
      modifies groups
      ensures groups.byId
              == Put(old(groups.byId), ids.toClan(clan),
                     GroupTold(info, counts, GroupIn(old(groups.byId), ids.toClan(clan))))
    {
      ghost var m, id := groups.byId, ids.toClan(clan);
      ghost var g := GroupIn(m, id);
      if info.Some? {
        groups.SetName(clan, info.value.name);
        groups.SetAvatar(clan, info.value.avatar);
        g := Then(m, id, g.(name := info.value.name), g.(name := info.value.name, avatar := info.value.avatar));
      }
      assert groups.byId == Put(m, id, g);
      if counts.Some? {
        groups.SetMemberTotalCount(clan, counts.value.total);
        g := Then(m, id, g, g.(total := counts.value.total));
        groups.SetMemberOnlineCount(clan, counts.value.online);
        g := Then(m, id, g, g.(online := counts.value.online));
        groups.SetMemberChattingCount(clan, counts.value.chatting);
        g := Then(m, id, g, g.(chatting := counts.value.chatting));
        groups.SetMemberInGameCount(clan, counts.value.inGame);
        g := Then(m, id, g, g.(inGame := counts.value.inGame));
      }
    }

    /** handleChatEnter, from the fields of its body and the payload behind it. */
    method HandleChatEnter(chat: Id, clan: Id, numMembers: int, payload: seq<byte>)
      requires Valid()
      modifies chats, this`log
      ensures Valid()
      ensures log == old(log) + [Entered(chat, clan)] + AllJoined(chat, ChatPayload.EnterMembers(payload, numMembers))
    {
      var reader := new Rwu.Reader(payload);
      var roomName, failed := reader.ReadString();
      reader.ReadByte();
      Enter(chat, clan);
      JoinMembers(chat, if numMembers < 0 then 0 else numMembers, reader);
    }

    method JoinMembers(chat: Id, n: nat, reader: Rwu.Reader)
      requires Valid()
      modifies chats, this`log, reader
      ensures Valid() && log == old(log) + AllJoined(chat, ChatPayload.Members(old(reader.input), n))
    {
      ghost var entered, all := log, ChatPayload.Members(reader.input, n);
      ghost var done: seq<ChatMember> := [];
      assert [] + all == all;
      for i := 0 to n
        invariant Valid() && log == entered + AllJoined(chat, done)
        invariant done + ChatPayload.Members(reader.input, n - i) == all
      {
        ghost var rest := reader.input;
        JoinNext(chat, reader);
        NextJoined(chat, entered, done, rest, n - i);
        done := done + [ChatPayload.Member(rest).0];
      }
      assert done + [] == done;
    }

    /** One turn of the loop. */
    method JoinNext(chat: Id, reader: Rwu.Reader)
      requires Valid()
      modifies chats, this`log, reader
      ensures Valid() && log == old(log) + [Joined(chat, ChatPayload.Member(old(reader.input)).0)]
      ensures reader.input == Rwu.Skip(ChatPayload.Member(old(reader.input)).1, 6)
    {
      var m := ChatPayload.ReadChatMember(reader);
      reader.ReadBytes(6);
      Join(chat, m);
    }

    method Enter(chat: Id, clan: Id)
      requires Valid()
      modifies chats, this`log
      ensures Valid() && log == old(log) + [Entered(chat, clan)]
    {
      AfterOne(ids, log, Entered(chat, clan));
      chats.Add(Chat(chat, clan, map[]));
      log := log + [Entered(chat, clan)];
    }

    method Join(room: Id, member: ChatMember)
      requires Valid()
      modifies chats, this`log
      ensures Valid() && log == old(log) + [Joined(room, member)]
    {
      AfterOne(ids, log, Joined(room, member));
      chats.AddChatMember(room, member);
      log := log + [Joined(room, member)];
    }

    /** handleChatMemberInfo, from its room, the kind of information and the payload; only kind 1 changes anything. */
    method HandleChatMemberInfo(room: Id, kind: int, payload: seq<byte>)
      requires Valid()
      modifies chats, this`log
      ensures Valid() && log == old(log) + MemberChanges(room, kind, payload)
    {
      if kind != 1 { return; }
      var reader := new Rwu.Reader(payload);
      var actedOn := reader.ReadUint64();
      var change := reader.ReadInt32();
      var actedBy := reader.ReadUint64();
      reader.ReadByte();
      if change == ENTERED {
        var m := ChatPayload.ReadChatMember(reader);
        Join(room, ChatMember(actedOn, m.chatPermissions, m.clanPermissions));
      } else if change == BANNED || change == KICKED || change == DISCONNECTED || change == LEFT {
        Leave(room, actedOn);
      }
    }

    method Leave(room: Id, who: Id)
      requires Valid()
      modifies chats, this`log
      ensures Valid() && log == old(log) + [Gone(room, who)]
    {
      AfterOne(ids, log, Gone(room, who));
      chats.RemoveChatMember(room, who);
      log := log + [Gone(room, who)];
    }
  }

  lemma NextJoined(room: Id, entered: seq<Change>, done: seq<ChatMember>, rest: seq<byte>, n: nat)
    requires n > 0
    ensures var (m, more) := ChatPayload.Member(rest);
            && entered + AllJoined(room, done) + [Joined(room, m)] == entered + AllJoined(room, done + [m])
            && done + ChatPayload.Members(rest, n) == (done + [m]) + ChatPayload.Members(Rwu.Skip(more, 6), n - 1)
  {
    var (m, more) := ChatPayload.Member(rest);
    assert AllJoined(room, done + [m]) == AllJoined(room, done) + [Joined(room, m)];
    Reassociate(entered, AllJoined(room, done), [Joined(room, m)]);
    Reassociate(done, [m], ChatPayload.Members(Rwu.Skip(more, 6), n - 1));
  }

  function AllJoined(room: Id, ms: seq<ChatMember>): seq<Change> {
    seq(|ms|, i requires 0 <= i < |ms| => Joined(room, ms[i]))
  }

  /** Whoever entered is added under the id the change is about, whoever left in any way is removed. */
  function MemberChanges(room: Id, kind: int, payload: seq<byte>): seq<Change> {
    var c := ChatPayload.ChangeOf(payload);
    if kind != 1 then []
    else if c.change == ENTERED then [Joined(room, c.member.(steamId := c.actedOn))]
    else if c.change in {BANNED, KICKED, DISCONNECTED, LEFT} then [Gone(room, c.actedOn)]
    else []
  }

  const ENTERED := 1
  const LEFT := 2
  const DISCONNECTED := 4
  const KICKED := 8
  const BANNED := 16

  // ----- which ids are cached -----

  /** The relationship the last list entry naming an id gave it. */
  function LastListed(log: seq<Change>, id: Id): Option<nat> {
    if log == [] then None
    else
      var c := log[|log| - 1];
      if c.Listed? && c.e.id == id then Some(c.e.rel) else LastListed(log[..|log| - 1], id)
  }

  predicate Present(log: seq<Change>, id: Id) { LastListed(log, id).Some? && LastListed(log, id).value != 0 }

  /**
   A friend is cached exactly when the last entry naming the id was not "none" and it is no clan; a group
   exactly when it was not "none" and it is one. Every stored record carries its key.
   */
  lemma {:induction false} CachedIff(ids: Ids, log: seq<Change>, id: Id)
    ensures var s := After(ids, log);
            && (id in s.friends <==> !IsClan(ids, id) && Present(log, id))
            && (id in s.groups <==> IsClan(ids, id) && Present(log, id))
            && (id in s.friends ==> s.friends[id].steamId == id)
            && (id in s.groups ==> s.groups[id].steamId == id)
  {
    if log != [] {
      var n := |log| - 1;
      CachedIff(ids, log[..n], id);
      CachedStep(ids, After(ids, log[..n]), log[n], id);
    }
  }

  /** Only a list entry that names the id decides whether it is cached. */
  lemma {:induction false} CachedStep(ids: Ids, s: State, c: Change, id: Id)
    requires (id in s.friends ==> s.friends[id].steamId == id) && (id in s.groups ==> s.groups[id].steamId == id)
    ensures var s' := Do(ids, s, c);
            && (id in s'.friends
                <==> if c.Listed? && c.e.id == id && !IsClan(ids, id) then c.e.rel != 0 else id in s.friends)
            && (id in s'.groups
                <==> if c.Listed? && c.e.id == id && IsClan(ids, id) then c.e.rel != 0 else id in s.groups)
            && (id in s'.friends ==> s'.friends[id].steamId == id)
            && (id in s'.groups ==> s'.groups[id].steamId == id)
  {}

  // ----- what is stored with them -----

  /** The entry of the list that put an id into its cache: not "none", not cached before, and never "none" since. */
  ghost predicate InsertedAt(log: seq<Change>, k: nat, id: Id) {
    && k < |log| && log[k].Listed? && log[k].e.id == id && log[k].e.rel != 0
    && !Present(log[..k], id)
    && forall j | k < j < |log| && log[j].Listed? && log[j].e.id == id :: log[j].e.rel != 0
  }

  /** The client's own id after a history. */
  function SelfAfter(log: seq<Change>): Id {
    if log == [] then 0
    else
      var c := log[|log| - 1];
      if c.LoggedOn? then c.self else SelfAfter(log[..|log| - 1])
  }

  lemma {:induction false} SelfIs(ids: Ids, log: seq<Change>)
    ensures After(ids, log).self == SelfAfter(log)
  {
    if log != [] { SelfIs(ids, log[..|log| - 1]); }
  }

  /** Does a change give an id that is not the client's own a non-empty, flagged name? */
  predicate Names(self: Id, c: Change, id: Id) { c.Seen? && c.p.id == id && id != self && NewName(c.flags, c.p).Some? }

  /** The last such name after change k of a history. */
  function LastName(log: seq<Change>, k: nat, id: Id): string {
    var n := |log| - 1;
    if n <= k then ""
    else if Names(SelfAfter(log[..n]), log[n], id) then log[n].p.name
    else LastName(log[..n], k, id)
  }

  lemma InsertedBefore(log: seq<Change>, k: nat, id: Id)
    requires InsertedAt(log, k, id) && k < |log| - 1
    ensures InsertedAt(log[..|log| - 1], k, id)
  {
    assert log[..|log| - 1][..k] == log[..k];
  }

  lemma {:induction false} FriendKept(ids: Ids, s: State, c: Change, id: Id)
    requires id in s.friends && !IsClan(ids, id) && !(c.Listed? && c.e.id == id && c.e.rel == 0)
    ensures var s' := Do(ids, s, c);
            && id in s'.friends && s'.friends[id].relationship == s.friends[id].relationship
            && s'.friends[id].name ==
               if ids.kind(id) == INDIVIDUAL && Names(s.self, c, id) then c.p.name else s.friends[id].name
  {}

  /**
   A cached friend's relationship is still the one it was inserted with, whatever later entries said, and
   its name is the last non-empty flagged one since then that it got as an Individual other than the client.
   */
  lemma {:induction false} FriendSince(ids: Ids, log: seq<Change>, k: nat, id: Id)
    requires InsertedAt(log, k, id) && !IsClan(ids, id)
    ensures var s := After(ids, log);
            && id in s.friends && s.friends[id].relationship == log[k].e.rel
            && s.friends[id].name == if ids.kind(id) == INDIVIDUAL then LastName(log, k, id) else ""
  {
    var n := |log| - 1;
    if k == n {
      CachedIff(ids, log[..n], id);
    } else {
      InsertedBefore(log, k, id);
      FriendSince(ids, log[..n], k, id);
      SelfIs(ids, log[..n]);
      FriendKept(ids, After(ids, log[..n]), log[n], id);
    }
  }

  /** The name a change gives a group, if it does: a clan state's name counts even when it is empty. */
  function GroupName(ids: Ids, self: Id, c: Change, id: Id): Option<string> {
    match c
    case Seen(flags, p) => if p.id == id && id != self then NewName(flags, p) else None
    case ClanState(clan, info, _) => if ids.toClan(clan) == id && info.Some? then Some(info.value.name) else None
    case _ => None
  }

  function LastGroupName(ids: Ids, log: seq<Change>, k: nat, id: Id): string {
    var n := |log| - 1;
    if n <= k then ""
    else match GroupName(ids, SelfAfter(log[..n]), log[n], id)
      case Some(name) => name
      case None => LastGroupName(ids, log[..n], k, id)
  }

  lemma {:induction false} GroupKept(ids: Ids, s: State, c: Change, id: Id)
    requires id in s.groups && IsClan(ids, id) && !(c.Listed? && c.e.id == id && c.e.rel == 0)
    ensures var s' := Do(ids, s, c);
            && id in s'.groups && s'.groups[id].relationship == s.groups[id].relationship
            && s'.groups[id].name
               == match GroupName(ids, s.self, c, id) case Some(n) => n case None => s.groups[id].name
  {}

  /** The same for a group; its name also follows the clan states, under the clan's id or its chat's. */
  lemma {:induction false} GroupSince(ids: Ids, log: seq<Change>, k: nat, id: Id)
    requires InsertedAt(log, k, id) && IsClan(ids, id)
    ensures var s := After(ids, log);
            && id in s.groups && s.groups[id].relationship == log[k].e.rel
            && s.groups[id].name == LastGroupName(ids, log, k, id)
  {
    var n := |log| - 1;
    if k == n {
      CachedIff(ids, log[..n], id);
    } else {
      InsertedBefore(log, k, id);
      GroupSince(ids, log[..n], k, id);
      SelfIs(ids, log[..n]);
      GroupKept(ids, After(ids, log[..n]), log[n], id);
    }
  }

  // ----- stale relationships -----

  function Relationship(ids: Ids, s: State, id: Id): Option<nat> {
    if IsClan(ids, id) then (if id in s.groups then Some(s.groups[id].relationship) else None)
    else if id in s.friends then Some(s.friends[id].relationship)
    else None
  }

  /** The stored relationship is the last listed one exactly if that is the one the id was inserted with. */
  lemma RelationshipCurrentIff(ids: Ids, log: seq<Change>, k: nat, id: Id)
    requires InsertedAt(log, k, id)
    ensures Relationship(ids, After(ids, log), id) == LastListed(log, id) <==> LastListed(log, id) == Some(log[k].e.rel)
  {
    if IsClan(ids, id) { GroupSince(ids, log, k, id); } else { FriendSince(ids, log, k, id); }
  }

  /** An id listed with one relationship and then with another keeps the first. */
  lemma RelationshipGoesStale(ids: Ids, id: Id, first: nat, second: nat)
    requires 0 < first && 0 < second && first != second
    ensures var log := [Listed(Entry(id, first)), Listed(Entry(id, second))];
            LastListed(log, id) == Some(second) && Relationship(ids, After(ids, log), id) == Some(first)
  {
    var log := [Listed(Entry(id, first)), Listed(Entry(id, second))];
    assert log[..0] == [];
    assert InsertedAt(log, 0, id);
    if IsClan(ids, id) { GroupSince(ids, log, 0, id); } else { FriendSince(ids, log, 0, id); }
  }

  /** Every cached id was inserted by some entry. */
  lemma {:induction false} InsertedSomewhere(log: seq<Change>, id: Id) returns (k: nat)
    requires Present(log, id)
    ensures InsertedAt(log, k, id)
  {
    var n := |log| - 1;
    if Present(log[..n], id) {
      k := InsertedSomewhere(log[..n], id);
      assert log[..n][..k] == log[..k];
      forall j | k < j < |log| && log[j].Listed? && log[j].e.id == id ensures log[j].e.rel != 0 {
        if j < n { assert log[..n][j] == log[j]; }
      }
    } else {
      k := n;
    }
  }

  // ----- chat members -----

  /** What the last change about a member of a room made of it: None before any, and after it left. */
  function LastMember(log: seq<Change>, room: Id, who: Id): Option<ChatMember> {
    if log == [] then None
    else
      var c := log[|log| - 1];
      if c.Joined? && c.room == room && c.member.steamId == who then Some(c.member)
      else if c.Gone? && c.room == room && c.who == who then None
      else LastMember(log[..|log| - 1], room, who)
  }

  predicate Opened(log: seq<Change>, room: Id) {
    exists c | c in log :: (c.Entered? && c.chat == room) || (c.Joined? && c.room == room)
  }

  function MemberIn(s: State, room: Id, who: Id): Option<ChatMember> {
    if room in s.chats && who in s.chats[room].members then Some(s.chats[room].members[who]) else None
  }

  lemma {:induction false} MemberStep(ids: Ids, s: State, c: Change, room: Id, who: Id)
    ensures MemberIn(Do(ids, s, c), room, who) ==
            if c.Joined? && c.room == room && c.member.steamId == who then Some(c.member)
            else if c.Gone? && c.room == room && c.who == who then None
            else MemberIn(s, room, who)
  {}

  /**
   A room's members are those whose last change was an addition, with what that addition said: entering a
   room again clears nothing.
   */
  lemma {:induction false} MembersAre(ids: Ids, log: seq<Change>, room: Id, who: Id)
    ensures MemberIn(After(ids, log), room, who) == LastMember(log, room, who)
  {
    if log != [] {
      var n := |log| - 1;
      MembersAre(ids, log[..n], room, who);
      MemberStep(ids, After(ids, log[..n]), log[n], room, who);
    }
  }

  /** A room is cached from the first packet that enters it or adds to it. */
  lemma {:induction false} RoomsAre(ids: Ids, log: seq<Change>, room: Id)
    ensures room in After(ids, log).chats <==> Opened(log, room)
    ensures room in After(ids, log).chats ==> After(ids, log).chats[room].steamId == room
  {
    if log != [] {
      var n := |log| - 1;
      RoomsAre(ids, log[..n], room);
      assert log == log[..n] + [log[n]];
      OpenedOneMore(log[..n], log[n], room);
    }
  }

  lemma OpenedOneMore(log: seq<Change>, c: Change, room: Id)
    ensures Opened(log + [c], room) <==>
            Opened(log, room) || (c.Entered? && c.chat == room) || (c.Joined? && c.room == room)
  {
    assert c in log + [c];
    if Opened(log, room) {
      var x :| x in log && ((x.Entered? && x.chat == room) || (x.Joined? && x.room == room));
      assert x in log + [c];
    }
  }
}
