/** The rest of what the caches hold after a history: avatars, presence, games, counts, and the client's own data. */
module SocialHistory {
  import opened Basics
  import opened SocialCache
  import opened Social
  import ChatPayload

  // ----- the status flags -----

  /** Bits 1, 4 and 9 of the status flags announce the name, the presence and the game. */
  lemma FlagsAre(flags: bv32)
    ensures ShownBy(flags).playerName <==> (flags >> 1) & 1 == 1
    ensures ShownBy(flags).presence <==> (flags >> 4) & 1 == 1
    ensures ShownBy(flags).gameData <==> (flags >> 9) & 1 == 1
  {}

  // ----- friends -----

  /** The last change of a history after change k is a persona state of the id, not the client's own at the time. */
  predicate SeesLast(log: seq<Change>, id: Id) {
    log != [] && var n := |log| - 1;
    log[n].Seen? && log[n].p.id == id && id != SelfAfter(log[..n])
  }

  /** The last persona state after change k that announced the presence, the game, or a valid avatar. */
  function LastPresence(log: seq<Change>, k: nat, id: Id): Option<Persona> {
    var n := |log| - 1;
    if n <= k then None
    else if SeesLast(log, id) && log[n].flags.presence then Some(log[n].p)
    else LastPresence(log[..n], k, id)
  }

  function LastGame(log: seq<Change>, k: nat, id: Id): Option<Persona> {
    var n := |log| - 1;
    if n <= k then None
    else if SeesLast(log, id) && log[n].flags.gameData then Some(log[n].p)
    else LastGame(log[..n], k, id)
  }

  function LastAvatar(log: seq<Change>, k: nat, id: Id): seq<byte> {
    var n := |log| - 1;
    if n <= k then []
    else if SeesLast(log, id) && log[n].flags.presence && IsAvatar(log[n].p.avatar) then log[n].p.avatar
    else LastAvatar(log[..n], k, id)
  }

  /** Twenty bytes that are not all zero. */
  predicate IsAvatar(a: seq<byte>) { |a| == 20 && exists k | 0 <= k < 20 :: a[k] != 0 }

  predicate ShowsPresence(f: Friend, p: Option<Persona>) {
    match p
    case Some(p) => f.personaState == p.state && f.personaStateFlags == p.stateFlags
    case None => f.personaState == 0 && f.personaStateFlags == 0
  }

  predicate ShowsGame(f: Friend, p: Option<Persona>) {
    match p
    case Some(p) => f.gameAppId == p.gameAppId && f.gameId == p.gameId && f.gameName == p.gameName
    case None => f.gameAppId == 0 && f.gameId == 0 && f.gameName == ""
  }

  /** What one change does to a friend that stays. */
  lemma {:induction false} PresenceKept(ids: Ids, s: State, c: Change, id: Id)
    requires id in s.friends && ids.kind(id) == INDIVIDUAL && !(c.Listed? && c.e.id == id && c.e.rel == 0)
    ensures var s' := Do(ids, s, c);
            && id in s'.friends
            && var (f, f', told) := (s.friends[id], s'.friends[id], c.Seen? && c.p.id == id && id != s.self);
            && ShowsPresence(f', if told && c.flags.presence then Some(c.p)
                                 else Some(Persona(id, "", [], f.personaState, f.personaStateFlags, 0, 0, "")))
            && f'.avatar == (if told && c.flags.presence && IsAvatar(c.p.avatar) then c.p.avatar else f.avatar)
  {}

  lemma {:induction false} GameKept(ids: Ids, s: State, c: Change, id: Id)
    requires id in s.friends && ids.kind(id) == INDIVIDUAL && !(c.Listed? && c.e.id == id && c.e.rel == 0)
    ensures var s' := Do(ids, s, c);
            && id in s'.friends
            && var (f, told) := (s.friends[id], c.Seen? && c.p.id == id && id != s.self);
            ShowsGame(s'.friends[id], if told && c.flags.gameData then Some(c.p)
                                      else Some(Persona(id, "", [], 0, 0, f.gameAppId, f.gameId, f.gameName)))
  {}

  /** Of an Individual that is a friend: presence, avatar and game are the last announced since it was inserted. */
  lemma {:induction false} FriendShows(ids: Ids, log: seq<Change>, k: nat, id: Id)
    requires InsertedAt(log, k, id) && ids.kind(id) == 1
    ensures var s := After(ids, log);
            && id in s.friends && ShowsPresence(s.friends[id], LastPresence(log, k, id))
            && s.friends[id].avatar == LastAvatar(log, k, id) && ShowsGame(s.friends[id], LastGame(log, k, id))
  {
    var n := |log| - 1;
    if k == n {
      CachedIff(ids, log[..n], id);
    } else {
      InsertedBefore(log, k, id);
      FriendShows(ids, log[..n], k, id);
      SelfIs(ids, log[..n]);
      PresenceKept(ids, After(ids, log[..n]), log[n], id);
      GameKept(ids, After(ids, log[..n]), log[n], id);
    }
  }

  // ----- groups -----

  /** The last clan state after change k, under the clan's id or its chat's, that said how many are there. */
  function LastCounts(ids: Ids, log: seq<Change>, k: nat, id: Id): Counts {
    var n := |log| - 1;
    if n <= k then Counts(0, 0, 0, 0)
    else if log[n].ClanState? && ids.toClan(log[n].clan) == id && log[n].counts.Some? then log[n].counts.value
    else LastCounts(ids, log[..n], k, id)
  }

  /** The last avatar: of a clan state whatever it is, of a persona state only a valid one that is announced. */
  function LastGroupAvatar(ids: Ids, log: seq<Change>, k: nat, id: Id): seq<byte> {
    var n := |log| - 1;
    if n <= k then []
    else if SeesLast(log, id) && log[n].flags.presence && IsAvatar(log[n].p.avatar) then log[n].p.avatar
    else if log[n].ClanState? && ids.toClan(log[n].clan) == id && log[n].info.Some? then log[n].info.value.avatar
    else LastGroupAvatar(ids, log[..n], k, id)
  }

  predicate ShowsCounts(g: Group, c: Counts) {
    g.total == c.total && g.online == c.online && g.chatting == c.chatting && g.inGame == c.inGame
  }

  lemma {:induction false} CountsKept(ids: Ids, s: State, c: Change, id: Id)
    requires id in s.groups && IsClan(ids, id) && !(c.Listed? && c.e.id == id && c.e.rel == 0)
    ensures var s' := Do(ids, s, c);
            && id in s'.groups
            && var (g, told) := (s.groups[id], c.ClanState? && ids.toClan(c.clan) == id);
            && ShowsCounts(s'.groups[id], if told && c.counts.Some? then c.counts.value
                                          else Counts(g.total, g.online, g.chatting, g.inGame))
            && s'.groups[id].avatar ==
               if c.Seen? && c.p.id == id && id != s.self && c.flags.presence && IsAvatar(c.p.avatar) then c.p.avatar
               else if told && c.info.Some? then c.info.value.avatar
               else g.avatar
  {}

  /** Of a group: the counts are those of the last clan state that had any since it was inserted, and so the avatar. */
  lemma {:induction false} GroupShows(ids: Ids, log: seq<Change>, k: nat, id: Id)
    requires InsertedAt(log, k, id) && ids.kind(id) == 7
    ensures var s := After(ids, log);
            && id in s.groups && ShowsCounts(s.groups[id], LastCounts(ids, log, k, id))
            && s.groups[id].avatar == LastGroupAvatar(ids, log, k, id)
  {
    var n := |log| - 1;
    if k == n {
      CachedIff(ids, log[..n], id);
    } else {
      InsertedBefore(log, k, id);
      GroupShows(ids, log[..n], k, id);
      SelfIs(ids, log[..n]);
      CountsKept(ids, After(ids, log[..n]), log[n], id);
    }
  }

  // ----- the client itself -----

  predicate SeesSelf(log: seq<Change>) {
    log != [] && var n := |log| - 1;
    log[n].Seen? && log[n].p.id == SelfAfter(log[..n])
  }

  /** The last non-empty name a persona state gave the client's own id, whatever the flags. */
  function OwnName(log: seq<Change>): string {
    if log == [] then ""
    else
      var n := |log| - 1;
      if SeesSelf(log) && log[n].p.name != "" then log[n].p.name else OwnName(log[..n])
  }

  function OwnAvatar(log: seq<Change>): seq<byte> {
    if log == [] then []
    else
      var n := |log| - 1;
      if SeesSelf(log) && IsAvatar(log[n].p.avatar) then log[n].p.avatar else OwnAvatar(log[..n])
  }

  /** The client's own name and avatar are the last it was shown under its own id at the time. */
  lemma {:induction false} OwnShows(ids: Ids, log: seq<Change>)
    ensures After(ids, log).name == OwnName(log) && After(ids, log).avatar == OwnAvatar(log)
  {
    if log != [] {
      var n := |log| - 1;
      OwnShows(ids, log[..n]);
      SelfIs(ids, log[..n]);
    }
  }

  // ----- rooms -----

  /** The clan named by the change that opened a room: none if that was an addition. */
  function OpenedFor(log: seq<Change>, room: Id): Id {
    if log == [] then 0
    else
      var n := |log| - 1;
      if Opened(log[..n], room) then OpenedFor(log[..n], room)
      else if log[n].Entered? && log[n].chat == room then log[n].clan
      else 0
  }

  lemma {:induction false} RoomStep(ids: Ids, s: State, c: Change, room: Id)
    ensures var s' := Do(ids, s, c);
            && (room in s.chats ==> room in s'.chats && s'.chats[room].groupId == s.chats[room].groupId)
            && (room !in s.chats && room in s'.chats ==>
                  s'.chats[room].groupId == if c.Entered? && c.chat == room then c.clan else 0)
  {}

  /** A cached room belongs to the clan that the first packet about it named. */
  lemma {:induction false} RoomBelongs(ids: Ids, log: seq<Change>, room: Id)
    ensures room in After(ids, log).chats ==> After(ids, log).chats[room].groupId == OpenedFor(log, room)
  {
    if log != [] {
      var n := |log| - 1;
      RoomBelongs(ids, log[..n], room);
      RoomsAre(ids, log[..n], room);
      RoomStep(ids, After(ids, log[..n]), log[n], room);
    }
  }

  // ----- who comes and who goes -----

  /**
   A member-change packet as it is written: with change 1 the one it is about joins, under its own id and with
   the permissions behind it; with 2, 4, 8 or 16 it goes; any other change, or kind of packet, does nothing.
   */
  lemma WhoComesAndGoes(room: Id, kind: int, actedOn: nat, change: int, actedBy: nat, b: byte, f: ChatPayload.Frame,
                        m: ChatMember)
    requires actedOn < Pow256(8) && ChatPayload.IsInt(change) && actedBy < Pow256(8)
    requires ChatPayload.Named(f) && ChatPayload.Sendable(m)
    ensures MemberChanges(room, kind, ChatPayload.ChangeBytes(actedOn, change, actedBy, b, f, m)) ==
            if kind != 1 then []
            else if change == 1 then [Joined(room, ChatMember(actedOn, m.chatPermissions, m.clanPermissions))]
            else if change in {2, 4, 8, 16} then [Gone(room, actedOn)]
            else []
  {
    ChatPayload.ChangeReadBack(actedOn, change, actedBy, b, f, m);
  }
}
