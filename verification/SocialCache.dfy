/** The friend, group and chat caches: maps that their methods change in place. */
module SocialCache {
  import opened Basics
  import SteamId

  /** A SteamId as the number it is. */
  type Id = nat

  /** The two things the caches ask of an id: its account type and ChatToClan. */
  datatype Ids = Ids(kind: Id -> nat, toClan: Id -> Id)

  const INDIVIDUAL := 1
  const CLAN := 7

  predicate KeepsClan(ids: Ids, id: Id) { ids.kind(id) == CLAN ==> ids.toClan(id) == id }

  ghost predicate Normal(ids: Ids) { forall id :: KeepsClan(ids, id) }

  /** As SteamId has them. */
  function SteamIds(): Ids {
    Ids((id: nat) => if id < TWO64 then SteamId.GetAccountType(id as bv64) as int else 0,
        (id: nat) => if id < TWO64 && SteamId.GetAccountType(id as bv64) == SteamId.CHAT
                     then SteamId.ChatToClan(id as bv64) as int else id)
  }

  lemma SteamIdsNormal()
    ensures Normal(SteamIds())
  {
    forall id: Id ensures KeepsClan(SteamIds(), id) {
      if id < TWO64 {
        SteamId.ClanIsNoChat(id as bv64);
      }
    }
  }

  datatype Friend = Friend(steamId: Id, name: string, avatar: seq<byte>, relationship: nat, personaState: nat,
                           personaStateFlags: nat, gameAppId: nat, gameId: nat, gameName: string)

  datatype Group = Group(steamId: Id, name: string, avatar: seq<byte>, relationship: nat,
                         total: nat, online: nat, chatting: nat, inGame: nat)

  datatype ChatMember = ChatMember(steamId: Id, chatPermissions: int, clanPermissions: int)

  datatype Chat = Chat(steamId: Id, groupId: Id, members: map<Id, ChatMember>)

  function NewFriend(id: Id, relationship: nat): Friend { Friend(id, "", [], relationship, 0, 0, 0, 0, "") }

  function NewGroup(id: Id, relationship: nat): Group { Group(id, "", [], relationship, 0, 0, 0, 0) }

  /** The map with a stored entry replaced; nothing is stored for an absent one. */
  function Put<V>(m: map<Id, V>, id: Id, v: V): map<Id, V> { if id in m then m[id := v] else m }

  lemma PutTwice<V>(m: map<Id, V>, id: Id, v: V, w: V)
    ensures Put(Put(m, id, v), id, w) == Put(m, id, w)
  {}

  function FriendIn(m: map<Id, Friend>, id: Id): Friend { if id in m then m[id] else NewFriend(id, 0) }

  function GroupIn(m: map<Id, Group>, id: Id): Group { if id in m then m[id] else NewGroup(id, 0) }

  function ChatIn(m: map<Id, Chat>, id: Id): Chat { if id in m then m[id] else Chat(id, 0, map[]) }

  function Added<V>(m: map<Id, V>, id: Id, v: V): map<Id, V> { if id in m then m else m[id := v] }

  function WithMember(m: map<Id, Chat>, id: Id, member: ChatMember): map<Id, Chat> {
    var chat := ChatIn(m, id);
    m[id := chat.(members := chat.members[member.steamId := member])]
  }

  /** What a lookup in the groups finds. */
  function FindGroup(toClan: Id -> Id, m: map<Id, Group>, id: Id): Option<Group> {
    if toClan(id) in m then Some(m[toClan(id)]) else None
  }

  ghost predicate FindsSame(m: map<Id, Group>, a: Id, b: Id) {
    FindGroup(SteamIds().toClan, m, a) == FindGroup(SteamIds().toClan, m, b)
  }

  /** Whatever the groups are, looking up the one finds what looking up the other finds. */
  ghost predicate Interchangeable(a: Id, b: Id) { forall m :: FindsSame(m, a, b) }

  /** The chat id that ClanToChat makes of a clan's id always finds what the clan's id finds exactly at instance 0. */
  lemma ChatFindsClanIff(clan: SteamId.Id)
    requires SteamId.GetAccountType(clan) == SteamId.CLAN
    ensures Interchangeable(SteamId.ClanToChat(clan) as int, clan as int) <==> SteamId.GetAccountInstance(clan) == 0
  {
    ChatLeadsBack(clan, SteamId.ClanToChat(clan));
    InterchangeableIff(SteamId.ClanToChat(clan) as int, clan as int);
  }

  lemma InterchangeableIff(a: Id, b: Id)
    ensures Interchangeable(a, b) <==> SteamIds().toClan(a) == SteamIds().toClan(b)
  {
    var clan := SteamIds().toClan(b);
    if SteamIds().toClan(a) != clan {
      assert !FindsSame(map[clan := NewGroup(clan, 1)], a, b);
    }
  }

  lemma ChatLeadsBack(clan: SteamId.Id, chat: SteamId.Id)
    requires SteamId.GetAccountType(clan) == SteamId.CLAN && chat == SteamId.ClanToChat(clan)
    ensures SteamIds().toClan(clan as int) == clan as int
    ensures SteamIds().toClan(chat as int) == clan as int <==> SteamId.GetAccountInstance(clan) == 0
  {
    SteamId.ClanMakesChat(clan);
    ClanOfClan(clan);
    ClanOfChat(chat);
    SteamId.ChatToClanToChat(clan);
    SteamId.SameNumber(SteamId.ChatToClan(chat), clan);
  }

  lemma ClanOfClan(clan: SteamId.Id)
    requires SteamId.GetAccountType(clan) == SteamId.CLAN
    ensures SteamIds().toClan(clan as int) == clan as int
  {
    SteamId.Back64(clan);
  }

  lemma ClanOfChat(chat: SteamId.Id)
    requires SteamId.GetAccountType(chat) == SteamId.CHAT
    ensures SteamIds().toClan(chat as int) == SteamId.ChatToClan(chat) as int
  {
    SteamId.Back64(chat);
  }

  class FriendsList {
    var byId: map<Id, Friend>

    constructor ()
      ensures byId == map[]
    {
      byId := map[];
    }

    method Add(friend: Friend)
      modifies this
      ensures byId == Added(old(byId), friend.steamId, friend)
    {
      if friend.steamId !in byId { byId := byId[friend.steamId := friend]; }
    }

    method Remove(id: Id)
      modifies this
      ensures byId == old(byId) - {id}
    {
      byId := byId - {id};
    }

    method SetName(id: Id, name: string)
      modifies this
      ensures byId == Put(old(byId), id, FriendIn(old(byId), id).(name := name))
    {
      if id in byId { byId := byId[id := byId[id].(name := name)]; }
    }

    method SetAvatar(id: Id, hash: seq<byte>)
      modifies this
      ensures byId == Put(old(byId), id, FriendIn(old(byId), id).(avatar := hash))
    {
      if id in byId { byId := byId[id := byId[id].(avatar := hash)]; }
    }

    method SetPersonaState(id: Id, state: nat)
      modifies this
      ensures byId == Put(old(byId), id, FriendIn(old(byId), id).(personaState := state))
    {
      if id in byId { byId := byId[id := byId[id].(personaState := state)]; }
    }

    method SetPersonaStateFlags(id: Id, flags: nat)
      modifies this
      ensures byId == Put(old(byId), id, FriendIn(old(byId), id).(personaStateFlags := flags))
    {
      if id in byId { byId := byId[id := byId[id].(personaStateFlags := flags)]; }
    }

    method SetGameAppId(id: Id, gameAppId: nat)
      modifies this
      ensures byId == Put(old(byId), id, FriendIn(old(byId), id).(gameAppId := gameAppId))
    {
      if id in byId { byId := byId[id := byId[id].(gameAppId := gameAppId)]; }
    }

    method SetGameId(id: Id, gameId: nat)
      modifies this
      ensures byId == Put(old(byId), id, FriendIn(old(byId), id).(gameId := gameId))
    {
      if id in byId { byId := byId[id := byId[id].(gameId := gameId)]; }
    }

    method SetGameName(id: Id, gameName: string)
      modifies this
      ensures byId == Put(old(byId), id, FriendIn(old(byId), id).(gameName := gameName))
    {
      if id in byId { byId := byId[id := byId[id].(gameName := gameName)]; }
    }
  }

  /** Its setters and its lookup take a chat's id for the clan's. */
  class GroupsList {
    const toClan: Id -> Id
    var byId: map<Id, Group>

    constructor (toClan: Id -> Id)
      ensures byId == map[] && this.toClan == toClan
    {
      this.toClan, byId := toClan, map[];
    }

    method Add(group: Group)
      modifies this
      ensures byId == Added(old(byId), group.steamId, group)
    {
      if group.steamId !in byId { byId := byId[group.steamId := group]; }
    }

    method Remove(id: Id)
      modifies this
      ensures byId == old(byId) - {id}
    {
      byId := byId - {id};
    }

    /** Whatever id of the clan is asked for, the clan's own or a chat's, the same group is found. */
    method ById(id: Id) returns (r: Option<Group>)
      ensures forall other | toClan(other) == toClan(id) :: FindGroup(toClan, byId, other) == r
    {
      var clan := toClan(id);
      r := if clan in byId then Some(byId[clan]) else None;
    }

    method SetName(id: Id, name: string)
      modifies this
      ensures byId == Put(old(byId), toClan(id), GroupIn(old(byId), toClan(id)).(name := name))
    {
      var clan := toClan(id);
      if clan in byId { byId := byId[clan := byId[clan].(name := name)]; }
    }

    method SetAvatar(id: Id, hash: seq<byte>)
      modifies this
      ensures byId == Put(old(byId), toClan(id), GroupIn(old(byId), toClan(id)).(avatar := hash))
    {
      var clan := toClan(id);
      if clan in byId { byId := byId[clan := byId[clan].(avatar := hash)]; }
    }

    method SetMemberTotalCount(id: Id, count: nat)
      modifies this
      ensures byId == Put(old(byId), toClan(id), GroupIn(old(byId), toClan(id)).(total := count))
    {
      var clan := toClan(id);
      if clan in byId { byId := byId[clan := byId[clan].(total := count)]; }
    }

    method SetMemberOnlineCount(id: Id, count: nat)
      modifies this
      ensures byId == Put(old(byId), toClan(id), GroupIn(old(byId), toClan(id)).(online := count))
    {
      var clan := toClan(id);
      if clan in byId { byId := byId[clan := byId[clan].(online := count)]; }
    }

    method SetMemberChattingCount(id: Id, count: nat)
      modifies this
      ensures byId == Put(old(byId), toClan(id), GroupIn(old(byId), toClan(id)).(chatting := count))
    {
      var clan := toClan(id);
      if clan in byId { byId := byId[clan := byId[clan].(chatting := count)]; }
    }

    method SetMemberInGameCount(id: Id, count: nat)
      modifies this
      ensures byId == Put(old(byId), toClan(id), GroupIn(old(byId), toClan(id)).(inGame := count))
    {
      var clan := toClan(id);
      if clan in byId { byId := byId[clan := byId[clan].(inGame := count)]; }
    }
  }

  class ChatsList {
    var byId: map<Id, Chat>

    constructor ()
      ensures byId == map[]
    {
      byId := map[];
    }

    method Add(chat: Chat)
      modifies this
      ensures byId == Added(old(byId), chat.steamId, chat)
    {
      if chat.steamId !in byId { byId := byId[chat.steamId := chat]; }
    }

    method AddChatMember(id: Id, member: ChatMember)
      modifies this
      ensures byId == WithMember(old(byId), id, member)
    {
      var chat := Chat(id, 0, map[]);
      if id in byId { chat := byId[id]; }
      byId := byId[id := chat.(members := chat.members[member.steamId := member])];
    }

    method RemoveChatMember(id: Id, member: Id)
      modifies this
      ensures byId == Put(old(byId), id, ChatIn(old(byId), id).(members := ChatIn(old(byId), id).members - {member}))
    {
      if id !in byId { return; }
      byId := byId[id := byId[id].(members := byId[id].members - {member})];
    }
  }
}
