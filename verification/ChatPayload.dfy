/** What the chat packets carry behind their bodies: the members of a room, and a change of one. */
module ChatPayload {
  import opened Basics
  import opened Schema
  import opened Rwu
  import opened SocialCache

  /** readChatMember: the member, and what is left. */
  function Member(s: seq<byte>): (ChatMember, seq<byte>) {
    var a := Skip(Text(s).1, 1);                 // MessageObject, 7
    var (id, b) := Unsigned(Text(a).1, 8);           // steamid
    var (chat, c) := Signed32(Text(Skip(b, 1)).1);    // 2, Permissions
    var (clan, d) := Signed32(Text(Skip(c, 1)).1);    // 2, Details
    (ChatMember(id, chat, clan), d)
  }

  /** The loop of handleChatEnter. */
  function Members(s: seq<byte>, n: nat): (ms: seq<ChatMember>)
    ensures |ms| == n
    decreases n
  {
    if n == 0 then [] else var (m, rest) := Member(s); [m] + Members(Skip(rest, 6), n - 1)
  }

  function EnterMembers(payload: seq<byte>, numMembers: int): seq<ChatMember> {
    Members(Skip(Text(payload).1, 1), if numMembers < 0 then 0 else numMembers)
  }

  method ReadChatMember(r: Reader) returns (m: ChatMember)
    modifies r
    ensures (m, r.input) == Member(old(r.input))
  {
    var text, failed := r.ReadString();
    r.ReadByte();
    text, failed := r.ReadString();
    var id := r.ReadUint64();
    r.ReadByte();
    text, failed := r.ReadString();
    var chat := r.ReadInt32();
    r.ReadByte();
    text, failed := r.ReadString();
    var clan := r.ReadInt32();
    m := ChatMember(id, chat, clan);
  }

  /** A member-change packet: whom it is about, what changed, and the member as it is sent with an entry. */
  datatype StateChange = StateChange(actedOn: nat, change: int, member: ChatMember)

  function ChangeOf(payload: seq<byte>): StateChange {
    var (actedOn, a) := Unsigned(payload, 8);
    var (change, b) := Signed32(a);
    var (_, c) := Unsigned(b, 8);
    StateChange(actedOn, change, Member(Skip(c, 1)).0)
  }

  // ----- written and read back -----

  /** The texts and bytes around a member's numbers. */
  datatype Frame = Frame(title: seq<byte>, b1: byte, steamid: seq<byte>, b2: byte, permissions: seq<byte>,
                         b3: byte, details: seq<byte>)

  predicate Named(f: Frame) { 0 !in f.title && 0 !in f.steamid && 0 !in f.permissions && 0 !in f.details }

  predicate Sendable(m: ChatMember) {
    m.steamId < Pow256(8) && Int32.InRange(m.chatPermissions) && Int32.InRange(m.clanPermissions)
  }

  function MemberBytes(f: Frame, m: ChatMember): seq<byte>
    requires Sendable(m)
  {
    f.title + [0] + ([f.b1] + (f.steamid + [0] + (LE(m.steamId, 8) +
    ([f.b2] + (f.permissions + [0] + (EncodeNum(Int32, m.chatPermissions) +
    ([f.b3] + (f.details + [0] + EncodeNum(Int32, m.clanPermissions)))))))))
  }

  lemma SkipOne(b: byte, rest: seq<byte>)
    ensures Skip([b] + rest, 1) == rest
  {}

  /** The parts of a member, each with all that follows it. */
  lemma MemberBefore(f: Frame, m: ChatMember, rest: seq<byte>)
    requires Named(f) && Sendable(m)
    ensures Member(MemberBytes(f, m) + rest) == (m, rest)
  {
    var s4 := EncodeNum(Int32, m.clanPermissions) + rest;
    var s3 := EncodeNum(Int32, m.chatPermissions) + ([f.b3] + (f.details + [0] + s4));
    var s2 := LE(m.steamId, 8) + ([f.b2] + (f.permissions + [0] + s3));
    var s1 := f.title + [0] + ([f.b1] + (f.steamid + [0] + s2));
    assert MemberBytes(f, m) + rest == s1;
    TextBefore(f.title, [f.b1] + (f.steamid + [0] + s2));
    SkipOne(f.b1, f.steamid + [0] + s2);
    TextBefore(f.steamid, s2);
    UintBefore(m.steamId, 8, [f.b2] + (f.permissions + [0] + s3));
    SkipOne(f.b2, f.permissions + [0] + s3);
    TextBefore(f.permissions, s3);
    IntBefore(m.chatPermissions, [f.b3] + (f.details + [0] + s4));
    SkipOne(f.b3, f.details + [0] + s4);
    TextBefore(f.details, s4);
    IntBefore(m.clanPermissions, rest);
  }

  /** All members of a room, each with the six bytes behind it. */
  function MembersBytes(fs: seq<(Frame, seq<byte>)>, ms: seq<ChatMember>): seq<byte>
    requires |fs| == |ms| && forall i | 0 <= i < |ms| :: Sendable(ms[i])
  {
    if ms == [] then [] else MemberBytes(fs[0].0, ms[0]) + (fs[0].1 + MembersBytes(fs[1..], ms[1..]))
  }

  lemma OneBefore(f: Frame, m: ChatMember, six: seq<byte>, more: seq<byte>, n: nat)
    requires Named(f) && Sendable(m) && |six| == 6
    ensures Members(MemberBytes(f, m) + (six + more), n + 1) == [m] + Members(more, n)
  {
    MemberBefore(f, m, six + more);
    Halves(six, more);
  }

  lemma {:induction false} MembersBefore(fs: seq<(Frame, seq<byte>)>, ms: seq<ChatMember>)
    requires |fs| == |ms| && forall i | 0 <= i < |ms| :: Sendable(ms[i]) && Named(fs[i].0) && |fs[i].1| == 6
    ensures Members(MembersBytes(fs, ms), |ms|) == ms
    decreases |ms|
  {
    if ms != [] {
      var more := MembersBytes(fs[1..], ms[1..]);
      MembersBefore(fs[1..], ms[1..]);
      OneBefore(fs[0].0, ms[0], fs[0].1, more, |ms| - 1);
      assert ms == [ms[0]] + ms[1..];
    }
  }

  /** Entering a room: its name, a byte and the members are read back as the members. */
  lemma EnterReadBack(name: seq<byte>, b: byte, fs: seq<(Frame, seq<byte>)>, ms: seq<ChatMember>)
    requires 0 !in name && |fs| == |ms|
    requires forall i | 0 <= i < |ms| :: Sendable(ms[i]) && Named(fs[i].0) && |fs[i].1| == 6
    ensures EnterMembers(name + [0] + ([b] + MembersBytes(fs, ms)), |ms|) == ms
  {
    TextBefore(name, [b] + MembersBytes(fs, ms));
    SkipOne(b, MembersBytes(fs, ms));
    MembersBefore(fs, ms);
  }

  predicate IsInt(v: int) { Int32.InRange(v) }

  /** A member change on the wire. */
  function ChangeBytes(actedOn: nat, change: int, actedBy: nat, b: byte, f: Frame, m: ChatMember): seq<byte>
    requires IsInt(change) && Sendable(m)
  {
    LE(actedOn, 8) + (EncodeNum(Int32, change) + (LE(actedBy, 8) + ([b] + MemberBytes(f, m))))
  }

  /** A change is read back with whom it is about and, behind it, the member. */
  lemma ChangeReadBack(actedOn: nat, change: int, actedBy: nat, b: byte, f: Frame, m: ChatMember)
    requires actedOn < Pow256(8) && IsInt(change) && actedBy < Pow256(8) && Named(f) && Sendable(m)
    ensures ChangeOf(ChangeBytes(actedOn, change, actedBy, b, f, m)) == StateChange(actedOn, change, m)
  {
    var s := MemberBytes(f, m);
    UintBefore(actedOn, 8, EncodeNum(Int32, change) + (LE(actedBy, 8) + ([b] + s)));
    IntBefore(change, LE(actedBy, 8) + ([b] + s));
    UintBefore(actedBy, 8, [b] + s);
    SkipOne(b, s);
    MemberBefore(f, m, []);
    assert s + [] == s;
  }
}
