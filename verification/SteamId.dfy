/** SteamID: four bit fields in 64 bits, and its text form. */
module SteamId {
  import opened Basics

  type Id = bv64

  // ----- bit fields -----

  function Get(s: Id, offset: bv6, mask: bv64): bv64 { (s >> offset) & mask }

  function Set(s: Id, offset: bv6, mask: bv64, value: bv64): Id {
    (s & !(mask << offset)) | ((value & mask) << offset)
  }

  function GetAccountId(s: Id): bv32 { Get(s, 0, 0xFFFF_FFFF) as bv32 }

  function SetAccountId(s: Id, id: bv32): Id { Set(s, 0, 0xFFFF_FFFF, id as bv64) }

  function GetAccountInstance(s: Id): bv64 { Get(s, 32, 0xF_FFFF) }

  function SetAccountInstance(s: Id, value: bv64): Id { Set(s, 32, 0xF_FFFF, value) }

  function GetAccountType(s: Id): bv64 { Get(s, 52, 0xF) }

  function SetAccountType(s: Id, t: bv64): Id { Set(s, 52, 0xF, t) }

  function GetAccountUniverse(s: Id): bv64 { Get(s, 56, 0xF) }

  function SetAccountUniverse(s: Id, universe: bv64): Id { Set(s, 56, 0xF, universe) }

  function NewIdAdv(accountId: bv32, instance: bv64, universe: bv64, accountType: bv64): Id {
    SetAccountType(SetAccountUniverse(SetAccountInstance(SetAccountId(0, accountId), instance), universe), accountType)
  }

  const CLAN: bv64 := 7
  const CHAT: bv64 := 8
  const CLAN_CHAT: bv64 := 0x8_0000  // ChatInstanceFlag Clan

  function ClanToChat(s: Id): Id {
    if GetAccountType(s) == CLAN then SetAccountType(SetAccountInstance(s, CLAN_CHAT), CHAT) else s
  }

  function ChatToClan(s: Id): Id {
    if GetAccountType(s) == CHAT then SetAccountType(SetAccountInstance(s, 0), CLAN) else s
  }

  /** A setter's field holds the new value, cut to the field's width, and every other bit is as it was. */
  lemma SetAccountIdFrame(s: Id, id: bv32)
    ensures GetAccountId(SetAccountId(s, id)) == id
    ensures SetAccountId(s, id) & 0xFFFF_FFFF_0000_0000 == s & 0xFFFF_FFFF_0000_0000
  {}

  lemma SetAccountInstanceFrame(s: Id, v: bv64)
    ensures GetAccountInstance(SetAccountInstance(s, v)) == v & 0xF_FFFF
    ensures SetAccountInstance(s, v) & 0xFFF0_0000_FFFF_FFFF == s & 0xFFF0_0000_FFFF_FFFF
  {}

  lemma SetAccountTypeFrame(s: Id, v: bv64)
    ensures GetAccountType(SetAccountType(s, v)) == v & 0xF
    ensures SetAccountType(s, v) & 0xFF0F_FFFF_FFFF_FFFF == s & 0xFF0F_FFFF_FFFF_FFFF
  {}

  lemma SetAccountUniverseFrame(s: Id, v: bv64)
    ensures GetAccountUniverse(SetAccountUniverse(s, v)) == v & 0xF
    ensures SetAccountUniverse(s, v) & 0xF0FF_FFFF_FFFF_FFFF == s & 0xF0FF_FFFF_FFFF_FFFF
  {}

  /** The four fields rebuild an id exactly when the four bits above them are zero. */
  lemma RebuildIff(s: Id)
    ensures NewIdAdv(GetAccountId(s), GetAccountInstance(s), GetAccountUniverse(s), GetAccountType(s)) == s
            <==> s >> 60 == 0
  {}

  /** Turning a clan id into a chat id and back gives it back exactly when it had instance 0. */
  lemma ChatToClanToChat(s: Id)
    ensures GetAccountType(s) == CLAN ==> (ChatToClan(ClanToChat(s)) == s <==> GetAccountInstance(s) == 0)
    ensures GetAccountType(s) != CHAT ==> GetAccountType(ChatToClan(s)) == GetAccountType(s) && ChatToClan(s) == s
    ensures GetAccountType(ChatToClan(s)) != CHAT && ChatToClan(ChatToClan(s)) == ChatToClan(s)
  {}

  /** A clan's chat has type 8, the clan flag as its instance, and the clan's other bits. */
  lemma ClanMakesChat(s: Id)
    requires GetAccountType(s) == CLAN
    ensures GetAccountType(ClanToChat(s)) == CHAT
    ensures (s >> 52) & 0xF == 7
    ensures ClanToChat(s) == (s & 0xFF00_0000_FFFF_FFFF) | 0x0088_0000_0000_0000
  {}

  /** And the clan of a chat type 7, instance 0, and the chat's other bits. */
  lemma ChatMakesClan(s: Id)
    requires GetAccountType(s) == CHAT
    ensures (s >> 52) & 0xF == 8
    ensures ChatToClan(s) == (s & 0xFF00_0000_FFFF_FFFF) | 0x0070_0000_0000_0000
  {}

  /** What the getters read: the low 32 bits, the twenty above them, and two nibbles. */
  lemma FieldsAre(s: Id)
    ensures GetAccountId(s) as bv64 == s & 0xFFFF_FFFF
    ensures GetAccountInstance(s) == (s >> 32) & 0xF_FFFF
    ensures GetAccountType(s) == (s >> 52) & 0xF && GetAccountUniverse(s) == (s >> 56) & 0xF
  {}

  lemma ClanIsNoChat(s: Id)
    ensures GetAccountType(s) as int == 7 ==> GetAccountType(s) != CHAT
  {
    var t := GetAccountType(s);
    assert (t as int) as bv64 == t;
  }

  /** The base the trade-offer code adds to account ids makes public individual ids, without carry. */
  lemma AccountIdBase(accountId: bv32)
    ensures (accountId as bv64) + 76561197960265728 == NewIdAdv(accountId, 1, 1, 1)
  {}

  // ----- decimal text -----

  predicate IsDigit(c: char) { '0' <= c <= '9' }

  function Digit(c: char): (d: nat)
    requires IsDigit(c)
    ensures d < 10
  {
    (c as int) - ('0' as int)
  }

  function DigitChar(d: nat): (c: char)
    requires d < 10
    ensures IsDigit(c) && Digit(c) == d
  {
    ((d + ('0' as int)) as char)
  }

  /** strconv.FormatUint(n, 10). */
  function Decimal(n: nat): (s: string)
    ensures s != [] && forall k | 0 <= k < |s| :: IsDigit(s[k])
  {
    if n < 10 then [DigitChar(n)] else Decimal(n / 10) + [DigitChar(n % 10)]
  }

  /** The scan of strconv.ParseUint from character i on, with n read so far: a value, and whether it is good. */
  function Scan(s: string, i: nat, n: nat, max: nat): (nat, bool)
    requires i <= |s|
    decreases |s| - i
  {
    if i == |s| then (n, true)
    else if !IsDigit(s[i]) then (0, false)
    else if n * 10 + Digit(s[i]) > max then (max, false)
    else Scan(s, i + 1, n * 10 + Digit(s[i]), max)
  }

  /** strconv.ParseUint(s, 10, bits), whose greatest value is max. */
  function ParseUint(s: string, max: nat): (r: (nat, bool))
    ensures r.0 <= max
  {
    if s == [] then (0, false) else ScanBound(s, 0, 0, max); Scan(s, 0, 0, max)
  }

  lemma {:induction false} ScanBound(s: string, i: nat, n: nat, max: nat)
    requires i <= |s| && n <= max
    ensures Scan(s, i, n, max).0 <= max
    decreases |s| - i
  {
    if i < |s| && IsDigit(s[i]) && n * 10 + Digit(s[i]) <= max { ScanBound(s, i + 1, n * 10 + Digit(s[i]), max); }
  }

  /** The value strconv.ParseInt(s, 10, 32) returns beside its error. */
  function ParseInt32(s: string): int {
    var sign := s != [] && (s[0] == '+' || s[0] == '-');
    var neg := s != [] && s[0] == '-';
    var (un, ok) := ParseUint(if sign then s[1..] else s, TWO32 - 1);
    if !ok && un == 0 then 0
    else if neg then -(if un > TWO31 then TWO31 else un)
    else if un >= TWO31 then TWO31 - 1 else un
  }

  lemma {:induction false} ScanDecimal(n: nat, rest: string, max: nat)
    requires n <= max
    ensures Scan(Decimal(n) + rest, 0, 0, max) == Scan(Decimal(n) + rest, |Decimal(n)|, n, max)
    decreases n
  {
    if n >= 10 {
      var last := [DigitChar(n % 10)];
      ScanDecimal(n / 10, last + rest, max);
      Reassociate(Decimal(n / 10), last, rest);
      assert (Decimal(n) + rest)[|Decimal(n / 10)|] == DigitChar(n % 10);
    }
  }

  /** Reading back what was formatted. */
  lemma ParseDecimal(n: nat, max: nat)
    requires n <= max
    ensures ParseUint(Decimal(n), max) == (n, true)
  {
    ScanDecimal(n, "", max);
    assert Decimal(n) + "" == Decimal(n);
  }

  // ----- strings.Replace and strings.Split -----

  const STEAM := "STEAM_"

  /** strings.Replace(s, "STEAM_", "", -1). */
  function WithoutSteam(s: string): string {
    if s == [] then []
    else if |s| >= 6 && s[..6] == STEAM then WithoutSteam(s[6..])
    else [s[0]] + WithoutSteam(s[1..])
  }

  lemma {:induction false} NothingToReplace(s: string)
    requires 'S' !in s
    ensures WithoutSteam(s) == s
  {
    if s != [] {
      assert |s| >= 6 ==> s[..6][0] == s[0];
      NothingToReplace(s[1..]);
    }
  }

  /** strings.Split(s, ":"). */
  function Split(s: string): (parts: seq<string>)
    ensures |parts| >= 1
    ensures |parts| == 1 + Colons(s)
  {
    if s == [] then [[]]
    else
      var rest := Split(s[1..]);
      if s[0] == ':' then [[]] + rest else [[s[0]] + rest[0]] + rest[1..]
  }

  function Colons(s: string): nat { if s == [] then 0 else (if s[0] == ':' then 1 else 0) + Colons(s[1..]) }

  lemma {:induction false} SplitAt(a: string, b: string)
    requires ':' !in a
    ensures Split(a + ":" + b) == [a] + Split(b)
  {
    if a == [] {
      assert a + ":" + b == ":" + b && (":" + b)[1..] == b;
    } else {
      SplitAt(a[1..], b);
      assert (a + ":" + b)[1..] == a[1..] + ":" + b;
      assert [a[0]] + a[1..] == a;
    }
  }

  lemma {:induction false} SplitLast(a: string)
    requires ':' !in a
    ensures Split(a) == [a]
  {
    if a != [] {
      SplitLast(a[1..]);
      assert [a[0]] + a[1..] == a;
    }
  }

  // ----- NewId and String -----

  /** STEAM_[0-5]:[01]:\d+ matches from character i. */
  predicate MatchesAt(s: string, i: nat) {
    && i + 11 <= |s| && s[i..i + 6] == STEAM && '0' <= s[i + 6] <= '5' && s[i + 7] == ':'
    && '0' <= s[i + 8] <= '1' && s[i + 9] == ':' && IsDigit(s[i + 10])
  }

  /** The regular expression is not anchored. */
  predicate Matches(s: string) { exists i | 0 <= i <= |s| :: MatchesAt(s, i) }

  lemma {:induction false} ColonsAppend(a: string, b: string)
    ensures Colons(a + b) == Colons(a) + Colons(b)
  {
    if a == [] {
      assert a + b == b;
    } else {
      ColonsAppend(a[1..], b);
      assert (a + b)[1..] == a[1..] + b;
    }
  }

  lemma {:induction false} ReplaceKeepsColons(s: string)
    ensures Colons(WithoutSteam(s)) == Colons(s)
  {
    if s != [] {
      if |s| >= 6 && s[..6] == STEAM {
        ReplaceKeepsColons(s[6..]);
        assert s == STEAM + s[6..];
        ColonsAppend(STEAM, s[6..]);
        assert Colons(STEAM) == 0 by { NoColons(STEAM); }
      } else {
        ReplaceKeepsColons(s[1..]);
        assert ([s[0]] + WithoutSteam(s[1..]))[1..] == WithoutSteam(s[1..]);
      }
    }
  }

  lemma {:induction false} NoColons(s: string)
    requires ':' !in s
    ensures Colons(s) == 0
  {
    if s != [] { NoColons(s[1..]); }
  }

  lemma TwoColons(a: string, b: string, c: string)
    ensures Colons(a + (":" + (b + (":" + c)))) >= 2
  {
    ColonsAppend(a, ":" + (b + (":" + c)));
    ColonsAppend(":", b + (":" + c));
    ColonsAppend(b, ":" + c);
    ColonsAppend(":", c);
    assert Colons(":") == 1;
  }

  lemma AroundColons(s: string, i: nat)
    requires i + 11 <= |s| && s[i + 7] == ':' && s[i + 9] == ':'
    ensures s == s[..i + 7] + (":" + (s[i + 8..i + 9] + (":" + s[i + 10..])))
  {}

  /** A match holds two colons, so splitting yields the three parts that NewId indexes. */
  lemma MatchHasParts(s: string)
    requires Matches(s)
    ensures |Split(WithoutSteam(s))| >= 3
  {
    var i :| 0 <= i <= |s| && MatchesAt(s, i);
    ReplaceKeepsColons(s);
    AroundColons(s, i);
    TwoColons(s[..i + 7], s[i + 8..i + 9], s[i + 10..]);
  }

  /** uint64(universe) & 0xF of a possibly negative number. */
  function Low4(universe: int): bv64 { (universe % 16) as bv64 }

  /** The account id from the two numbers of the text, and those numbers from the account id. */
  function Join(high: bv32, low: bv32): bv32 { (high << 1) | low }

  function High(account: bv32): bv32 { account >> 1 }

  function Low(account: bv32): bv32 { account & 1 }

  /** NewId's last step: an id of type Individual and instance 1. */
  function Combine(read: int, authServer: nat, accId: nat): Id
    requires authServer < TWO32 && accId < TWO32
  {
    var universe := if read == 0 then 1 else read;
    NewIdAdv(Join(accId as bv32, authServer as bv32), 1, Low4(universe), 1)
  }

  function FromParts(parts: seq<string>): Id
    requires |parts| >= 3
  {
    Combine(ParseInt32(parts[0]), ParseUint(parts[1], TWO32 - 1).0, ParseUint(parts[2], TWO32 - 1).0)
  }

  function NewId(id: string): Outcome<Id> {
    if Matches(id) then
      MatchHasParts(id);
      Ok(FromParts(Split(WithoutSteam(id))))
    else
      var (n, ok) := ParseUint(id, TWO64 - 1);
      if ok then Ok(n as Id) else Err
  }

  function Text(s: Id): string {
    var account := GetAccountId(s);
    if GetAccountType(s) <= 1 then
      var universe := if GetAccountUniverse(s) <= 1 then 0 else GetAccountUniverse(s) as int;
      STEAM + (Decimal(universe) + ":" + (Decimal(Low(account) as int) + ":" + Decimal(High(account) as int)))
    else
      Decimal(s as int)
  }

  // ----- the text form read back -----

  lemma OneDigit(n: nat)
    requires n < 10
    ensures Decimal(n) == [DigitChar(n)]
  {}

  /** No leading zero, and no number has more digits than it needs. */
  lemma {:induction false} NoLeadingZero(n: nat)
    ensures n > 0 ==> Decimal(n)[0] != '0'
    ensures n == 0 ==> Decimal(n) == "0"
  {
    if n >= 10 { NoLeadingZero(n / 10); }
  }

  lemma DigitsOnly(n: nat, c: char)
    requires !IsDigit(c)
    ensures c !in Decimal(n)
  {}

  /** The text of an Individual id, by its three numbers. */
  function SteamText(universe: nat, authServer: nat, rest: nat): string {
    STEAM + (Decimal(universe) + ":" + (Decimal(authServer) + ":" + Decimal(rest)))
  }

  lemma SteamTextMatches(u: nat, a: nat, b: nat)
    requires u <= 5 && a <= 1
    ensures Matches(SteamText(u, a, b))
  {
    OneDigit(u);
    OneDigit(a);
    var s := SteamText(u, a, b);
    assert s[..6] == STEAM && s[6] == DigitChar(u) && s[7] == ':' && s[8] == DigitChar(a) && s[9] == ':';
    assert s[10] == Decimal(b)[0];
    assert s[0..6] == s[..6];
    assert MatchesAt(s, 0);
  }

  lemma SteamTextSplits(u: nat, a: nat, b: nat)
    ensures Split(WithoutSteam(SteamText(u, a, b))) == [Decimal(u), Decimal(a), Decimal(b)]
  {
    var s := SteamText(u, a, b);
    var rest := Decimal(u) + ":" + (Decimal(a) + ":" + Decimal(b));
    assert s[..6] == STEAM && s[6..] == rest;
    DigitsOnly(u, 'S');
    DigitsOnly(a, 'S');
    DigitsOnly(b, 'S');
    NothingToReplace(rest);
    DigitsOnly(u, ':');
    DigitsOnly(a, ':');
    DigitsOnly(b, ':');
    SplitAt(Decimal(u), Decimal(a) + ":" + Decimal(b));
    SplitAt(Decimal(a), Decimal(b));
    SplitLast(Decimal(b));
  }

  lemma ParseUniverse(u: nat)
    requires u < TWO31
    ensures ParseInt32(Decimal(u)) == u
  {
    ParseDecimal(u, TWO32 - 1);
    assert IsDigit(Decimal(u)[0]);
  }

  lemma ReadSteamText(u: nat, a: nat, b: nat)
    requires u <= 5 && a <= 1 && b < TWO31
    ensures NewId(SteamText(u, a, b)) == Ok(Combine(u, a, b))
  {
    SteamTextMatches(u, a, b);
    SteamTextSplits(u, a, b);
    PartsOf(u, a, b);
  }

  lemma PartsOf(u: nat, a: nat, b: nat)
    requires u <= 5 && a <= 1 && b < TWO31
    ensures FromParts([Decimal(u), Decimal(a), Decimal(b)]) == Combine(u, a, b)
  {
    ParseUniverse(u);
    ParseDecimal(a, TWO32 - 1);
    ParseDecimal(b, TWO32 - 1);
  }

  /** A universe above 5 makes text that NewId does not take. */
  lemma RejectSteamText(u: nat, a: nat, b: nat)
    requires 5 < u < 16
    ensures NewId(SteamText(u, a, b)) == Err
  {
    var s := SteamText(u, a, b);
    DigitsOnly(u, 'S');
    DigitsOnly(a, 'S');
    DigitsOnly(b, 'S');
    assert s[..6] == STEAM && s[6] == Decimal(u)[0];
    if u >= 10 {
      OneDigit(u / 10);
      assert Decimal(u) == [DigitChar(u / 10)] + [DigitChar(u % 10)];
      assert s[7] == DigitChar(u % 10);
    }
    forall i | 0 <= i <= |s| ensures !MatchesAt(s, i) {
      if 0 < i && i + 11 <= |s| {
        OnlyOneS(s, i);
        assert s[i..i + 6][0] == s[i];
      }
    }
  }

  lemma OnlyOneS(s: string, i: nat)
    requires 6 <= |s| && s[..6] == STEAM && 'S' !in s[6..] && 0 < i < |s|
    ensures s[i] != 'S'
  {
    if i < 6 {
      assert s[..6][i] == s[i];
    } else {
      assert s[6..][i - 6] == s[i];
    }
  }

  // ----- any text -----

  /** A string matches if and only if it holds, anywhere, STEAM_, a digit up to 5, a colon, 0 or 1, a colon, a digit. */
  lemma MatchesIff(s: string)
    ensures Matches(s) <==> exists pre, u, a, d, post ::
              s == Around(pre, u, a, d, post) && '0' <= u <= '5' && '0' <= a <= '1' && '0' <= d <= '9'
  {
    if Matches(s) {
      var i :| 0 <= i <= |s| && MatchesAt(s, i);
      MatchIsAround(s, i);
    }
    forall pre, u, a, d, post | s == Around(pre, u, a, d, post) && '0' <= u <= '5' && '0' <= a <= '1' && '0' <= d <= '9'
      ensures Matches(s)
    {
      AroundMatches(pre, u, a, d, post);
    }
  }

  /** The text of a match, between any two strings. */
  function Around(pre: string, u: char, a: char, d: char, post: string): string {
    pre + ("STEAM_" + ([u, ':', a, ':', d] + post))
  }

  lemma MatchIsAround(s: string, i: nat)
    requires MatchesAt(s, i)
    ensures s == Around(s[..i], s[i + 6], s[i + 8], s[i + 10], s[i + 11..])
  {
    assert s[i..i + 6] == "STEAM_";
    assert s == s[..i] + (s[i..i + 6] + (s[i + 6..i + 11] + s[i + 11..]));
    assert s[i + 6..i + 11] == [s[i + 6], ':', s[i + 8], ':', s[i + 10]];
  }

  lemma AroundMatches(pre: string, u: char, a: char, d: char, post: string)
    requires '0' <= u <= '5' && '0' <= a <= '1' && '0' <= d <= '9'
    ensures MatchesAt(Around(pre, u, a, d, post), |pre|)
  {
    var s, i := Around(pre, u, a, d, post), |pre|;
    var rest := [u, ':', a, ':', d] + post;
    assert s[i..] == "STEAM_" + rest;
    assert s[i..][..6] == "STEAM_" && s[i..i + 6] == s[i..][..6];
    assert s[i..][6..] == rest && s[i + 6..] == rest;
    assert s[i + 6] == rest[0] && s[i + 7] == rest[1] && s[i + 8] == rest[2] && s[i + 9] == rest[3];
    assert s[i + 10] == rest[4];
  }

  /** A number over the greatest value is read as the greatest value, and not as good. */
  lemma {:induction false} ScanTooBig(n: nat, rest: string, max: nat)
    requires n > max
    ensures Scan(Decimal(n) + rest, 0, 0, max) == (max, false)
    decreases n
  {
    if n >= 10 {
      var last := [DigitChar(n % 10)];
      Reassociate(Decimal(n / 10), last, rest);
      if n / 10 > max {
        ScanTooBig(n / 10, last + rest, max);
      } else {
        ScanDecimal(n / 10, last + rest, max);
        assert (Decimal(n) + rest)[|Decimal(n / 10)|] == DigitChar(n % 10);
      }
    }
  }

  /** Any number in decimal: below 2^64 it is the id, from there on an error. */
  lemma DecimalIds(n: nat)
    ensures NewId(Decimal(n)) == if n < 0x1_0000_0000_0000_0000 then Ok(n as bv64) else Err
  {
    NoMatchInDecimal(n);
    if n < TWO64 {
      ParseDecimal(n, TWO64 - 1);
    } else {
      ScanTooBig(n, "", TWO64 - 1);
      assert Decimal(n) + "" == Decimal(n);
    }
  }

  /** Any text of the form that String writes: an account number over 2^32 - 1 counts as that. */
  lemma ReadAnySteamText(u: nat, a: nat, b: nat)
    requires u <= 5 && a <= 1
    ensures NewId(SteamText(u, a, b)) == Ok(Combine(u, a, if b < 0x1_0000_0000 then b else 0xFFFF_FFFF))
  {
    SteamTextMatches(u, a, b);
    SteamTextSplits(u, a, b);
    ParseUniverse(u);
    ParseDecimal(a, TWO32 - 1);
    if b < TWO32 {
      ParseDecimal(b, TWO32 - 1);
    } else {
      ScanTooBig(b, "", TWO32 - 1);
      assert Decimal(b) + "" == Decimal(b);
    }
  }

  // ----- the numbers in the text and the bits of the id -----

  lemma LowBit(account: bv32)
    ensures Low(account) as int <= 1
  {
    assert Low(account) == 0 || Low(account) == 1;
  }

  lemma HighBits(account: bv32)
    ensures High(account) as int < 0x8000_0000
  {
    assert High(account) <= 0x7FFF_FFFF;
    Below31(High(account));
  }

  lemma Below31(x: bv32)
    requires x <= 0x7FFF_FFFF
    ensures x as int < 0x8000_0000
  {
    var n := x as int;
    assert n as bv32 == x;
  }

  lemma Joined(account: bv32)
    ensures Join(High(account), Low(account)) == account
  {}

  lemma JoinBack(high: bv32, low: bv32, account: bv32)
    requires Join(high, low) == account
    ensures high as int < 0x1_0000_0000 && low as int < 0x1_0000_0000
    ensures Join((high as int) as bv32, (low as int) as bv32) == account
  {}

  lemma AccountBack(account: bv32)
    ensures Join((High(account) as int) as bv32, (Low(account) as int) as bv32) == account
  {
    Joined(account);
    JoinBack(High(account), Low(account), account);
  }

  lemma Back64(x: bv64)
    ensures x as int < TWO64 && (x as int) as bv64 == x
  {}

  lemma SameNumber(x: bv64, y: bv64)
    ensures x as int == y as int <==> x == y
  {
    Back64(x);
    Back64(y);
  }

  lemma CombineBack(account: bv32, universe: int, a: int, b: int)
    requires a == Low(account) as int && b == High(account) as int
    ensures a <= 1 && b < TWO31
    ensures Combine(universe, a, b) == NewIdAdv(account, 1, Low4(if universe == 0 then 1 else universe), 1)
  {
    LowBit(account);
    HighBits(account);
    AccountBack(account);
  }

  lemma UniverseBits(s: Id)
    ensures GetAccountUniverse(s) as int < 16
  {}

  lemma Low4Back(u: bv64)
    requires u as int < 16
    ensures Low4(u as int) == u
  {
    Back64(u);
  }

  /** Where text keeps all there is of an id: the Individual ids with these other fields. */
  predicate Plain(s: Id) {
    && GetAccountType(s) == 1 && GetAccountInstance(s) == 1 && s >> 60 == 0
    && 1 <= GetAccountUniverse(s) && GetAccountUniverse(s) <= 5
  }

  lemma PlainIff(s: Id, universe: bv64)
    requires universe == (if GetAccountUniverse(s) == 0 then 1 else GetAccountUniverse(s))
    ensures NewIdAdv(GetAccountId(s), 1, universe, 1) == s <==>
            GetAccountType(s) == 1 && GetAccountInstance(s) == 1 && s >> 60 == 0 && GetAccountUniverse(s) != 0
  {
    RebuildIff(s);
    AdvFields(GetAccountId(s), universe);
  }

  lemma AdvFields(account: bv32, universe: bv64)
    ensures var s := NewIdAdv(account, 1, universe, 1);
            GetAccountType(s) == 1 && GetAccountInstance(s) == 1
            && GetAccountUniverse(s) == universe & 0xF && s >> 60 == 0
  {}

  /** The texts of the ids of types 0 and 1: which are read, and as what. */
  lemma ReadSteamId(s: Id)
    requires GetAccountType(s) <= 1
    ensures NewId(Text(s)) ==
            if GetAccountUniverse(s) as int > 5 then Err
            else Ok(NewIdAdv(GetAccountId(s), 1, if GetAccountUniverse(s) == 0 then 1 else GetAccountUniverse(s), 1))
  {
    var account, u := GetAccountId(s), GetAccountUniverse(s);
    UniverseBits(s);
    TextShows(s, Shown(u), Low(account) as int, High(account) as int);
    ReadShown(account, u, Low(account) as int, High(account) as int);
  }

  /** The universe as String shows it. */
  function Shown(u: bv64): nat { if u as int <= 1 then 0 else u as int }

  lemma TextShows(s: Id, shown: nat, a: nat, b: nat)
    requires GetAccountType(s) <= 1 && shown == Shown(GetAccountUniverse(s))
    requires a == Low(GetAccountId(s)) as int && b == High(GetAccountId(s)) as int
    ensures Text(s) == SteamText(shown, a, b)
  {
    SmallUniverse(GetAccountUniverse(s));
  }

  /** How an id of type 0 or 1 is written: its universe, the lowest bit of the account id, and the bits above it. */
  lemma TextIs(s: Id, u: nat, a: nat, b: nat)
    requires GetAccountType(s) <= 1 && u == Shown(GetAccountUniverse(s))
    requires a == Low(GetAccountId(s)) as int && b == High(GetAccountId(s)) as int
    ensures Text(s) == "STEAM_" + (Decimal(u) + ":" + (Decimal(a) + ":" + Decimal(b)))
    ensures Low(GetAccountId(s)) == GetAccountId(s) & 1 && High(GetAccountId(s)) == GetAccountId(s) >> 1
  {
    TextShows(s, u, a, b);
  }

  lemma ReadShown(account: bv32, u: bv64, a: nat, b: nat)
    requires u as int < 16 && a == Low(account) as int && b == High(account) as int
    ensures NewId(SteamText(Shown(u), a, b)) ==
            if u as int > 5 then Err else Ok(NewIdAdv(account, 1, if u == 0 then 1 else u, 1))
  {
    CombineBack(account, Shown(u), a, b);
    SmallUniverse(u);
    if u as int > 5 {
      RejectSteamText(Shown(u), a, b);
    } else {
      ReadSteamText(Shown(u), a, b);
      Low4Back(u);
    }
  }

  lemma SmallUniverse(u: bv64)
    ensures u as int <= 1 <==> u == 0 || u == 1
    ensures Low4(1) == 1
  {
    Back64(u);
  }

  /** Decimal text has no letters. */
  lemma NoMatchInDecimal(n: nat)
    ensures !Matches(Decimal(n))
  {
    var s := Decimal(n);
    forall i | 0 <= i <= |s| ensures !MatchesAt(s, i) {
      if i + 11 <= |s| {
        assert s[i..i + 6][0] == s[i] && IsDigit(s[i]);
      }
    }
  }

  /**
   NewId gives back the id that String wrote for all ids of the types from 2 on, for Individual ids of
   instance 1, universe 1 to 5 and a zero top nibble, and for no other id.
   */
  lemma TextRoundTripIff(s: Id)
    ensures NewId(Text(s)) == Ok(s) <==> GetAccountType(s) >= 2 || Plain(s)
  {
    if GetAccountType(s) >= 2 {
      ReadDecimal(s);
    } else {
      ReadSteamId(s);
      UniverseBits(s);
      UpToFive(GetAccountUniverse(s));
      IndividualIff(s, NewId(Text(s)));
    }
  }

  lemma ReadDecimal(s: Id)
    requires GetAccountType(s) >= 2
    ensures NewId(Text(s)) == Ok(s)
  {
    NoMatchInDecimal(s as int);
    Back64(s);
    ParseDecimal(s as int, TWO64 - 1);
  }

  lemma IndividualIff(s: Id, read: Outcome<Id>)
    requires read == if GetAccountUniverse(s) > 5 then Err
                     else Ok(NewIdAdv(GetAccountId(s), 1,
                                      if GetAccountUniverse(s) == 0 then 1 else GetAccountUniverse(s), 1))
    ensures read == Ok(s) <==> Plain(s)
  {
    PlainIff(s, if GetAccountUniverse(s) == 0 then 1 else GetAccountUniverse(s));
  }

  lemma UpToFive(u: bv64)
    ensures u as int > 5 <==> u > 5
  {}
}
