/** tcpConnection: length-prefixed frames over a byte stream, encrypted once a key is set. */
module Transport {
  import opened Basics
  import opened Crypto

  const MAGIC: int := 0x3130_5456

  /** The bytes that follow a frame's header. */
  ghost function Payload(key: Option<Cipher>, iv: seq<byte>, m: seq<byte>): seq<byte>
    requires GoodKey(key) && |iv| == 16
  {
    match key
    case None => m
    case Some(c) => Encrypted(c, iv, m)
  }

  ghost predicate GoodKey(key: Option<Cipher>) { key.Some? ==> IsCipher(key.value) }

  /** The length is written as a uint32. */
  function Frame(payload: seq<byte>): (f: seq<byte>)
    ensures |f| == 8 + |payload|
  {
    LE(|payload| % TWO32, 4) + LE(MAGIC, 4) + payload
  }

  /** The bytes a frame's payload stands for; decryption may panic. */
  ghost function Unwrapped(key: Option<Cipher>, payload: seq<byte>): Outcome<seq<byte>>
    requires GoodKey(key)
  {
    match key
    case None => Ok(payload)
    case Some(c) => Decrypted(c, payload)
  }

  /** Read up to its call of NewPacket: the buffer it hands over. */
  ghost function ReadFrame(key: Option<Cipher>, s: seq<byte>): Outcome<seq<byte>>
    requires GoodKey(key)
  {
    if |s| < 8 || UnLE(s[4..8]) != MAGIC then Err else
      var n := UnLE(s[..4]);
      if |s| < 8 + n then Err else Unwrapped(key, s[8..8 + n])
  }

  /** What Read leaves in the stream: a short read takes all there is. */
  function LeftAfter(s: seq<byte>): (rest: seq<byte>)
    ensures s != [] ==> |rest| < |s|
  {
    if |s| < 8 then [] else if UnLE(s[4..8]) != MAGIC then s[8..] else
      var n := UnLE(s[..4]);
      if |s| < 8 + n then [] else s[8 + n..]
  }

  // ----- one frame -----

  lemma UnwrapsPayload(key: Option<Cipher>, iv: seq<byte>, m: seq<byte>)
    requires GoodKey(key) && |iv| == 16
    ensures Unwrapped(key, Payload(key, iv, m)) == Ok(m)
  {
    if key.Some? { DecryptEncrypt(key.value, iv, m); }
  }

  lemma FrameParts(payload: seq<byte>, rest: seq<byte>)
    ensures var s := Frame(payload) + rest;
            UnLE(s[4..8]) == MAGIC && UnLE(s[..4]) == |payload| % TWO32 && s[8..] == payload + rest
  {
    Pow256Values();
    var s := Frame(payload) + rest;
    UnLELE(|payload| % TWO32, 4);
    UnLELE(MAGIC, 4);
    assert s[..4] == LE(|payload| % TWO32, 4) && s[4..8] == LE(MAGIC, 4);
  }

  /** The three parts of a stream, as they are taken one after the other. */
  lemma Parts(s: seq<byte>, n: nat)
    requires 8 + n <= |s|
    ensures s[4..][..4] == s[4..8] && s[4..][4..] == s[8..]
    ensures s[8..][..n] == s[8..8 + n] && s[8..][n..] == s[8 + n..]
  {}

  /** Reading a frame of any payload: a length that does not fit 32 bits leaves part of the payload behind. */
  lemma ReadsPayload(key: Option<Cipher>, p: seq<byte>, rest: seq<byte>)
    requires GoodKey(key)
    ensures var s := Frame(p) + rest;
            (|p| < TWO32 ==> ReadFrame(key, s) == Unwrapped(key, p)) && (LeftAfter(s) == rest <==> |p| < TWO32)
  {
    FrameParts(p, rest);
    var s := Frame(p) + rest;
    LengthKept(|p|);
    Parts(s, |p| % TWO32);
    if |p| < TWO32 {
      Halves(p, rest);
    } else {
      assert |LeftAfter(s)| == |p| - |p| % TWO32 + |rest|;
    }
  }

  lemma LengthKept(n: nat)
    ensures n % TWO32 <= n && (n % TWO32 == n <==> n < TWO32)
  {}

  /**
   A frame, whatever follows it, is read back exactly when its payload's length fits the 32 bits it is
   written in.
   */
  lemma FrameRoundTrip(key: Option<Cipher>, iv: seq<byte>, m: seq<byte>, rest: seq<byte>)
    requires GoodKey(key) && |iv| == 16
    ensures var p := Payload(key, iv, m); var s := Frame(p) + rest;
            ReadFrame(key, s) == Ok(m) && LeftAfter(s) == rest <==> |p| < TWO32
  {
    ReadsPayload(key, Payload(key, iv, m), rest);
    UnwrapsPayload(key, iv, m);
  }

  /** No strict prefix of a frame is taken for a frame. */
  lemma CutFrame(key: Option<Cipher>, payload: seq<byte>, k: nat)
    requires GoodKey(key) && |payload| < TWO32 && k < 8 + |payload|
    ensures ReadFrame(key, Frame(payload)[..k]) == Err && LeftAfter(Frame(payload)[..k]) == []
  {
    if k >= 8 {
      var f := Frame(payload);
      FrameParts(payload, []);
      LengthKept(|payload|);
      assert f + [] == f;
      CutParts(f, k);
    }
  }

  lemma CutParts(f: seq<byte>, k: nat)
    requires 8 <= k <= |f|
    ensures f[..k][..4] == f[..4] && f[..k][4..8] == f[4..8]
  {}

  // ----- whole streams, for any way of reading frames -----

  /** What frame i of a stream is read as, and what reading it leaves. */
  datatype Reader = Reader(read: (nat, seq<byte>) -> Outcome<seq<byte>>, left: seq<byte> -> seq<byte>)

  predicate Consumes(rd: Reader, i: nat, s: seq<byte>) { rd.read(i, s).Ok? ==> |rd.left(s)| < |s| }

  ghost predicate IsReader(rd: Reader) { forall i, s :: Consumes(rd, i, s) }

  predicate ReadsBefore(rd: Reader, i: nat, f: seq<byte>, m: seq<byte>, rest: seq<byte>) {
    rd.read(i, f + rest) == Ok(m) && rd.left(f + rest) == rest
  }

  predicate RejectsPrefix(rd: Reader, i: nat, f: seq<byte>, k: nat) {
    k < |f| ==> rd.read(i, f[..k]) == Err
  }

  /** f is read as m whatever follows it, and no strict prefix of f is read as anything. */
  ghost predicate ReadsAs(rd: Reader, i: nat, f: seq<byte>, m: seq<byte>) {
    |f| > 0 && (forall rest :: ReadsBefore(rd, i, f, m, rest)) && (forall k: nat :: RejectsPrefix(rd, i, f, k))
  }

  /** Reading until the first failure: the buffers, and how it ended. */
  ghost function ReadAll(rd: Reader, i: nat, s: seq<byte>): (r: (seq<seq<byte>>, Outcome<()>))
    requires IsReader(rd)
    ensures !r.1.Ok?
    decreases |s|
  {
    assert Consumes(rd, i, s);
    match rd.read(i, s)
    case Panic => ([], Panic)
    case Err => ([], Err)
    case Ok(buf) => var (bufs, end) := ReadAll(rd, i + 1, rd.left(s)); ([buf] + bufs, end)
  }

  /** How many of the frames lie wholly in the first k bytes. */
  function Whole(frames: seq<seq<byte>>, k: nat): (n: nat)
    ensures n <= |frames|
  {
    if frames == [] || k < |frames[0]| then 0 else 1 + Whole(frames[1..], k - |frames[0]|)
  }

  /** That is the greatest count of leading frames that fit into the first k bytes. */
  lemma {:induction false} WholeIsGreatest(frames: seq<seq<byte>>, k: nat, n: nat)
    requires n <= |frames|
    ensures n <= Whole(frames, k) <==> |Flatten(frames[..n])| <= k
  {
    if n > 0 {
      assert frames[..n][1..] == frames[1..][..n - 1] && frames[..n][0] == frames[0];
      if k >= |frames[0]| {
        WholeIsGreatest(frames[1..], k - |frames[0]|, n - 1);
      }
    }
  }

  /** Frames that are read as these messages, from frame i on, with nothing behind them. */
  ghost predicate StreamOf(rd: Reader, i: nat, frames: seq<seq<byte>>, msgs: seq<seq<byte>>) {
    && |frames| == |msgs|
    && (forall j | 0 <= j < |frames| :: ReadsAs(rd, i + j, frames[j], msgs[j]))
    && rd.read(i + |frames|, []) == Err
  }

  lemma TailStream(rd: Reader, i: nat, frames: seq<seq<byte>>, msgs: seq<seq<byte>>)
    requires StreamOf(rd, i, frames, msgs) && frames != []
    ensures ReadsAs(rd, i, frames[0], msgs[0]) && StreamOf(rd, i + 1, frames[1..], msgs[1..])
  {
    assert ReadsAs(rd, i + 0, frames[0], msgs[0]);
    forall j | 0 <= j < |frames| - 1 ensures ReadsAs(rd, i + 1 + j, frames[1..][j], msgs[1..][j]) {
      assert ReadsAs(rd, i + (j + 1), frames[j + 1], msgs[j + 1]);
    }
  }

  /** A stream of frames cut after k bytes yields exactly the messages whose frames lie before the cut. */
  lemma {:induction false} CutStream(rd: Reader, i: nat, frames: seq<seq<byte>>, msgs: seq<seq<byte>>, k: nat)
    requires IsReader(rd) && StreamOf(rd, i, frames, msgs) && k <= |Flatten(frames)|
    ensures ReadAll(rd, i, Flatten(frames)[..k]) == (msgs[..Whole(frames, k)], Err)
    decreases |frames|
  {
    if frames == [] {
      assert Flatten(frames)[..k] == [] && i + |frames| == i;
    } else {
      var f, rest := frames[0], Flatten(frames[1..]);
      TailStream(rd, i, frames, msgs);
      if k < |f| {
        assert RejectsPrefix(rd, i, f, k);
        assert Flatten(frames)[..k] == f[..k];
      } else {
        CutStream(rd, i + 1, frames[1..], msgs[1..], k - |f|);
        assert Flatten(frames)[..k] == f + rest[..k - |f|];
        assert ReadsBefore(rd, i, f, msgs[0], rest[..k - |f|]);
        var n := Whole(frames[1..], k - |f|);
        assert msgs[..n + 1] == [msgs[0]] + msgs[1..][..n];
      }
    }
  }

  lemma {:induction false} WholeOfAll(frames: seq<seq<byte>>)
    ensures Whole(frames, |Flatten(frames)|) == |frames|
  {
    if frames != [] { WholeOfAll(frames[1..]); }
  }

  // ----- the streams tcpConnection writes -----

  /** One call of Write: the key in force, the random IV and the message. */
  datatype Item = Item(key: Option<Cipher>, iv: seq<byte>, m: seq<byte>)

  ghost predicate GoodItem(it: Item) { GoodKey(it.key) && |it.iv| == 16 }

  ghost function ItemFrame(it: Item): seq<byte>
    requires GoodItem(it)
  {
    Frame(Payload(it.key, it.iv, it.m))
  }

  ghost function Frames(items: seq<Item>): (frames: seq<seq<byte>>)
    requires forall it | it in items :: GoodItem(it)
    ensures |frames| == |items|
  {
    seq(|items|, i requires 0 <= i < |items| => ItemFrame(items[i]))
  }

  function Messages(items: seq<Item>): (ms: seq<seq<byte>>)
    ensures |ms| == |items|
  {
    seq(|items|, i requires 0 <= i < |items| => items[i].m)
  }

  ghost predicate GoodKeys(keys: nat -> Option<Cipher>) { forall i: nat :: GoodKey(keys(i)) }

  /** tcpConnection.Read with the key keys(i) in force at frame i. */
  ghost function TcpReader(keys: nat -> Option<Cipher>): Reader
    requires GoodKeys(keys)
  {
    Reader((i: nat, s: seq<byte>) => if GoodKey(keys(i)) then ReadFrame(keys(i), s) else Err, LeftAfter)
  }

  lemma TcpReaderConsumes(keys: nat -> Option<Cipher>)
    requires GoodKeys(keys)
    ensures IsReader(TcpReader(keys)) && forall i: nat :: TcpReader(keys).read(i, []) == Err
  {
    forall i: nat, s ensures Consumes(TcpReader(keys), i, s) {}
  }

  ghost predicate Fits(it: Item)
    requires GoodItem(it)
  {
    |Payload(it.key, it.iv, it.m)| < TWO32
  }

  lemma TcpReadsFrame(keys: nat -> Option<Cipher>, i: nat, it: Item)
    requires GoodKeys(keys) && GoodItem(it) && Fits(it) && it.key == keys(i)
    ensures ReadsAs(TcpReader(keys), i, ItemFrame(it), it.m)
  {
    var rd := TcpReader(keys);
    var p := Payload(it.key, it.iv, it.m);
    forall rest ensures ReadsBefore(rd, i, ItemFrame(it), it.m, rest) {
      FrameRoundTrip(it.key, it.iv, it.m, rest);
    }
    forall k: nat ensures RejectsPrefix(rd, i, ItemFrame(it), k) {
      if k < 8 + |p| { CutFrame(it.key, p, k); }
    }
  }

  /** Every frame is written under the key that is in force when it is read, and its length fits 32 bits. */
  ghost predicate SameKeys(keys: nat -> Option<Cipher>, items: seq<Item>) {
    && GoodKeys(keys)
    && (forall it | it in items :: GoodItem(it))
    && (forall j | 0 <= j < |items| :: Fits(items[j]) && items[j].key == keys(j))
  }

  lemma TcpStreamOf(keys: nat -> Option<Cipher>, items: seq<Item>)
    requires SameKeys(keys, items)
    ensures IsReader(TcpReader(keys)) && StreamOf(TcpReader(keys), 0, Frames(items), Messages(items))
  {
    TcpReaderConsumes(keys);
    forall j | 0 <= j < |items| ensures ReadsAs(TcpReader(keys), 0 + j, Frames(items)[j], Messages(items)[j]) {
      TcpReadsFrame(keys, j, items[j]);
    }
  }

  /**
   What Write put into the stream, cut after any number k of bytes, is read back in order as exactly the
   messages whose frames lie wholly before the cut; reading then ends in an error, never in a panic.
   */
  lemma CutTcpStream(keys: nat -> Option<Cipher>, items: seq<Item>, k: nat)
    requires SameKeys(keys, items)
    ensures IsReader(TcpReader(keys))
    ensures var s := Flatten(Frames(items)); k <= |s| ==>
            ReadAll(TcpReader(keys), 0, s[..k]) == (Messages(items)[..Whole(Frames(items), k)], Err)
  {
    TcpStreamOf(keys, items);
    if k <= |Flatten(Frames(items))| {
      CutStream(TcpReader(keys), 0, Frames(items), Messages(items), k);
    }
  }

  /** Everything written is read back, in order. */
  lemma AllRecovered(keys: nat -> Option<Cipher>, items: seq<Item>)
    requires SameKeys(keys, items)
    ensures IsReader(TcpReader(keys))
    ensures ReadAll(TcpReader(keys), 0, Flatten(Frames(items))) == (Messages(items), Err)
  {
    var s := Flatten(Frames(items));
    CutTcpStream(keys, items, |s|);
    WholeOfAll(Frames(items));
    assert s[..|s|] == s && Messages(items)[..|items|] == Messages(items);
  }

  // ----- the connection -----

  lemma MagicBytes()
    ensures LE(MAGIC, 4) == [0x56, 0x54, 0x30, 0x31]
  {
    Pow256Values();
    LEByte(MAGIC, 4, 0);
    LEByte(MAGIC, 4, 1);
    LEByte(MAGIC, 4, 2);
    LEByte(MAGIC, 4, 3);
  }

  lemma MagicIff(b: seq<byte>)
    requires |b| == 4
    ensures UnLE(b) == MAGIC <==> b == [0x56, 0x54, 0x30, 0x31]
  {
    Pow256Values();
    MagicBytes();
    LEUnLE(b);
    UnLELE(MAGIC, 4);
  }

  ghost predicate MakesCipher(aes: seq<byte> -> Cipher, key: seq<byte>) { |key| == 32 ==> IsCipher(aes(key)) }

  ghost predicate GoodAes(aes: seq<byte> -> Cipher) { forall key :: MakesCipher(aes, key) }

  lemma FramesAppend(before: seq<byte>, items: seq<Item>, it: Item, payload: seq<byte>, after: seq<byte>)
    requires (forall it | it in items :: GoodItem(it)) && GoodItem(it)
    requires payload == Payload(it.key, it.iv, it.m) && before == Flatten(Frames(items))
    requires after == before + LE(|payload| % TWO32, 4) + LE(MAGIC, 4) + payload
    ensures after == Flatten(Frames(items + [it]))
  {
    FrameWritten(before, payload, after);
    FlattenOne(Frames(items), ItemFrame(it));
    FramesOne(items, it);
  }

  lemma FrameWritten(before: seq<byte>, payload: seq<byte>, after: seq<byte>)
    requires after == before + LE(|payload| % TWO32, 4) + LE(MAGIC, 4) + payload
    ensures after == before + Frame(payload)
  {}

  lemma FramesOne(items: seq<Item>, it: Item)
    requires (forall it | it in items :: GoodItem(it)) && GoodItem(it)
    ensures Frames(items + [it]) == Frames(items) + [ItemFrame(it)]
  {
    assert |Frames(items + [it])| == |items| + 1;
    forall j | 0 <= j < |items| + 1 ensures Frames(items + [it])[j] == (Frames(items) + [ItemFrame(it)])[j] {}
  }

  /** What is in the socket's two directions, and the cipher. */
  class TcpConnection {
    const aes: seq<byte> -> Cipher  // aes.NewCipher
    var ciph: Option<Cipher>
    var incoming: seq<byte>
    var outgoing: seq<byte>
    ghost var written: seq<Item>  // the calls of Write so far

    ghost predicate Valid()
      reads this
    {
      GoodAes(aes) && GoodKey(ciph) && (forall it | it in written :: GoodItem(it))
      && outgoing == Flatten(Frames(written))
    }

    constructor (aes: seq<byte> -> Cipher, incoming: seq<byte>)
      requires GoodAes(aes)
      ensures Valid() && this.aes == aes && ciph == None && this.incoming == incoming && written == []
    {
      this.aes := aes;
      this.ciph, this.incoming, outgoing, written := None, incoming, [], [];
    }

    /** The key makes the cipher; a nil key turns encryption off, one of another length than 32 panics. */
    method SetEncryptionKey(key: Option<seq<byte>>) returns (panicked: bool)
      requires Valid()
      modifies this`ciph
      ensures Valid() && (panicked <==> key.Some? && |key.value| != 32)
      ensures ciph == if panicked then old(ciph) else if key.Some? then Some(aes(key.value)) else None
    {
      panicked := false;
      if key.None? {
        ciph := None;
      } else if |key.value| != 32 {
        panicked := true;
      } else {
        assert MakesCipher(aes, key.value);
        ciph := Some(aes(key.value));
      }
    }

    /** Length, the letters VT01, and the message itself or its ciphertext. */
    method Write(message: array<byte>, iv: array<byte>) returns (ghost sent: seq<byte>, ghost padded: seq<byte>)
      requires Valid() && iv.Length == 16
      modifies this`outgoing, this`written
      ensures Valid() && written == old(written) + [Item(ciph, iv[..], message[..])]
      ensures outgoing == old(outgoing) + LE(|sent| % TWO32, 4) + [0x56, 0x54, 0x30, 0x31] + sent
      ensures ciph.None? ==> sent == message[..]
      ensures ciph.Some? ==> IsPadded(padded, message[..]) && IsCiphertext(ciph.value, iv[..], padded, sent)
    {
      ghost var it := Item(ciph, iv[..], message[..]);
      var payload;
      payload, padded := Encipher(message, iv);
      sent := payload;
      MagicBytes();
      outgoing := outgoing + LE(|payload| % TWO32, 4);
      outgoing := outgoing + LE(MAGIC, 4);
      outgoing := outgoing + payload;
      FramesAppend(old(outgoing), written, it, payload, outgoing);
      written := written + [it];
    }

    method Encipher(message: array<byte>, iv: array<byte>) returns (payload: seq<byte>, ghost padded: seq<byte>)
      requires GoodKey(ciph) && iv.Length == 16
      ensures payload == Payload(ciph, iv[..], message[..])
      ensures ciph.Some? ==> IsPadded(padded, message[..]) && IsCiphertext(ciph.value, iv[..], padded, payload)
    {
      if ciph.None? { return message[..], []; }
      var encrypted;
      encrypted, padded := SymmetricEncrypt(ciph.value, message, iv);
      payload := encrypted[..];
    }

    /** binary.Read and io.ReadFull: n bytes, or all there are and an error. */
    method Take(n: nat) returns (r: Option<seq<byte>>)
      modifies this`incoming
      ensures |old(incoming)| < n ==> r == None && incoming == []
      ensures |old(incoming)| >= n ==> r == Some(old(incoming)[..n]) && incoming == old(incoming)[n..]
    {
      if |incoming| < n {
        r, incoming := None, [];
      } else {
        r, incoming := Some(incoming[..n]), incoming[n..];
      }
    }

    method ReadBuffer() returns (r: Outcome<seq<byte>>)
      requires Valid()
      modifies this`incoming
      ensures Valid() && r == ReadFrame(ciph, old(incoming)) && incoming == LeftAfter(old(incoming))
      ensures var s := old(incoming);
              if |s| < 8 || s[4..8] != [0x56, 0x54, 0x30, 0x31] || |s| < 8 + UnLE(s[..4]) then r == Err
              else
                var n := UnLE(s[..4]);
                && incoming == s[8 + n..]
                && r == match ciph case None => Ok(s[8..8 + n]) case Some(c) => Decrypted(c, s[8..8 + n])
    {
      if |incoming| >= 8 { MagicIff(incoming[4..8]); }
      ghost var s := incoming;
      var len := Take(4);
      if len.None? { return Err; }
      var magic := Take(4);
      if magic.None? { return Err; }
      Parts(s, 0);
      if UnLE(magic.value) != MAGIC { return Err; }
      ghost var n := UnLE(len.value);
      var payload := Take(UnLE(len.value));
      if payload.None? { return Err; }
      Parts(s, n);
      r := Decipher(payload.value);
    }

    method Decipher(payload: seq<byte>) returns (r: Outcome<seq<byte>>)
      requires GoodKey(ciph)
      ensures r == Unwrapped(ciph, payload)
    {
      if ciph.None? { return Ok(payload); }
      var buf := new byte[|payload|](i requires 0 <= i < |payload| => payload[i]);
      assert buf[..] == payload;
      r := SymmetricDecrypt(ciph.value, buf);
    }
  }
}
