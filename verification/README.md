# go-steam-ws, modelled and proved

This project models the self-contained cores of go-steam-ws, a client library for the Steam network, and
proves what they promise: the compiler that turns message descriptions into serialisers, the messages and the
packet demultiplexer built on it, the encrypted framing, the correlation of service calls, the client's
connection life cycle, the unpacking of nested packets, the state folded from trade, notification and social
packets, and three small codecs.

| files | what they model |
|---|---|
| `Basics.dfy` | results, bytes, little-endian numbers |
| `Schema.dfy`, `Compiler.dfy`, `Machine.dfy`, `SerializerProof.dfy`, `DeserializerProof.dfy` | SteamLanguage classes, the two emitters of the Go generator, what the emitted statements do, and that the two programs are inverse |
| `Headers.dfy`, `Packets.dfy`, `GameCoordinator.dfy`, `Layout.dfy` | the five message headers as instances, the outgoing messages, the demultiplexers, and all of them byte by byte |
| `Dispatch.dfy`, `ClientEnv.dfy` | `handlePacket` and `handleMulti`, and their instance with the real demultiplexer |
| `Crypto.dfy`, `Transport.dfy` | in-place symmetric encryption, and the framed byte stream over it |
| `Authentication.dfy` | service calls and their answers as interleaved steps |
| `Lifecycle.dfy`, `WriteLoop.dfy`, `EndToEnd.dfy` | `conn`, `writeChan` and the mutex as interleaved steps; the write loop of one session, and what reaches its peer |
| `Trade.dfy`, `TradeEvents.dfy`, `Notifications.dfy`, `SocialCache.dfy`, `Rwu.dfy`, `ChatPayload.dfy`, `Social.dfy`, `SocialHistory.dfy` | state folded from logs, and the binary payloads of the chat packets |
| `SteamId.dfy`, `QuotedWriter.dfy`, `Totp.dfy` | codecs |

Code that changes state in the repository is a class or a method here, proved against a function of the
inputs or of the whole history; what is promised is then proved about that function. Concurrent code is a
step function on a state, one step for what one goroutine does between two points where another may run, and
the theorems are about every sequence of steps. Protobuf marshalling, the block cipher, gzip and what a
message says in a protobuf body are parameters: any functions with the inverse or length facts that the
lemmas name.

## What the proofs found

- **Masked types.** A class comes back with every masked field below 2^31 as it was; from 2^31 on the top
  bit is lost, so `RoundTrip` is an equivalence.
- **Any bytes.** What `NewPacket` makes of every byte string is stated by its bytes alone (`ReadsNothing`,
  `ReadsPlain`, `ReadsExtended`, `ReadsAnyProtobuf`): it panics exactly where a protobuf header announces a
  negative length.
- **Sub-packets can grow.** `handleMulti` reads a length and fills what the input lacks with zeros, so a
  sub-packet may be longer than the payload it was cut from (`BufferMayGrow`); it is shorter exactly if the
  announced length is (`ShorterIff`). What shrinks, and makes the recursion end, is the length without
  trailing zeros. Dispatching comes to its end, under a bound on compressed nesting, if and only if a tree
  within the bound describes the packet, and then in post-order of the tree (`PostOrderIff`); under no
  bound at all it fails to end only where no tree describes it (`EndsIff`).
- **The connect window.** `conn` and `writeChan` are assigned without the mutex. A `Write` or `Disconnect`
  between the two assignments meets the old closed channel and panics, or, on a first connect, a nil channel.
  Outside that window nothing panics (`CrashIff`), and the window is reached (`WindowIsReached`).
- **Job ids wrap.** Every run with at most n ids handed out correlates exactly if and only if n is at most
  2^64 (`CorrelationIff`); with one more the answer to one call is returned by another (`IdsWrap`). In any
  run the pending map stays exact if and only if no id is inserted while a live call holds it
  (`AlwaysExactIff`).
- **The log position falls back.** A non-empty status without a fresh entry of the partner's resets the
  position to 1 (`ResetQueuesTwice`). "Each due entry queued exactly once" holds after every batch if and
  only if every batch is harmless (`EveryEntryOnce`), and an entry is queued twice if and only if a harmful
  batch is followed by one that holds anything (`NothingTwiceIff`).
- **Readiness can depend on map order**, exactly when a batch holds a fresh Ready and a fresh Unready
  (`ReadyDependsOnOrderIff`).
- **Relationships go stale.** `Add` does nothing for a cached id, so a relationship stays the one the id was
  inserted with (`FriendSince`): listed with one and then with another, an id keeps the first
  (`RelationshipGoesStale`), and the stored one is the last listed one if and only if that is the one it was
  inserted with (`RelationshipCurrentIff`).
- **A group is found under its chat's id** exactly if the clan's id has instance 0 (`ChatFindsClanIff`).
- **Text form of an id.** `NewId` gives back what `String` wrote for the account types from 2 on and for
  Individual ids of instance 1, universe 1 to 5 and zero top bits, and for no other id (`TextRoundTripIff`).

## Model

| member | source | states |
|---|---|---|
| `Schema.NumRoundTrip` | generator/GoSteamLanguageGenerator/GoGen.cs:15-24 | every value of every mapped Go number type, signed ones included, is what its little-endian bytes are read as |
| `Schema.NumsRoundTrip` | generator/GoSteamLanguageGenerator/GoGen.cs:463-468 | an array field of declared length is read back element by element |
| `Schema.NumByte` | generator/GoSteamLanguageGenerator/GoGen.cs:374-407 | byte k of a number on the wire, negative ones included, is floor(v / 256^k) modulo 256: least significant byte first |
| `Basics.UnLEByte` | protocol/packet.go:24-27 | byte k of a number that was read counts its multiples of 256^k |
| `Compiler.EmitClassSerializer` | generator/GoSteamLanguageGenerator/GoGen.cs:351-410 | the emitter's two loops, buffer numbering and missing last check produce the specified program for every class |
| `Compiler.EmitMarshals` | generator/GoSteamLanguageGenerator/GoGen.cs:358-373 | every proto field gets a buffer of its own, numbered in order, and its length assignment |
| `Compiler.EmitClassDeserializer` | generator/GoSteamLanguageGenerator/GoGen.cs:412-489 | the emitter's loop with its running temporaries produces the specified program for every class |
| `Compiler.EmitReads` | generator/GoSteamLanguageGenerator/GoGen.cs:419-485 | the statements of one field, by its flag and type, and how many temporaries they use |
| `SerializerProof.SerializeCorrect` | generator/GoSteamLanguageGenerator/GoGen.cs:351-410 | for every well-formed class and typed object the emitted serialiser succeeds, writes the fields' bytes in order and changes nothing but the length fields, which end as the marshalled lengths |
| `SerializerProof.SerializeFails` | generator/GoSteamLanguageGenerator/GoGen.cs:362-363 | if some proto field does not marshal, the serialiser returns an error |
| `SerializerProof.PrologueRuns` | generator/GoSteamLanguageGenerator/GoGen.cs:358-373 | after the marshalling part every buffer holds its own field's bytes and every length field its buffer's length |
| `SerializerProof.WritesRun` | generator/GoSteamLanguageGenerator/GoGen.cs:374-407 | the writing part appends exactly the fields' bytes, for whatever was written before |
| `Layout.FieldsInOrder` | generator/GoSteamLanguageGenerator/GoGen.cs:351-410 | for every well-formed class: what the emitted serialiser writes is the fields in the order of their declaration, numbers in two's complement with the least significant byte first, masked types with the top bit set, bools as 1 or 0, messages as they marshal; only the length fields change |
| `DeserializerProof.DeserializeEncoded` | generator/GoSteamLanguageGenerator/GoGen.cs:412-489 | the emitted deserialiser on an encoding followed by any bytes recovers every field and leaves exactly those bytes |
| `DeserializerProof.RoundTrip` | generator/GoSteamLanguageGenerator/GoGen.cs:351-489 | for every well-formed class, object and tail, serialising then deserialising gives the object back and leaves the tail, exactly when the masked fields are below 2^31 |
| `DeserializerProof.PrefixRejected` | generator/GoSteamLanguageGenerator/GoGen.cs:412-489 | on any strict prefix of an encoding the deserialiser returns an error |
| `DeserializerProof.ReadsRun` | generator/GoSteamLanguageGenerator/GoGen.cs:417-485 | reading from any field on consumes exactly the remaining fields' bytes and keeps what was read before |
| `DeserializerProof.ShortReadsFail` | generator/GoSteamLanguageGenerator/GoGen.cs:417-485 | reading from any field on, with too few bytes, ends in an error and never in a panic |
| `DeserializerProof.OneMaskedRead` | generator/GoSteamLanguageGenerator/GoGen.cs:435-453 | a masked field is read as its value without the mask bit |
| `DeserializerProof.AnyProtoRead` | generator/GoSteamLanguageGenerator/GoGen.cs:454-461 | a proto field on any input: a negative length panics, a short input or a message that does not unmarshal is an error, otherwise the message is what the announced bytes unmarshal to |
| `DeserializerProof.OneProtoRead` | generator/GoSteamLanguageGenerator/GoGen.cs:454-461 | a proto field reads as many bytes as the length field says and unmarshals them |
| `Headers.PlainHeadersWellFormed` | protocol/steamlang/messages.go:236-289 | MsgHdr and MsgGCHdr meet the schema theorem's conditions |
| `Headers.ExtendedWellFormed` | protocol/steamlang/messages.go:290-375 | so does ExtendedClientMsgHdr |
| `Headers.ProtoHeadersWellFormed` | protocol/steamlang/messages.go:377-478 | so do the two protobuf headers, each with its length before its header |
| `Layout.MsgHdrLayout` | protocol/steamlang/messages.go:250-262 | type in four bytes, target and source job id in eight each |
| `Layout.ExtendedLayout` | protocol/steamlang/messages.go:301-333 | type, size, version, target and source job id, canary, SteamID and session id, in that order and in 4, 1, 2, 8, 8, 1, 8 and 4 bytes |
| `Layout.MsgGCHdrLayout` | protocol/steamlang/messages.go:489-501 | version in two bytes, target and source job id in eight each |
| `Layout.ProtoLayout` | protocol/steamlang/messages.go:384-401 | both protobuf headers: the type with its top bit set, the length of the marshalled header, the header |
| `Layout.PlainMsgBytes` | protocol/msg.go:211-222 | a serialised Msg, in terms of its type, job ids, body and payload |
| `Layout.ClientMsgBytes` | protocol/msg.go:158-169 | a serialised ClientMsg: type, 36, 2 in two bytes, job ids, 239, SteamID, session id, body, payload |
| `Layout.ProtobufBytes` | protocol/msg.go:88-99 | a serialised ClientMsgProtobuf: masked type, length, header, message |
| `Layout.ReadsNothing` | protocol/packet.go:23-28 | NewPacket on fewer than four bytes is an error |
| `Layout.ReadsPlain` | protocol/packet.go:29-44 | NewPacket on any bytes of a ChannelEncrypt kind: twenty are enough, with the job ids in bytes 4 to 19, fewer are an error |
| `Layout.ReadsExtended` | protocol/packet.go:59-73 | NewPacket on any bytes of an ordinary kind without the top bit: thirty-six are enough, with the job ids in bytes 7 to 22, fewer are an error |
| `Layout.ReadsAnyProtobuf` | protocol/packet.go:45-58 | NewPacket on any bytes of an ordinary kind with the top bit: kind and job ids of the header message in the announced bytes; an error if it is cut or does not unmarshal, a panic if its length is negative |
| `Packets.PlainHeaderRead` | protocol/packet.go:23-44 | NewPacket on a plain header of a ChannelEncrypt kind and any bytes behind it: type and both job ids |
| `Packets.ExtendedDemux` | protocol/packet.go:59-74 | NewPacket on an extended header of any other kind below 2^31: type and both job ids |
| `Packets.MsgRoundTrip` | protocol/msg.go:211-222 | a serialised Msg of a ChannelEncrypt kind is demultiplexed as such and ReadMsg returns its body and payload |
| `Packets.ClientMsgRoundTrip` | protocol/msg.go:158-169 | the same for ClientMsg and ReadClientMsg, for every other kind below 2^31 |
| `Packets.ClientMsgProtobufRoundTrip` | protocol/msg.go:88-99 | a ClientMsgProtobuf below 2^31 comes back with kind, job ids and message exactly when its kind is not one of the ChannelEncrypt kinds, which are read with a struct header |
| `Packets.ProtoDeserialized` | protocol/packet.go:45-58 | a protobuf header is read back whole, the message bytes are left |
| `Packets.ProtoSent` | protocol/steamlang/messages.go:384-401 | serialising a protobuf header sets the length and masks the type |
| `GameCoordinator.EnvelopeRoundTrip` | protocol/gamecoordinator/packet.go:22-54 | app id, message type, proto flag, target job id and body bytes of any GC message are recovered from its envelope exactly when its type is below 2^31 |
| `GameCoordinator.ProtoEnvelope` | gamecoordinator.go:52-73 | what is recovered of a protobuf GC message of any type |
| `Layout.StructEnvelopeBytes` | gamecoordinator.go:52-73 | the envelope of a struct message: type, application, and version 1, job ids and body as its payload |
| `Layout.ProtobufEnvelopeBytes` | gamecoordinator.go:52-73 | the envelope of a protobuf message: the type with its top bit set, twice, the length, the header and the message |
| `Layout.ReadsGCStruct` | protocol/gamecoordinator/packet.go:41-54 | NewGCPacket on any envelope without the top bit: target job id in bytes 2 to 9, body behind the eighteenth, a shorter payload is an error |
| `Layout.ReadsAnyGCProtobuf` | protocol/gamecoordinator/packet.go:28-40 | NewGCPacket on any envelope with the top bit, as for NewPacket |
| `GameCoordinator.EnvelopeThroughWire` | gamecoordinator.go:52-73 | the same through serialising, demultiplexing and reading the client message the envelope travels in |
| `Dispatch.NextItem` | client.go:398-403 | one turn of the loop consumes at least a byte, and four with the buffer it returns |
| `Dispatch.ItemBytes` | client.go:399-403 | the buffer is as long as four bytes announce, holds what follows them, and zeros where that ends; the rest is what is behind |
| `Dispatch.Items` | client.go:398-411 | the loop over n bytes runs at most n/4 times, rounded up |
| `Dispatch.ItemsOfPacked` | client.go:398-403 | length-prefixed buffers are unpacked as they were packed |
| `Dispatch.ItemShrinks` | client.go:398-403 | a sub-packet has fewer significant bytes than the payload it comes from, and so has the rest |
| `Dispatch.BufferMayGrow` | client.go:400-403 | four bytes of payload make a zero buffer of any announced length |
| `Dispatch.ShorterIff` | client.go:400-403 | a sub-packet is shorter than the payload it is cut from exactly if the announced length is |
| `Dispatch.Client.HandlePacket` | client.go:319-339 | what is added to the trace: a Multi's contents, the client's own handler, then every registered handler; unless it panicked the trace ends in one call for each registered handler, the k-th registered one the k-th |
| `Dispatch.Client.CallAll` | client.go:334-338 | the loop adds exactly one event for each registered handler, and for every k the k-th is the call of handler k with this packet |
| `Dispatch.Client.HandleMulti` | client.go:378-397 | its body is unpacked, after decompression if it is compressed |
| `Dispatch.Client.UnzipAndUnpack` | client.go:384-396 | a body that does not decompress is reported and skipped |
| `Dispatch.Client.UnpackPayload` | client.go:398-411 | one error for every sub-packet NewPacket rejects, and the later ones are still dispatched |
| `Dispatch.DispatchIsPostOrder` | client.go:319-411 | a packet whose nesting, compressed or not, is described by a tree gives the tree's post-order under any bound the tree keeps to: each sub-packet's whole trace in order, or the report that the body does not decompress, then the Multi itself |
| `Dispatch.PostOrderIs` | client.go:319-339 | what post-order is: the sub-packets' events one sub-packet after the other, an error for a rejected one, or the report of a damaged archive; then the own handler of the three kinds that have one; then each registered handler once, in order |
| `Dispatch.PostOrderIff` | client.go:319-411 | for every packet and bound: dispatching comes to its end if and only if a tree within the bound describes the packet, and the trace is then the post-order of every such tree |
| `Dispatch.EndsIff` | client.go:319-411 | some bound lets the dispatching of a packet come to its end if and only if some tree describes the packet |
| `ClientEnv.ClientDispatchesInPostOrder` | client.go:319-411 | both directions again with the real NewPacket and Multi body, which meet what the theorem assumes |
| `ClientEnv.MultiOfPackets` | client.go:398-411 | length-prefixed packets in a Multi, compressed or not: each one's handlers in order, then the Multi's |
| `Dispatch.DamagedMulti` | client.go:384-396 | a compressed Multi that does not decompress gives its report and then the registered handlers, in order |
| `Dispatch.BoundIrrelevant` | client.go:319-411 | a run that does not exceed the bound on compressed nesting is the same under any greater bound |
| `ClientEnv.ClientEnvSound` | protocol/packet.go:23-74 | NewPacket keeps the bytes it is given and a Multi body lies within its packet: what the dispatch theorems assume |
| `ClientEnv.InputShrinks` | protocol/packet.go:80-89 | whatever a deserialiser reads, what it leaves is the end of its input |
| `Crypto.EcbCryptBlocks` | cryptoutil/ecb.go:32-68 | both loops, on one aliased buffer or two: each block is replaced by its image and nothing else changes; partial blocks and too little room panic |
| `Crypto.EcbInverse` | cryptoutil/ecb.go:32-68 | ECB with inverse block functions undoes itself for any number of blocks |
| `Crypto.EcbThereAndBack` | cryptoutil/ecb.go:32-68 | the two loops one after the other on one buffer restore it |
| `Crypto.CbcBlock` | cryptoutil/cryptoutil.go:22-24 | every ciphertext block is the encryption of its plain block xored with the ciphertext before it |
| `Crypto.CbcDecByte` | cryptoutil/cryptoutil.go:34-36 | every decrypted byte, for any input: that of its block decrypted, combined with the byte sixteen before it or the IV's |
| `Crypto.CbcInverse` | cryptoutil/cryptoutil.go:34-36 | CBC decryption undoes CBC encryption for any number of blocks and any IV |
| `Crypto.CbcEncryptInPlace` | cryptoutil/cryptoutil.go:22-24 | in place behind the IV, the IV untouched |
| `Crypto.CbcDecryptInPlace` | cryptoutil/cryptoutil.go:34-36 | in place, although each block needs the ciphertext before it |
| `Crypto.UnpadPad` | cryptoutil/pkcs7.go:9-25 | the padding of every message is removed again |
| `Crypto.Padded` | cryptoutil/pkcs7.go:9-20 | whole blocks, between one and sixteen bytes added, every one of them saying how many |
| `Crypto.PadWithIV` | cryptoutil/pkcs7.go:9-20 | the loop leaves sixteen free bytes, the message and its padding, every byte of which is the number of bytes added |
| `Crypto.Encrypted` | cryptoutil/cryptoutil.go:11-27 | the ciphertext is 16 * (len/16 + 2) bytes |
| `Crypto.SymmetricEncrypt` | cryptoutil/cryptoutil.go:11-27 | the in-place steps compute the specified ciphertext: the IV encrypted on its own, then the blocks of the message and p bytes that all equal p, each combined with the ciphertext before it and encrypted; CBC decryption of it shows that padded message |
| `Crypto.SymmetricDecrypt` | cryptoutil/cryptoutil.go:30-38 | the in-place steps compute the specified plaintext, or panic on input that is not whole blocks or has no valid padding length |
| `Crypto.DecryptedIs` | cryptoutil/cryptoutil.go:30-38 | what the specified plaintext is for any input: the last decrypted byte says how many to drop; too few to drop, no second block or no whole blocks is a panic |
| `Crypto.DecryptEncrypt` | cryptoutil/cryptoutil.go:11-38 | for every invertible block function, IV and message, decryption gives the message back |
| `Crypto.XorMakesCipher` | cryptoutil/cryptoutil.go:22-36 | with exclusive or of bytes, a block function and its inverse make a cipher, and only inverses do |
| `Crypto.XorByteBit` | cryptoutil/cryptoutil.go:22-36 | each bit of it is set exactly if the two bits differ |
| `Transport.FrameRoundTrip` | connection.go:63-119 | a frame is read back, with whatever follows it left, exactly when its payload's length fits 32 bits |
| `Transport.CutFrame` | connection.go:63-88 | a strict prefix of a frame is an error |
| `Transport.CutStream` | connection.go:63-97 | reading any cut stream of frames yields exactly the messages whose frames lie before the cut |
| `Transport.WholeIsGreatest` | connection.go:63-97 | that count is the greatest number of leading frames that fit |
| `Transport.CutTcpStream` | connection.go:63-141 | what Write put into the stream, keys changing at the same frames on both sides, cut after any byte: the whole messages before the cut, in order, then an error, never a panic or part of a message |
| `Transport.AllRecovered` | connection.go:63-141 | every sequence of written messages is recovered exactly and in order |
| `Transport.TcpConnection.Write` | connection.go:101-119 | the outgoing stream is the frames of all calls so far, each under the key then in force; a call adds the length in four bytes, the letters VT01, and the message or its ciphertext |
| `Transport.TcpConnection.ReadBuffer` | connection.go:63-95 | the three reads, the test for VT01 and decryption: the buffer for NewPacket and what is left in the stream, or an error, for any bytes |
| `Transport.TcpConnection.SetEncryptionKey` | connection.go:125-141 | a key of another length than 32 panics; otherwise its cipher is in force from then on, and nil turns encryption off |
| `Authentication.SameIdIff` | client.go:127-129 | two ids are equal exactly when their places in the order of issue differ by a multiple of 2^64 |
| `Authentication.StepKeepsInv` | authentication.go:48-91 | every step keeps: channels hold only answers to their own call, the first one as long as it is unread; handlers hold the channel of the call their packet answers; entries lead to calls of their id |
| `Authentication.StepKeepsPendingIff` | authentication.go:69-77 | a step keeps the pending map exact if and only if it inserts no id that a live call holds |
| `Authentication.LookUpFinds` | authentication.go:54-57 | while the map is exact a lookup finds a call if and only if it is live and the response carries its id |
| `Authentication.OfferFinishes` | authentication.go:58-63 | an offer never blocks: the handler finishes whether the channel is full or not, an empty channel gets the packet, a full one keeps its own |
| `Authentication.HandlerFinishes` | authentication.go:50-64 | in any state a handler finishes in at most two steps of its own |
| `Authentication.AlwaysExactIff` | authentication.go:69-77 | along any run the map stays exact if and only if no id is inserted while a live call holds it |
| `Authentication.RunOffers` | authentication.go:48-91 | along any run with at most 2^64 ids a call is offered exactly the packets delivered for its id, in order |
| `Authentication.CallsGetTheirOwn` | authentication.go:48-91 | in every interleaving with at most 2^64 ids: a call returns only the first packet delivered under its own id, ids are distinct, and pending is exactly the calls between insert and delete |
| `Authentication.CorrelationIff` | authentication.go:48-91 | every run with at most n ids correlates like this if and only if n is at most 2^64 |
| `Authentication.LateSendStaysHome` | authentication.go:54-63 | a send that races with a timeout's delete still goes to the call its packet answers, for any number of ids |
| `Authentication.NoJobIsNobody` | authentication.go:54-57 | below 2^64-1 ids a response without a target job reaches nobody |
| `Authentication.IdsWrap` | client.go:127-129 | a run with 2^64+1 ids in which the answer to the first call is returned by the last |
| `Lifecycle.StepKeepsInv` | client.go:176-245 | every step keeps the mutex discipline, the link between conn and the channel, the balance of events and the channel's order |
| `Lifecycle.StepKeepsConn` | client.go:212-228 | the part about conn and the channel: nil exactly when closed or never made, but for the two gaps |
| `Lifecycle.StepKeepsBalance` | client.go:212-228 | the part about the DisconnectedEvents |
| `Lifecycle.StepKeepsChan` | client.go:185-245 | what is still queued is the last part of what was accepted, in order |
| `Lifecycle.ReceivedInOrder` | client.go:244-278 | a receive gets the first accepted message not yet received |
| `Lifecycle.AcceptsWhatIsSent` | client.go:239-244 | a step that takes a writer through its send appends exactly the message of that writer to what the channel accepted, no other step appends anything, and a writer that finds no connection ends without a send |
| `Lifecycle.AcceptedIsSent` | client.go:184-245 | over any run, the messages that all channels accepted are, counted one by one, those of the writers that have sent, and every writer is a call of Write with its message |
| `Lifecycle.AcceptedGrows` | client.go:244 | until a new channel is made, what was accepted earlier comes first |
| `Lifecycle.AtomicConnects` | client.go:176-245 | with connects taken as one step: no panic in any reachable state, conn nil exactly when the channel is closed or was never made, senders always face an open channel, DisconnectedEvents are the connections made but the open one |
| `Lifecycle.CrashIff` | client.go:184-185 | a step panics exactly when it falls between the two assignments and is a close, or a send on a channel that is not nil |
| `Lifecycle.BlockedIff` | authentication.go:97-104 | a checked sender is blocked exactly on a nil channel or one that holds five messages, and a nil one only between the assignments |
| `Lifecycle.SplitConnects` | client.go:184-228 | the same over every run with separate assignments |
| `Lifecycle.WindowPanics` | client.go:234-245 | any Write that comes in between the assignments of a reconnect can run to a panic |
| `Lifecycle.WindowIsReached` | client.go:176-191 | a run from the start leads into such a state |
| `WriteLoop.Writer.Loop` | client.go:266-296 | the connection gets the accepted messages in order, one frame each, up to the first failure, and the buffer is empty at every loop head and exit |
| `WriteLoop.HandedIff` | client.go:266-296 | message j is handed over exactly if the connection stood, its message serialised and nothing failed before |
| `EndToEnd.PeerReadsPrefix` | client.go:266-296 | through the write loop, encryption and framing, a peer reads a prefix of the accepted messages' serialisations, wherever the stream is cut |
| `EndToEnd.WriteFrames` | connection.go:101-119 | what the loop hands over is what the connection has written |
| `EndToEnd.PeerGetsAccepted` | client.go:234-296 | in any run of the client and whatever kinds of messages were written, a peer that reads the stream, cut anywhere, gets the bytes of the first messages the channel accepted, in order; from each it recovers kind, job ids, body and payload if the message is a protobuf one or a ClientMsg of an ordinary kind or a Msg of a ChannelEncrypt kind, its parts in range; and no message was accepted more often than writers have sent it, or sent more often than Write was called with it |
| `Trade.Trade.UpdateEvents` | trade/trade.go:75-118 | the loop over the map, in an order nobody chose, folds the fresh partner entries into queue, flag and position |
| `Trade.Trade.UpdateEvent` | trade/trade.go:81-115 | one entry: skipped if old or not the partner's, otherwise its event and readiness |
| `Trade.Trade.OnStatus` | trade/trade.go:44-73 | an unsuccessful status changes nothing; otherwise version, readiness, ending and entries |
| `Trade.StatusMeans` | trade/trade.go:44-118 | a successful status: version and own readiness are its own if it has a new version, the partner's readiness follows a Ready or an Unready alone, the position is one past the last entry of the partner, the ending is queued before the entries |
| `Trade.Trade.Action` | trade/actions.go:12-18 | a request's error is returned, an unsuccessful status is not |
| `Trade.Trade.Poll` | trade/actions.go:24-40 | a queue that is not empty is drained without a request; everything drained so far and the queue are all events ever queued, in order |
| `Trade.Trade.Events` | trade/trade.go:38-42 | drains the queue and keeps that account |
| `Trade.FoldQueue` | trade/trade.go:93-114 | the queue keeps what it had and gains one event for each handled fresh entry |
| `Trade.SourcesAre` | trade/trade.go:81-87 | each such entry of the map once, none other, whatever the order |
| `Trade.LogPosAfter` | trade/trade.go:80-117 | the position is one past the last fresh partner entry, or 1 if there is none |
| `Trade.ReadyDependsOnOrderIff` | trade/trade.go:98-103 | the partner's readiness depends on the order of iteration exactly when the batch holds a fresh Ready and a fresh Unready |
| `Trade.BatchKeepsExactlyOnceIff` | trade/trade.go:75-118 | a batch keeps "every due entry below the position queued exactly once" if and only if it is harmless: empty, with a fresh partner entry, or nothing due from 1 to the position |
| `Trade.EveryEntryOnce` | trade/trade.go:75-122 | over every run from a new trade, after every batch each due partner entry was queued exactly once if and only if every batch is harmless |
| `Trade.NothingTwiceIff` | trade/trade.go:75-122 | a run queues no entry twice if and only if no harmful batch is followed by one that holds anything |
| `Trade.TakesInIs` | trade/trade.go:44-118 | a successful status moves the trade's log position as the runs above do, and queues its ending and then the events of its handled entries |
| `Trade.HistoryIsRun` | trade/trade.go:44-118 | what a trade queued over a history of statuses is, but for the endings, the events of the entries its run over the log counts, in that order, and its position is the run's |
| `Trade.TradeQueuesOnce` | trade/trade.go:38-122 | a trade whose batches were all harmless has queued, drained or not, the events of each due entry below its log position exactly once, and besides only endings |
| `TradeEvents.ItemsQueued` | trade/trade.go:93-97 | over any history of a trade, an item was queued as added as often as the partner's entries taken in have action 0 and its three ids, and as removed as often as they have action 1 and those |
| `TradeEvents.SignalsQueued` | trade/trade.go:98-103 | Ready as often as they have action 2, Unready as often as action 3 |
| `TradeEvents.CurrenciesQueued` | trade/trade.go:104-109 | a currency change as often as they have action 6, its three ids, and the old and the new amount in their places |
| `TradeEvents.ChatsQueued` | trade/trade.go:110-113 | a chat message as often as they have action 7 and its text |
| `TradeEvents.EndingsAreQueued` | trade/trade.go:56-69 | each ending as often as a successful status had its code: 1, 3, 4 or 5 |
| `TradeEvents.QueuedOncePerEntry` | trade/trade.go:38-122 | if the batches of a log were all harmless, every event was queued exactly as often as the partner's log entries below the position stand for it, by action code and fields |
| `TradeEvents.ItemsOncePerEntry` | trade/trade.go:75-122 | so for the items added, by their three ids |
| `Trade.ResetQueuesTwice` | trade/trade.go:117 | three batches that queue one entry twice |
| `Notifications.Notifications.HandleClientUserNotifications` | notifications.go:36-62 | a packet emits its entries and a zero for each stored type it lacks; afterwards the types stored are the packet's, and replaying every event ever emitted on zero counts gives the map |
| `Notifications.Notifications.Store` | notifications.go:40-45 | the first loop, keeping that agreement |
| `Notifications.Notifications.ClearMissing` | notifications.go:47-61 | the second loop deletes from the map it iterates, in any order, exactly the types the packet lacks |
| `Notifications.StoredCounts` | notifications.go:40-45 | a stored count is the last one the packet gives its type |
| `Notifications.ReplayOf` | notifications.go:40-60 | what replaying does to a type that occurs and to one that does not |
| `SocialCache.FriendsList.Add` | socialcache/friends.go:27-34 | a new id is stored, a cached one left as it is |
| `SocialCache.ChatFindsClanIff` | socialcache/groups.go:55-63 | looking up the chat id of a clan always finds what the clan's id finds if and only if the clan's id has instance 0 |
| `SocialCache.ChatsList.AddChatMember` | socialcache/chats.go:44-56 | the member replaces one of the same id; an unknown chat is made |
| `SocialCache.ChatsList.RemoveChatMember` | socialcache/chats.go:59-70 | the member is gone, an unknown chat is not made |
| `SocialCache.SteamIdsNormal` | steamid/steamid.go:130-136 | SteamIDs are ids as the social theorems need them: ChatToClan leaves clan ids alone |
| `Rwu.Reader.ReadString` | rwu/rwu.go:63-75 | the bytes before the first zero, or all there are and an error |
| `Rwu.TextBefore` | rwu/rwu.go:63-75 | a zero-terminated text is read back with what follows it left |
| `ChatPayload.ReadChatMember` | social.go:537-549 | the ten reads of a member |
| `ChatPayload.EnterReadBack` | social.go:471-489 | the members a room's payload was written from are read back, for any texts and bytes around their numbers |
| `ChatPayload.ChangeReadBack` | social.go:507-519 | a member change is read back |
| `Social.Social.FindGroup` | socialcache/groups.go:55-63 | a group is found under a clan's id or its chat's exactly if the history of social packets left it cached, and carries the clan's id |
| `Social.Social.LogOn` | auth.go:201 | the client's own id, which persona states are compared with, is the last one set |
| `Social.Social.HandleFriendsList` | social.go:252-297 | the caches after a list are those of the history with its entries added |
| `Social.Social.HandlePersonaState` | social.go:299-371 | the same for persona states |
| `Social.Social.SeeFriend` | social.go:315-333 | which fields the status flags let through |
| `Social.Social.HandleClanState` | social.go:410-422 | the same for clan states |
| `Social.Social.HandleChatEnter` | social.go:471-489 | the same for entering a room, with the members read from the payload |
| `Social.Social.HandleChatMemberInfo` | social.go:502-523 | the same for members that come and go, as the payload says |
| `Social.CachedIff` | social.go:252-297 | after any history an id is cached as a friend exactly when the last entry naming it was not none and it is no clan, as a group exactly when it is one; every record carries its key |
| `Social.FriendSince` | social.go:303-333 | a friend's relationship is the one of the entry that inserted it, its name the last non-empty flagged one since that came while the id was not the client's own |
| `SocialHistory.FriendShows` | social.go:315-333 | presence, valid avatar and game of an Individual friend are the last that were announced since it was inserted |
| `Social.GroupSince` | social.go:334-422 | the same for a group, whose name also follows clan states under the clan's id or its chat's |
| `SocialHistory.GroupShows` | social.go:334-422 | a group's four counts are those of the last clan state that had any, its avatar the last of a clan state or the last valid one announced |
| `SocialHistory.OwnShows` | social.go:303-314 | the client's own name and avatar are the last shown under its own id, whatever the flags |
| `SocialHistory.FlagsAre` | social.go:316-329 | name, presence and game are announced by bits 1, 4 and 9 of the status flags |
| `Social.RelationshipCurrentIff` | socialcache/friends.go:27-34 | the stored relationship is the last listed one if and only if that is the one the id was inserted with |
| `Social.RelationshipGoesStale` | socialcache/friends.go:27-34 | two list entries that leave a stale relationship |
| `Social.InsertedSomewhere` | socialcache/friends.go:27-34 | every cached id has such an entry |
| `Social.MembersAre` | social.go:471-523 | a room's members are those whose last change was an addition, as it said |
| `Social.RoomsAre` | socialcache/chats.go:27-56 | a room is cached exactly if it was entered or added to, under its own id |
| `SocialHistory.RoomBelongs` | social.go:471-481 | a room belongs to the clan that the first packet about it named |
| `SocialHistory.WhoComesAndGoes` | social.go:502-523 | a member change as written: 1 adds the one it is about, with the permissions behind it, 2, 4, 8 and 16 remove it, any other does nothing |
| `SteamId.SetAccountIdFrame` | steamid/steamid.go:92-94 | the setter's field holds the value and every other bit is kept |
| `SteamId.SetAccountInstanceFrame` | steamid/steamid.go:100-102 | the same for the instance |
| `SteamId.SetAccountTypeFrame` | steamid/steamid.go:108-110 | the same for the type |
| `SteamId.SetAccountUniverseFrame` | steamid/steamid.go:116-118 | the same for the universe |
| `SteamId.RebuildIff` | steamid/steamid.go:48-55 | NewIdAdv of an id's fields is the id exactly when its top four bits are zero |
| `SteamId.ChatToClanToChat` | steamid/steamid.go:121-136 | ChatToClan after ClanToChat is the identity on a clan id exactly when its instance is 0 |
| `SteamId.ClanMakesChat` | steamid/steamid.go:121-127 | a clan's chat has type 8, the clan flag as its instance and the clan's other bits |
| `SteamId.ChatMakesClan` | steamid/steamid.go:130-136 | a chat's clan has type 7, instance 0 and the chat's other bits |
| `SteamId.AccountIdBase` | tradeoffer/tradeoffer.go:81 | adding the constant to an account id makes the public individual id, for every uint32 |
| `SteamId.ParseDecimal` | steamid/steamid.go:39-43 | a formatted number is parsed back |
| `SteamId.MatchHasParts` | steamid/steamid.go:22-34 | whatever string the unanchored expression matches, the three parts that are indexed exist |
| `SteamId.MatchesIff` | steamid/steamid.go:22 | a string matches if and only if it holds, between any two strings, STEAM_, a digit up to 5, a colon, 0 or 1, a colon and a digit |
| `SteamId.DecimalIds` | steamid/steamid.go:38-43 | any number in decimal is its id below 2^64 and an error from there on |
| `SteamId.ReadAnySteamText` | steamid/steamid.go:26-37 | any text of String's form is read, an account number over 2^32 - 1 as that |
| `SteamId.ReadSteamId` | steamid/steamid.go:65-78 | what the text of every id of types 0 and 1 is read as, or that it is rejected |
| `SteamId.TextRoundTripIff` | steamid/steamid.go:21-78 | NewId gives String's id back for all ids of types from 2 on and for the plain Individual ones, and for no other |
| `QuotedWriter.Writer.Write` | generator/generator.go:296-325 | over a sink that may fill up: the sink gets the marker and the quotation as far as there is room, n counts the input bytes it got, the error says something is missing; with no failure the output is the quotation of all input so far |
| `QuotedWriter.Writer.WriteLines` | generator/generator.go:305-324 | the loop, with the same account |
| `QuotedWriter.UnquoteQuoted` | generator/generator.go:286-325 | removing the markers recovers the input |
| `QuotedWriter.QuotedAppend` | generator/generator.go:296-325 | quoting depends only on the concatenation of what was written |
| `Totp.Start` | totp/totp.go:68-73 | the four-byte window lies within the twenty-byte hash |
| `Totp.TruncatedIs` | totp/totp.go:68-75 | the number is big-endian in the four bytes from the low nibble of the last byte on, without the top bit |
| `Totp.Code` | totp/totp.go:72-84 | the loop writes the base-26 digits of the truncated hash |
| `Totp.CodeLetter` | totp/totp.go:77-82 | each character of the code is the letter its base-26 digit names |
| `Totp.CodeValue` | totp/totp.go:75-82 | those digits denote the truncated hash modulo 26^5, least significant first |
| `Totp.SameCodeIff` | totp/totp.go:59-84 | two codes are equal exactly when the truncated hashes agree modulo 26^5 |

## Left out

- Dialling, proxies, HTTP, the server directory, the example programs and the bot: input and output.
- Protobuf, AES, RSA, SHA-1, HMAC, gzip and JSON: foreign code. They are parameters with the inverse or length facts the lemmas name; the text form's regular expression is modelled.
- Compressed Multi bodies have no length measure, so a run may nest them at most `gz` deep and otherwise ends as too deep; `BoundIrrelevant` says that the bound does not matter to a run that stays within it, and `EndsIff` which packets some bound suffices for.
- Header lengths in packets are taken as the code takes them: a negative one panics when the buffer is made, and the theorems about dispatch let that be one way a run ends.
- The handlers of the two ChannelEncrypt kinds and of the server list are one event in the dispatch trace.
- Messages, headers and bodies are values rather than objects with setters; each Serialize starts from the fields at the time of the call.
- The wall clock, the reason a timeout fires, and the result code and body that call() reads from the packet it returns.
- Only one Connect at a time is modelled: two at once can overwrite an open connection, which then never emits its event. Old loops that run into a new session are left out too.
- The heartbeat, and blocking on the events channel, which the caller must drain: safety is proved, not progress.
- Nil pointers in decoded JSON and protobuf lists, which make the original panic.
- The texts in chat payloads and the room's name are read and dropped, as the original drops all of them but the name it emits.
- The caches keep records by value where the original keeps pointers that never leave them; their mutexes are left out, each method being one critical section.
- Persona fields that are only passed on in events, and the events of social packets.
- GetFullInventory, withRetry, the trade and trade-offer web requests, escrow and receipt scraping: wrappers with easy members.
- Enumerations, constants and class declarations that the generator emits besides the two methods.
