# A verified model of the EWP v2 kernel

EWP v2 carries application bytes through chunks, padded frames, an AEAD with a running counter and a length-prefixed
byte stream, after a hybrid handshake guarded by a replay cache. This project models those layers in Dafny and proves
what they promise together.

| file | models |
|---|---|
| `Octets.dfy`, `Crypto.dfy`, `Kdf.dfy` | bytes, big-endian integers, the size constants, key derivation, the primitives and their laws |
| `Addresses.dfy` | the address codec and the UDP meta block |
| `Frames.dfy`, `FrameCipher.dfy` | the frame format as pure functions; the in-place encoder and the stream decoder proved against them |
| `Padding.dfy` | the bucket padding policy |
| `Framing.dfy` | `LengthFramer` over a connection that cuts reads anywhere and whose writes may fail at any byte |
| `Events.dfy`, `SecureStreams.dfy` | what senders put into frames, what `Recv` makes of them, the stream object over the framer, and two streams as one event queue |
| `Scanning.dfy` | the receive loops of both adapters, as functions of the bytes to come |
| `NetworkRuns.dfy` | two ends and a hostile network |
| `Senders.dfy` | concurrent senders, step by step |
| `StreamConns.dfy`, `PacketConns.dfy` | the TCP and UDP adapters and their end-to-end theorems |
| `Replay.dfy` | the replay cache, and the cache together with the timestamp check |
| `Handshakes.dfy`, `KeyExchange.dfy` | hello codecs, both sides of the handshake, key agreement |

## The main results

- **Hostile network.** In every run in which messages are dropped, duplicated, reordered, altered or invented, short of a
  forgery, the events each end receives are a prefix of what the other sent (`RunIsSafe`, `BytesSafeUnderAttack`), and the
  bytes the reading connection object returns are a prefix of those the writing one wrote (`OneByteQueueUnderAttack`). An
  open end accepts exactly the peer's next frame and is closed by anything else (`AcceptsExactlyNext`).
- **Concurrent senders.** Under every interleaving the i-th accepted message carries counter i, nonces never repeat, and
  each caller's frames are accepted in its own order, exactly those whose calls succeeded (`AcceptedInOrder`,
  `NoncesDistinct`, `CallersKeepOrder`).
- **One byte queue.** For any writes, random chunks and pads, keepalives, failed sends, segmentation, cut-off and read
  sizes, what was read is a prefix of what was written; it is all of it once every byte is read and no send failed, and all
  that was reported sent if one did (`OneEventQueue`, `TcpEndToEnd`, `OneByteQueue`). A send that fails may leave its frame
  on the connection, whole or in part; the theorems cover that frame.
- **One datagram queue, each way.** Datagrams arrive in order with the right targets, keepalive and cover frames or not; an
  empty first datagram is lost, and only that; the end is reported once, after the last datagram (`UdpEndToEnd`,
  `OneDatagramQueue`, `OneReplyQueue`).
- **Errors have causes.** A write reports a closed pipe exactly on a closed stream, a transport failure exactly when a
  connection write failed during the call, missing randomness exactly when a draw failed; so on an open stream with neither
  it sends everything (`SendFrame`, `SendTCPData`, `StreamConn.Write`). Reads are decided by the bytes to come
  (`StreamConn.Read`, `PacketConn.ReadFrom`). A close ends the sub-session exactly when it was open on a live stream with
  randomness, and the peer then sees it (`PacketConn.Close`, `CloseIsSeen`).
- **Four fatal sizes.** On a healthy connection a policy-padded frame closes the stream exactly when its unpadded wire size
  is 65537 to 65540 bytes; larger ones are refused and leave it usable, smaller ones go out (`SendFrame`, `SendOp`,
  `EncodedButRefused`, `LongPingCloses`).
- **Replay.** The swept cache equals an unbounded record (`CacheRefinesHistory`). At-most-once holds for unordered clock
  readings exactly when they spread over less than the window (`AtMostOnceWithinWindow`). A hello can be accepted twice
  exactly when its timestamp was ahead of the server's clock by at least 60 s less the delay between its two clock readings
  (`NoReplayInsideMargin`, `ReplayMarginIsExact`). The standard cache object forgets a pair exactly 180 s after admitting it
  (`RemembersExactly`).
- **Handshake.** Both codecs are bijective up to padding (`HelloRoundTrip`, `HelloReencode`). The server authenticates
  exactly the encodings of a hello whose own UUID is the first to verify (`AuthenticExactly`, `Accept`). In every honest run
  that both sides accept the keys and directions agree (`KeyAgreement`), it is exact which runs they accept
  (`HonestRunSucceeds`), and the session starts where the network theorems start (`SessionIsSeparated`).
- **Key schedule.** Every derived key and nonce prefix depends on the X25519 secret, the ML-KEM secret and both nonces, each
  through its own label (`EverySecretCounts`, `EachKeyItsLabel`, `DirectionsDiffer`).

## How the primitives are treated

The AEAD (section 2.8 of RFC 8439), X25519 (section 6.1 of RFC 7748), ML-KEM-768 (sections 7.2 and 7.3 of FIPS 203), HKDF
(sections 2.2 and 2.3 of RFC 5869) and HMAC (section 2 of RFC 2104) are function parameters constrained only by laws:
opening inverts sealing and succeeds only on sealed input, the tag has 16 bytes, Diffie-Hellman commutes, decapsulation
inverts encapsulation, expansion has the requested length. Each law set has a witness, so none is contradictory. Unforgeability
is a property of a run (`NetworkRuns.Legal`, `NetworkRuns.NotForged`): whatever a receiver opens was sealed by one of the two ends. That the two
directions differ in key or nonce prefix (`Separated`) is assumed there too. Randomness is an arbitrary choice or an
argument, absent where the system's randomness fails; clock readings are arguments.

## Where code and comments disagree

The model follows the code.

- PadLen is part of the header, before the ciphertext (frame.go:47, frame.go:188), not behind it (frame.go:112-113).
- A pad above MaxFramePad is an error (frame.go:154-156), not clamped (securestream.go:236).
- The encoder limits FrameLen, which leaves out its own four bytes (frame.go:161-163), the framer the whole message
  (client.go:259-261); a frame that passes the first and fails the second closes the stream (securestream.go:131-133).
- `DecodeFrame` does not drain the body after an early length error (frame.go:249-267).
- There is no jitter in `padToBucket`, and the MaxFramePad clamp can leave a frame short of its bucket
  (padding_policy.go:137-139); `LandsOnBucket` says exactly when.
- The sweep counter counts admissions, not calls (anti_replay.go:86).
- `Recv` and `parseUDPMeta` ignore bytes behind the frame and behind the address (securestream.go:340, securestream.go:439).
- The first datagram of a client goes to the default destination whatever target was passed (packetconn.go:84).
- An empty payload decodes to nil, so the server does not return an empty first datagram (frame.go:301, packetconn.go:123).

## Model

| member | source | states |
|---|---|---|
| `Octets.BigEndian` | frame.go:184-188 | the integers of the wire format have their most significant byte first |
| `Addresses.AppendShape` | address.go:63-105 | encoding fails exactly for absent targets and over-long domains, leaves `dst` in front and takes EncodedLen bytes, 5 to 257 |
| `Addresses.AddressBytes` | address.go:78-105 | the bytes: type 1, 2 or 3, a length byte for domains, address or name, port with its high byte first |
| `Addresses.AddressRoundTrip` | address.go:78-150 | whatever follows, decoding an encoded address returns what the wire carries and its exact length; it returns the address itself exactly when that is canonical |
| `Addresses.AddressReencode` | address.go:110-150 | re-encoding any decoded address gives back exactly the bytes it was decoded from |
| `Addresses.UdpMetaRoundTrip` | securestream.go:412-447 | building fails exactly for an over-long domain; parsing returns the id and the target if there was one |
| `Addresses.UdpMetaBytes` | securestream.go:412-427 | the bytes: eight of id, then the address if there is one |
| `Addresses.UdpMetaReencode` | securestream.go:430-447 | whatever parses is what the builder emits for the parsed values, up to ignored bytes behind the address |
| `Frames.DecodeOfEncode` | frame.go:144-310 | an encoded frame followed by anything decodes to itself and uses exactly 4+FrameLen bytes |
| `Frames.EncodeOfDecode` | frame.go:243-310 | every accepted frame is byte for byte what the encoder emits for the decoded fields at that counter with the pad found |
| `Frames.WireLayout` | frame.go:161-213 | the bytes: FrameLen, counter, type, MetaLen and PadLen at their places, ciphertext sealed under prefix and counter with the header as associated data, pad last |
| `Frames.OtherCounterRefused` | frame.go:282-286 | a genuine frame of any other counter fails with the counter error |
| `Frames.AlteredIsRefused` | frame.go:291-295 | a ciphertext that is no sealing under this context and header fails authentication |
| `Frames.EncodeErrors` | frame.go:145-165 | exactly which check the encoder fails on |
| `Frames.HeaderErrors` | frame.go:248-267 | exactly which header check the decoder fails on |
| `Frames.PadIsIgnored` | frame.go:274-310 | replacing the pad bytes, and what follows, changes nothing in the decoded result |
| `Frames.BackToBack` | frame.go:144-310 | any list of frames encoded back to back, followed by anything, decodes to the same list; both counters advance in step |
| `Frames.BackToBackConverse` | frame.go:243-310 | a stream on which n decodes succeed starts with n encoder outputs |
| `Frames.NoncesAfter` | frame.go:101-106 | two of 2^64 consecutive counters never give the same nonce |
| `FrameCipher.FrameAead.EncodeAppend` | frame.go:144-217 | for any buffer and capacity: the old prefix survives, the appended bytes are the pure encoding, the counter advances by one; every error leaves prefix and counter alone; a new buffer is used exactly when the capacity is short |
| `FrameCipher.FrameAead.Decode` | frame.go:243-310 | the reader-based decoder computes the pure decoder, error by error, consumes the frame exactly and advances the counter only on success |
| `FrameCipher.FrameAead.constructor` | frame.go:88-94 | the counter starts at 0 |
| `Padding.PadToBucket` | padding_policy.go:102-147 | the loop and the clamps compute the pure policy; the random bits decide the bucket-up, 4500 outcomes in 10000 and every failed draw |
| `Padding.SuggestStreamPad` | padding_policy.go:155-161 | the ladder is chosen by the frame index |
| `Padding.SuggestPadLen` | frame.go:318-335 | the draw stays inside the clamped range |
| `Padding.SecureRandIntn` | padding_policy.go:166-176 | below n, and 0 without randomness |
| `Padding.PaddingNeverBlocks` | padding_policy.go:102-161 | with policy padding, encoder and length framer both accept a frame exactly when it would fit unpadded; the pad is in 0..4096 |
| `Padding.EncodedButRefused` | frame.go:161-165 | the encoder accepts what the framer then refuses exactly for unpadded wire sizes 65537 to 65540, and such frames get no pad |
| `Padding.WireSizeOnLadder` | padding_policy.go:35-67 | frames that fit the ladder go out with at least 1500 bytes in the first 16 frames, at least 256 later, and at most 16384 |
| `Padding.SteadySizes` | padding_policy.go:102-139 | without the bucket-up, the nine wire sizes of the steady phase |
| `Padding.HandshakeSizes` | padding_policy.go:62-67 | the same for the four sizes of the first sixteen frames, with the 4096-byte clamp |
| `Padding.AboveTheLadder` | padding_policy.go:114-122 | above the ladder the wire size is the least multiple of 1024 that holds the frame, up to 64512 bytes; larger frames get no pad |
| `Padding.LandsOnBucket` | padding_policy.go:92-139 | a frame lands on a bucket exactly when the bucket aimed at is at most MaxFramePad away; otherwise it is MaxFramePad above its own size |
| `Padding.MissesEveryBucket` | padding_policy.go:137-139 | a concrete frame that lands on no bucket |
| `Framing.LengthFramer.SendMessage` | client.go:258-273 | success appends one framed message to the stream; a failure in either of the two writes leaves any part of it, from nothing to all, and is reported exactly then; over-long messages write nothing |
| `Framing.FramedBytes` | client.go:264-271 | four bytes of length, high byte first, then the message |
| `Framing.LengthFramer.ReadFull` | client.go:282-296 | across any segmentation, the next n bytes arrive or the end of stream is reported |
| `Framing.LengthFramer.ReadMessage` | client.go:278-300 | the next message in an array of its own, having consumed exactly its framing; an error consumes bytes that hold no message; messages returned earlier keep their contents despite the shared scratch buffer |
| `Framing.FramerRoundTrip` | client.go:258-300 | any sequence of messages is read back, whatever bytes follow |
| `Framing.FramerCut` | client.go:278-300 | a stream cut anywhere yields a prefix of the messages |
| `Framing.TakenIsPrefix` | client.go:258-300 | whoever has read any prefix of a framed stream has taken its first messages, in order |
| `Framing.TakenIsAll` | client.go:258-300 | and all messages the stream starts with, once it is read to the end |
| `Events.OpArrives` | securestream.go:179-241 | a Send* call refuses only an over-long domain; the peer's event is the one asked for exactly when the target is canonical |
| `Events.EventOfEach` | securestream.go:179-241 | what the peer receives for each call: type byte, id, address and payload; no two calls share a type |
| `SecureStreams.SecureStream.constructor` | securestream.go:68-92 | each direction has its own key and prefix and starts at counter 0 |
| `SecureStreams.SecureStream.SendFrame` | securestream.go:105-141 | success hands exactly this frame to the connection, at the next counter and with policy padding; closed pipe exactly on a closed stream, transport failure exactly for a failed write, missing randomness exactly for a failed draw; 65537 to 65540 unpadded wire bytes close the stream, above that it is refused and nothing changes; of a frame whose send failed any part may be out |
| `SecureStreams.LongPingCloses` | securestream.go:226-228 | a concrete call of a fatal size: a ping with a 65504-byte cookie |
| `SecureStreams.SecureStream.SendTCPData` | securestream.go:147-174 | the data frames sealed concatenate to the payload, to a proper prefix of it in the log on error; between ceil(n/12288) and ceil(n/4096) frames above the threshold; wire sizes on the ladder; an error only with its cause, never for size |
| `SecureStreams.ReshapeDone` | securestream.go:160-172 | the frame-count bounds follow from the sizes of the pieces |
| `SecureStreams.SecureStream.SendOp` | securestream.go:179-241 | one frame per call, carrying what was asked for exactly when the target is canonical; errors and survival of the stream decided by its state, the frame's size and failed writes or draws |
| `SecureStreams.SecureStream.Recv` | securestream.go:331-374 | the next message of the connection decides the event or the error and is consumed; any error closes the stream, after which every call fails |
| `SecureStreams.SecureStream.Close` | securestream.go:382-396 | closes stream and connection, idempotently |
| `SecureStreams.ReceivedFromSender` | securestream.go:331-374 | receiving a sender's first m messages gives the events of its first m frames |
| `SecureStreams.OneEventQueue` | securestream.go:105-374 | over any prefix of the bytes handed to the connection, failed sends included, the events received are those of the first frames sealed; all bytes read means all frames reported sent were received |
| `NetworkRuns.StepIsSafe` | securestream.go:331-374 | every send, close and delivery keeps both directions a prefix of what was sent |
| `NetworkRuns.RunIsSafe` | securestream.go:331-374 | in every run without forgery the received events are a prefix of the sent ones, equal to what was asked for on canonical targets |
| `NetworkRuns.AcceptsExactlyNext` | frame.go:282-310 | an open end accepts a message if and only if it is the peer's next frame up to pad content; everything else closes it |
| `NetworkRuns.ClosedIsFinal` | securestream.go:105-108 | new calls after closing change nothing an end has sent or received |
| `NetworkRuns.OpenEndActs` | securestream.go:105-141 | an open end seals every frame that can be encoded, and closes exactly when told to or when the transport fails |
| `NetworkRuns.BytesSafeUnderAttack` | client.go:136-164 | in every run the application bytes received are a prefix of those sent, whatever the network does |
| `NetworkRuns.TakenUnderAttack` | securestream.go:331-374 | the events of any messages taken, none forged, are those of the peer stream's first frames |
| `NetworkRuns.OneByteQueueUnderAttack` | client.go:125-186 | whatever unforged messages the reading connection object took, what it returned and buffered is a prefix of what the writing object wrote |
| `Senders.RunInvariant` | securestream.go:105-141 | mutual exclusion, wire order and counter stay consistent under every interleaving of closed check, lock, encode, send, unlock and close |
| `Senders.AcceptedInOrder` | securestream.go:98-141 | the i-th accepted message is the i-th encoded frame and carries counter i |
| `Senders.CallersKeepOrder` | securestream.go:28-34 | each caller's accepted frames are, in its own order, those of its successful calls |
| `Senders.NoncesDistinct` | frame.go:181-216 | no two encoded frames were sealed under one nonce, prefix and counter, while at most 2^64 are encoded |
| `Senders.CallSucceeds` | securestream.go:105-141 | nothing blocks a caller of an idle open stream: its frame is encoded at the next counter and accepted, and the call succeeds |
| `Senders.EncodedIsTaken` | securestream.go:131-140 | an encoded frame over an open transport that takes it is accepted, and its call returns success |
| `Senders.FailureCloses` | securestream.go:131-134 | a failed send does not return before the stream is closed; a call on a closed stream fails at once |
| `Senders.NothingAfterClose` | securestream.go:382-396 | callers already past the closed check get nothing onto a closed transport |
| `Scanning.ScanShape` | client.go:140-160 | a receive loop skips what it may and ends at the first other event, or at an error having skipped everything |
| `StreamConns.ReadFinds` | client.go:140-160 | a Read reports no error exactly when it has data to return, and that is all the data it received |
| `StreamConns.StreamConn.Read` | client.go:136-164 | returned and buffered bytes are exactly the data received; with nothing buffered the bytes to come decide data or error |
| `StreamConns.StreamConn.Write` | client.go:166-186 | the data frames sealed carry a prefix of the argument, all of it without an error; the count is the argument or the whole pieces reported sent; closed pipe exactly on a closed stream, other errors exactly for a failed write or draw |
| `StreamConns.StreamConn.SendOther` | securestream.go:179-311 | pings, cover frames and the other senders leave the byte stream alone |
| `StreamConns.TcpEndToEnd` | client.go:136-186 | between two connected streams the data received is a prefix of the data sealed, and contains all data reported sent once every byte is read |
| `StreamConns.AllArrives` | client.go:258-300 | the uncut stream of any sent frames yields every message and all their data |
| `StreamConns.OneByteQueue` | client.go:125-186 | the writing and the reading object over one in-order connection are one byte queue, failed sends included |
| `StreamConns.Pair` | server.go:205-232 | the two ends built behind a handshake are connected both ways, so the queue theorems apply from the start |
| `PacketConns.PacketConn.Client` | packetconn.go:50-57 | a client connection starts unopened |
| `PacketConns.PacketConn.Server` | packetconn.go:62-74 | a server connection starts open, the first payload pending |
| `PacketConns.PacketConn.EnsureOpen` | packetconn.go:78-89 | UDP_NEW once, to the default destination |
| `PacketConns.PacketConn.WriteToAddress` | packetconn.go:104-117 | among the UDP frames of the stream one per successful write in the pattern UDP_NEW UDP_DATA*; a failed write leaves none, or the last; every error with its cause |
| `PacketConns.PacketConn.SendOther` | securestream.go:210-311 | keepalive, cover and probe frames on the same stream leave the sub-session alone |
| `PacketConns.PacketConn.ReadFrom` | packetconn.go:122-166 | every datagram of the sub-session is returned once, in order, cut only to the buffer, with its own or the default source; the bytes to come decide datagram, EOF or error |
| `PacketConns.PacketConn.Close` | packetconn.go:168-186 | UDP_END is sealed exactly when the sub-session was open, had a connection, the stream was live and no draw failed; once, as the last UDP frame; then the stream is closed |
| `PacketConns.AcceptUdp` | server.go:233-251 | accepts exactly a first frame UDP_NEW; it fixes id, default target and first payload |
| `PacketConns.UdpEndToEnd` | packetconn.go:62-186 | the server receives the client's datagrams in order and properly attributed, all of them exactly when the first is not empty; UDP_END comes once, after the last, and nothing follows it |
| `PacketConns.OneDatagramQueue` | packetconn.go:25-186 | the client and the server object over one in-order connection are one datagram queue; EOF is returned at most once, after all datagrams, and is returned if the client closed and all bytes were read |
| `PacketConns.OneReplyQueue` | packetconn.go:25-186 | the same from server to client, sourceless datagrams attributed to the client's default |
| `PacketConns.CloseIsSeen` | packetconn.go:168-186 | once every byte is read, the peer of a closed sub-session has returned all datagrams and then EOF, once |
| `Replay.ReplayCache.MarkSeenOrReject` | anti_replay.go:70-92 | the mutable cache computes the pure one on the calls made so far |
| `Replay.SecondsExact` | anti_replay.go:75 | whole seconds of a window are kept exactly, fractions dropped; the standard window is 180 s |
| `Replay.RemembersExactly` | anti_replay.go:70-101 | on the standard cache object, a pair admitted at t is refused before t+180 and admitted from t+180 on, through any calls and sweeps |
| `Replay.ReplayCache.GcLocked` | anti_replay.go:95-101 | deleting while iterating leaves exactly the live entries |
| `Replay.CacheRefinesHistory` | anti_replay.go:70-101 | for non-decreasing readings the swept cache admits, call for call, what an unbounded record admits |
| `Replay.CacheSizeBounded` | anti_replay.go:43-50 | at most the entries left by the last sweep plus gcInterval-1 |
| `Replay.AtMostOnceWithinWindow` | anti_replay.go:74-92 | for readings in any order, at most one admission per pair in all runs exactly when the readings spread over less than the window |
| `Replay.NoReplayInsideMargin` | handshake.go:278-291 | a hello whose timestamp is ahead by less than 60 s, minus the delay between the server's two clock readings, is never accepted again in any run |
| `Replay.ReplayMarginIsExact` | anti_replay.go:8-15 | for every delay, a second acceptance is possible exactly when the timestamp was ahead by that margin or more |
| `Handshakes.HelloRoundTrip` | handshake.go:364-493 | encoding fails only for bad addresses, never for length; 1354 to 2566 bytes; valid outer MAC; decodes to the same fields |
| `Handshakes.HelloReencode` | handshake.go:424-493 | a hello that passes MAC, decode and UUID match is byte for byte the encoding of its fields and padding |
| `Handshakes.HelloDecodes` | handshake.go:364-493 | with any padding an encoded hello has a valid outer MAC and decodes to the same fields |
| `Handshakes.HelloBytes` | handshake.go:388-419 | the bytes: nonce, keys, length, ciphertext with the header as associated data, MAC over everything before it |
| `Handshakes.HelloIsBound` | handshake.go:424-463 | a decoded hello was opened under its UUID's key, its nonce and its whole header |
| `Handshakes.InnerRoundTrip` | handshake.go:366-385 | the inner plaintext parses back, with its exact length |
| `Handshakes.InnerBytes` | handshake.go:366-385 | the bytes: timestamp, UUID, command, address, pad length, pad |
| `Handshakes.InnerReencode` | handshake.go:465-492 | a parsed plaintext has no unaccounted byte |
| `Handshakes.ServerHelloRoundTrip` | handshake.go:500-540 | the answer decodes to itself under its UUID |
| `Handshakes.ServerHelloBytes` | handshake.go:500-514 | the bytes of the answer and its MAC |
| `Handshakes.ServerHelloReencode` | handshake.go:516-540 | an accepted answer is the encoding of its fields |
| `Kdf.EverySecretCounts` | kdf.go:129-160 | inputs that differ in either secret or either nonce give four different outputs under some hash |
| `Kdf.EachKeyItsLabel` | kdf.go:145-160 | each output depends on the session secret and its own label only |
| `Kdf.DirectionsDiffer` | kdf.go:148-160 | some hash keeps all four outputs of every session apart |
| `Kdf.HandshakeKeyCounts` | kdf.go:82-91 | the handshake key depends on UUID and nonce |
| `Kdf.HandshakeKeyLabel` | kdf.go:82-91 | the handshake key is the expansion of its own label |
| `Kdf.OuterMacCounts` | kdf.go:95-103 | the outer MAC depends on the UUID and on every byte |
| `KeyExchange.FindUuid` | handshake.go:345-354 | the first UUID whose MAC matches, or none matches |
| `KeyExchange.AuthenticExactly` | handshake.go:253-277 | a message authenticates as a hello if and only if it encodes that hello, whose UUID is the first to verify, with a known command and a canonical address |
| `KeyExchange.Accept` | handshake.go:248-338 | an accepted message encodes the hello returned, its UUID is in the table and the first to verify, command 1 or 2, timestamp within 120 s either way; checks in order; unauthentic, stale and replayed messages leave the cache alone and never reach the key exchange |
| `KeyExchange.ClientHandshake.ReadServerHello` | handshake.go:155-208 | keys only from an answer with valid MAC, the client's nonce, status 0 and a time within 120 s, each failure with its error; the ephemeral secrets are dropped on success only |
| `KeyExchange.WriteClientHello` | handshake.go:96-148 | succeeds exactly for a known command, an encodable address, randomness and a transport that delivers; the bytes sent encode the hello composed from the fresh secrets |
| `KeyExchange.KeyAgreement` | handshake.go:96-338 | whenever both sides accept unchanged messages, whatever the cache and the clock readings, keys are equal, derived from both shared secrets and the nonce, and the directions mirror each other |
| `KeyExchange.HonestRunSucceeds` | handshake.go:248-338 | a hello resolved to its own UUID is accepted by both sides exactly when the command is valid, both clocks are timely, the cache does not know the pair and the curve accepts the keys; the server learns command and address |
| `KeyExchange.ClocksPassUntil2106` | handshake.go:117-118 | clocks within the window pass the 32-bit timestamp check exactly below 2^32 seconds |
| `KeyExchange.AgreedSessionWorks` | securestream.go:65-92 | after every successful honest run, what either side encodes in order the other decodes |
| `KeyExchange.SessionIsSeparated` | kdf.go:145-160 | a successful honest run gives fresh mirrored contexts, separated whenever the hash does not collide on the labels |

## Left out

- Bodies of ChaCha20-Poly1305, X25519, ML-KEM, HKDF, HMAC and SHA-256: used through the laws above.
- Cover-traffic goroutine and its timers: a cover frame is one more sender's frame (`SendOther`, `Senders`, `NetworkRuns`).
- Message transports other than `LengthFramer`: the stream is modelled over the framer and its connection.
- Deadlines, contexts, local and remote addresses, statistics counters other than the frame count: plumbing without an invariant.
- Statistical fingerprint claims: not decided by the code's logic.
- Conversions to and from net.Addr, String methods, error wrapping, UUID parsing: easy members only.
- Zeroing of secrets and constant-time comparison: not functional properties.
- Reserved rekey frames: nothing emits them.
- The server's user table: list insertion and removal; `KeyExchange.Accept` takes the list it yields.
- PacketConns.PacketConn.WriteToAddress: states one frame per write for sequential calls only, because `opened` is read without its lock (packetconn.go:105).
- Senders.NoncesDistinct: speaks of frames that were encoded; when drawing pad bytes fails the sealed bytes are discarded and the counter is kept (frame.go:207-213).
- StreamConns.StreamConn.Read: models the calls one at a time, as the single-reader contract demands (client.go:51-52).
- NetworkRuns.ClosedIsFinal: speaks of calls made after the close; a Recv already past its closed check (securestream.go:332) may still return an event, because a call is one step there.
- SecureStreams.SecureStream.SendOp: takes cover frames with policy padding; an explicit pad length (securestream.go:239-241) is a call of SendFrame.
