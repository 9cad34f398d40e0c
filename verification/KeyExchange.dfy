/** The two sides of the handshake (handshake.go) and the session they set up (securestream.go). */
module KeyExchange {
  import opened Octets
  import opened Crypto
  import opened Kdf
  import opened Addresses
  import opened Frames
  import opened Padding
  import opened Replay
  import opened Handshakes
  import NetworkRuns

  // ------------------------------------------------------------------
  // Server
  // ------------------------------------------------------------------

  /** MakeUUIDLookup: the first UUID whose outer MAC matches. */
  function Lookup(s: Suite, uuids: seq<Bytes16>, msg: Bytes): Option<Bytes16>
    requires |msg| >= MAC_LEN
  {
    if uuids == [] then None
    else if MacVerifies(s, uuids[0], msg) then Some(uuids[0])
    else Lookup(s, uuids[1..], msg)
  }

  method FindUuid(s: Suite, uuids: seq<Bytes16>, msg: Bytes) returns (r: Option<Bytes16>)
    requires |msg| >= MAC_LEN
    ensures r == Lookup(s, uuids, msg)
    ensures r.Some? ==> exists i :: 0 <= i < |uuids| && uuids[i] == r.value && MacVerifies(s, r.value, msg)
                                    && forall j | 0 <= j < i :: !MacVerifies(s, uuids[j], msg)
    ensures r.None? ==> forall i | 0 <= i < |uuids| :: !MacVerifies(s, uuids[i], msg)
  {
    var i := 0;
    while i < |uuids|
      invariant 0 <= i <= |uuids|
      invariant Lookup(s, uuids, msg) == Lookup(s, uuids[i..], msg)
      invariant forall j | 0 <= j < i :: !MacVerifies(s, uuids[j], msg)
    {
      if MacVerifies(s, uuids[i], msg) {
        return Some(uuids[i]);
      }
      assert uuids[i..][1..] == uuids[i + 1..];
      i := i + 1;
    }
    return None;
  }

  /** Every check of AcceptClientHelloWithReplay that does not involve time. */
  function Authenticate(s: Suite, uuids: seq<Bytes16>, msg: Bytes): Result<ClientHello> {
    if |msg| < MAC_LEN then Err(HandshakeShort)
    else
      match Lookup(s, uuids, msg)
      case None => Err(UnknownUuid)
      case Some(uuid) =>
        match DecodeClientHello(s, msg, uuid)
        case Err(e) => Err(e)
        case Ok(ch) =>
          if ch.uuid != uuid then Err(UuidMismatch)
          else if ch.command != COMMAND_TCP && ch.command != COMMAND_UDP then Err(UnsupportedCommand)
          else Ok(ch)
  }

  /** `uuid` is the first of the table under which the message's MAC verifies. */
  ghost predicate FirstToVerify(s: Suite, uuids: seq<Bytes16>, msg: Bytes, uuid: Bytes16) {
    |msg| >= 16 && exists i :: 0 <= i < |uuids| && uuids[i] == uuid && MacVerifies(s, uuid, msg)
                               && forall j | 0 <= j < i :: !MacVerifies(s, uuids[j], msg)
  }

  lemma {:induction false} LookupIsFirst(s: Suite, uuids: seq<Bytes16>, msg: Bytes, uuid: Bytes16)
    requires |msg| >= MAC_LEN
    ensures Lookup(s, uuids, msg) == Some(uuid) <==> FirstToVerify(s, uuids, msg, uuid)
  {
    hide MacVerifies;
    if uuids != [] {
      LookupIsFirst(s, uuids[1..], msg, uuid);
      if FirstToVerify(s, uuids[1..], msg, uuid) && !MacVerifies(s, uuids[0], msg) {
        var i :| 0 <= i < |uuids[1..]| && uuids[1..][i] == uuid && MacVerifies(s, uuid, msg)
                 && forall j | 0 <= j < i :: !MacVerifies(s, uuids[1..][j], msg);
        forall j | 0 <= j < i + 1 ensures !MacVerifies(s, uuids[j], msg) {
          assert j > 0 ==> uuids[j] == uuids[1..][j - 1];
        }
        assert uuids[i + 1] == uuid;
      }
      if FirstToVerify(s, uuids, msg, uuid) && !MacVerifies(s, uuids[0], msg) {
        var i :| 0 <= i < |uuids| && uuids[i] == uuid && MacVerifies(s, uuid, msg)
                 && forall j | 0 <= j < i :: !MacVerifies(s, uuids[j], msg);
        assert uuids[1..][i - 1] == uuid;
      }
    }
  }

  /** Byte for byte an encoding of `ch`. */
  ghost predicate EncodingOf(s: Suite, ch: ClientHello, msg: Bytes) {
    exists pad: Bytes :: |pad| < TWO16 && EncodeClientHello(s, ch, pad) == Ok(msg)
  }

  /** Exactly which messages authenticate, and as what: the encodings of a hello with a canonical address and a known
      command whose own UUID is the first of the table to verify. */
  lemma AuthenticExactly(s: Suite, uuids: seq<Bytes16>, msg: Bytes, ch: ClientHello)
    ensures Authenticate(s, uuids, msg) == Ok(ch) <==>
              && FirstToVerify(s, uuids, msg, ch.uuid) && EncodingOf(s, ch, msg)
              && (ch.command == 1 || ch.command == 2) && Canonical(ch.address)
  {
    hide DecodeClientHello, EncodeClientHello, MacVerifies, Lookup, FirstToVerify, EncodingOf;
    if |msg| >= MAC_LEN {
      LookupIsFirst(s, uuids, msg, ch.uuid);
      if Authenticate(s, uuids, msg) == Ok(ch) {
        LookupIsFirst(s, uuids, msg, Lookup(s, uuids, msg).value);
        Reencoded(s, uuids, msg, ch);
        HelloIsBound(s, msg, ch.uuid);
      }
      if EncodingOf(s, ch, msg) && Canonical(ch.address) {
        EncodedDecodes(s, msg, ch);
      }
    } else {
      TooShort(s, uuids, msg, ch.uuid);
    }
  }

  lemma TooShort(s: Suite, uuids: seq<Bytes16>, msg: Bytes, uuid: Bytes16)
    requires |msg| < MAC_LEN
    ensures !FirstToVerify(s, uuids, msg, uuid)
  {
  }

  lemma Reencoded(s: Suite, uuids: seq<Bytes16>, msg: Bytes, ch: ClientHello)
    requires FirstToVerify(s, uuids, msg, ch.uuid) && DecodeClientHello(s, msg, ch.uuid) == Ok(ch)
    ensures EncodingOf(s, ch, msg)
  {
    hide DecodeClientHello, EncodeClientHello;
    var pad := HelloReencode(s, msg, ch.uuid);
  }

  lemma EncodedDecodes(s: Suite, msg: Bytes, ch: ClientHello)
    requires EncodingOf(s, ch, msg) && Canonical(ch.address)
    ensures DecodeClientHello(s, msg, ch.uuid) == Ok(ch)
  {
    hide DecodeClientHello, EncodeClientHello;
    var pad: Bytes :| |pad| < TWO16 && EncodeClientHello(s, ch, pad) == Ok(msg);
    HelloDecodes(s, ch, pad);
  }

  datatype Answer = Answer(hello: Bytes, keys: SessionKeys)

  /** The key exchange and the answer; `xPriv` and `kemRand` are the server's ephemeral randomness. */
  function Respond(s: Suite, ch: ClientHello, time: U32, xPriv: Bytes32, kemRand: Bytes): Result<Answer> {
    match s.kex.ecdh(xPriv, ch.classicalPub)
    case None => Err(BadPublicKey)
    case Some(classical) =>
      match s.kex.encapsulate(ch.pqPub, kemRand)
      case None => Err(BadPublicKey)
      case Some((shared, cipher)) =>
        var sh := ServerHello(ch.nonce, s.kex.xPub(xPriv), cipher, time, 0);
        Ok(Answer(EncodeServerHello(s, sh, ch.uuid), DeriveSessionKeys(s.hash, classical, shared, ch.nonce, sh.nonceEcho)))
  }

  function KeyOf(ch: ClientHello): ReplayKey { ReplayKey(ch.uuid, ch.nonce) }

  /** AcceptClientHelloWithReplay. The clock is read for the timestamp, inside the cache, and for the answer; a nil cache
      switches replay detection off. Unauthenticated, stale and replayed messages never reach the key exchange, and only
      authentic, timely ones touch the cache. */
  method Accept(s: Suite, msg: Bytes, uuids: seq<Bytes16>, cache: ReplayCache?, now: int, marked: int, time: int,
                xPriv: Bytes32, kemRand: Bytes) returns (r: Result<Answer>, ch: Option<ClientHello>)
    modifies cache
    ensures match Authenticate(s, uuids, msg)
            case Err(e) => r == Err(e) && (cache != null ==> cache.Abs() == old(cache.Abs()))
            case Ok(hello) =>
              if AbsDiff(hello.timestamp, now) > TIMESTAMP_WINDOW
              then r == Err(TimestampOutOfWindow) && (cache != null ==> cache.Abs() == old(cache.Abs()))
              else if cache != null && !Admits(old(cache.Abs()), marked, KeyOf(hello))
              then r == Err(Replayed) && cache.Abs() == old(cache.Abs())
              else
                && r == Respond(s, hello, time % TWO32, xPriv, kemRand)
                && (cache != null ==> cache.Abs() == Mark(old(cache.Abs()), WholeSeconds(cache.window), marked, KeyOf(hello)))
    ensures r.Ok? ==>
              && ch.Some? && Authenticate(s, uuids, msg) == Ok(ch.value)
              && FirstToVerify(s, uuids, msg, ch.value.uuid) && EncodingOf(s, ch.value, msg)
              && (ch.value.command == 1 || ch.value.command == 2)
              && now - 120 <= ch.value.timestamp <= now + 120
    ensures |msg| < 16 ==> r == Err(HandshakeShort)
    ensures |msg| >= 16 && (forall i | 0 <= i < |uuids| :: !MacVerifies(s, uuids[i], msg)) ==> r == Err(UnknownUuid)
    ensures cache != null && cache.window == 180_000_000_000 && Authenticate(s, uuids, msg).Ok? ==>
              var hello := Authenticate(s, uuids, msg).value;
              var attempt := Attempt(hello.timestamp, KeyOf(hello), now, marked);
              && cache.Abs() == AfterAttempt(old(cache.Abs()), attempt)
              && (r.Ok? ==> AcceptsAttempt(old(cache.Abs()), attempt))
  {
    hide DecodeClientHello, EncodeServerHello, DeriveSessionKeys, MacVerifies, WholeSeconds, FirstToVerify, EncodingOf;
    SecondsExact(180, 0);
    ch := None;
    if |msg| < MAC_LEN {
      return Err(HandshakeShort), ch;
    }
    var uuid := FindUuid(s, uuids, msg);
    if uuid.None? {
      return Err(UnknownUuid), ch;
    }
    var d := DecodeClientHello(s, msg, uuid.value);
    if d.Err? {
      return Err(d.error), ch;
    }
    var hello := d.value;
    if hello.uuid != uuid.value {
      return Err(UuidMismatch), ch;
    }
    if hello.command != COMMAND_TCP && hello.command != COMMAND_UDP {
      return Err(UnsupportedCommand), ch;
    }
    if AbsDiff(hello.timestamp, now) > TIMESTAMP_WINDOW {
      return Err(TimestampOutOfWindow), ch;
    }
    if cache != null {
      var admitted := cache.MarkSeenOrReject(marked, hello.uuid, hello.nonce);
      if !admitted {
        return Err(Replayed), ch;
      }
    }
    AuthenticExactly(s, uuids, msg, hello);
    return Respond(s, hello, time % TWO32, xPriv, kemRand), Some(hello);
  }

  // ------------------------------------------------------------------
  // Client
  // ------------------------------------------------------------------

  /** What ReadServerHello computes from the server's answer. */
  function Finish(s: Suite, uuid: Bytes16, nonce: Bytes12, xPriv: Bytes32, kemPriv: Bytes, msg: Bytes,
                  now: int): Result<SessionKeys> {
    match DecodeServerHello(s, msg, uuid)
    case Err(e) => Err(e)
    case Ok(sh) =>
      if sh.nonceEcho != nonce then Err(OuterMacMismatch)
      else if sh.status != 0 then Err(ServerRefused)
      else if AbsDiff(sh.serverTime, now) > TIMESTAMP_WINDOW then Err(TimestampOutOfWindow)
      else
        match s.kex.ecdh(xPriv, sh.classicalPub)
        case None => Err(BadPublicKey)
        case Some(classical) =>
          match s.kex.decapsulate(kemPriv, sh.pqCipher)
          case None => Err(BadPublicKey)
          case Some(pq) => Ok(DeriveSessionKeys(s.hash, classical, pq, nonce, sh.nonceEcho))
  }

  /** ClientHandshakeState: the ephemeral secrets are dropped by the first successful ReadServerHello. */
  class ClientHandshake {
    const suite: Suite
    const hello: ClientHello
    var xPriv: Option<Bytes32>
    var kemPriv: Option<Bytes>

    constructor (suite: Suite, hello: ClientHello, xPriv: Bytes32, kemPriv: Bytes)
      ensures this.suite == suite && this.hello == hello && this.xPriv == Some(xPriv) && this.kemPriv == Some(kemPriv)
    {
      this.suite, this.hello, this.xPriv, this.kemPriv := suite, hello, Some(xPriv), Some(kemPriv);
    }

    method ReadServerHello(msg: Bytes, now: int) returns (r: Result<SessionKeys>)
      requires xPriv.Some? && kemPriv.Some?
      modifies this
      ensures r == Finish(suite, hello.uuid, hello.nonce, old(xPriv).value, old(kemPriv).value, msg, now)
      ensures r.Ok? ==> xPriv.None? && kemPriv.None?
      ensures r.Err? ==> xPriv == old(xPriv) && kemPriv == old(kemPriv)
      ensures if |msg| != 1153 then r == Err(HandshakeShort)
              else if !MacVerifies(suite, hello.uuid, msg) || msg[0..12] != hello.nonce then r == Err(OuterMacMismatch)
              else if msg[1136] != 0 then r == Err(ServerRefused)
              else if !(now - 120 <= GetUint(msg[1132..1136]) <= now + 120) then r == Err(TimestampOutOfWindow)
              else r.Ok? || r == Err(BadPublicKey)
    {
      hide DeriveSessionKeys, MacVerifies, GetUint;
      var d := DecodeServerHello(suite, msg, hello.uuid);
      if d.Err? {
        return Err(d.error);
      }
      var sh := d.value;
      if sh.nonceEcho != hello.nonce {
        return Err(OuterMacMismatch);
      }
      if sh.status != 0 {
        return Err(ServerRefused);
      }
      if AbsDiff(sh.serverTime, now) > TIMESTAMP_WINDOW {
        return Err(TimestampOutOfWindow);
      }
      var classical := suite.kex.ecdh(xPriv.value, sh.classicalPub);
      if classical.None? {
        return Err(BadPublicKey);
      }
      var pq := suite.kex.decapsulate(kemPriv.value, sh.pqCipher);
      if pq.None? {
        return Err(BadPublicKey);
      }
      r := Ok(DeriveSessionKeys(suite.hash, classical.value, pq.value, hello.nonce, sh.nonceEcho));
      xPriv, kemPriv := None, None;
    }
  }

  /** The hello a client composes from its ephemeral secrets and its clock. */
  function Compose(s: Suite, uuid: Bytes16, command: Byte, addr: Address, time: int, nonce: Bytes12, xPriv: Bytes32,
                   kemPriv: Bytes): ClientHello {
    ClientHello(nonce, s.kex.xPub(xPriv), s.kex.kemPub(kemPriv), time % TWO32, uuid, command, addr)
  }

  /** WriteClientHello: the wire bytes handed to the transport and the state to keep. The random values are absent where
      the system's randomness fails; `delivered` is the transport's answer. */
  method WriteClientHello(s: Suite, uuid: Bytes16, command: Byte, addr: Address, time: int, nonce: Option<Bytes12>,
                          xPriv: Option<Bytes32>, kemPriv: Option<Bytes>, draw: Option<U32>, pad: Option<Bytes>, delivered: bool)
    returns (r: Result<ClientHandshake>, wire: Bytes)
    requires pad.Some? ==> |pad.value| == SuggestPadLen(MIN_HANDSHAKE_PAD, MAX_HANDSHAKE_PAD, draw)
    ensures if command != 1 && command != 2 then r == Err(UnsupportedCommand)
            else if nonce.None? || xPriv.None? || kemPriv.None? then r == Err(RandomFailure)
            else if !Present(addr) then r == Err(InvalidAddress)
            else if |addr.domain| > 253 then r == Err(DomainLength)
            else if pad.None? then r == Err(RandomFailure)
            else if !delivered then r == Err(TransportFailure)
            else r.Ok?
    ensures r.Ok? ==>
              var hello := Compose(s, uuid, command, addr, time, nonce.value, xPriv.value, kemPriv.value);
              && EncodeClientHello(s, hello, pad.value) == Ok(wire) && 1354 <= |wire| <= 2566
              && fresh(r.value) && r.value.suite == s && r.value.hello == hello
              && r.value.xPriv == xPriv && r.value.kemPriv == kemPriv
  {
    hide EncodeClientHello, DecodeClientHello, MacVerifies, AppendAddress;
    wire := [];
    if command != COMMAND_TCP && command != COMMAND_UDP {
      return Err(UnsupportedCommand), wire;
    }
    if nonce.None? || xPriv.None? || kemPriv.None? {
      return Err(RandomFailure), wire;
    }
    var hello := Compose(s, uuid, command, addr, time, nonce.value, xPriv.value, kemPriv.value);
    AppendShape([], addr);
    var encodable := AppendAddress([], addr);
    if encodable.Err? {
      return Err(encodable.error), wire;
    }
    if pad.None? {
      return Err(RandomFailure), wire;
    }
    HelloRoundTrip(s, hello, pad.value);
    wire := EncodeClientHello(s, hello, pad.value).value;
    if !delivered {
      return Err(TransportFailure), wire;
    }
    var state := new ClientHandshake(s, hello, xPriv.value, kemPriv.value);
    return Ok(state), wire;
  }

  // ------------------------------------------------------------------
  // Agreement
  // ------------------------------------------------------------------

  /** Whatever UUID a hello is decoded under, its plaintext fields are the sender's. */
  lemma PublicFields(s: Suite, ch: ClientHello, pad: Bytes, uuid: Bytes16)
    requires MIN_HANDSHAKE_PAD <= |pad| <= MAX_HANDSHAKE_PAD && EncodeClientHello(s, ch, pad).Ok?
    requires DecodeClientHello(s, EncodeClientHello(s, ch, pad).value, uuid).Ok?
    ensures var d := DecodeClientHello(s, EncodeClientHello(s, ch, pad).value, uuid).value;
            d.nonce == ch.nonce && d.classicalPub == ch.classicalPub && d.pqPub == ch.pqPub
  {
    hide HandshakeKey, OuterMac, ParseInner, BuildInner, PutUint, GetUint;
    var inner := BuildInner(InnerOf(ch), pad).value;
    var ctLen := |inner| + AEAD_OVERHEAD;
    var aad := HelloHeader(ch.nonce, ch.classicalPub, ch.pqPub, ctLen);
    var ct := Seal(s.aead, HandshakeKey(s.hash, ch.uuid, ch.nonce), ch.nonce, inner, aad);
    var mac := OuterMac(s.hash, ch.uuid, aad + ct);
    HeaderParts(ch.nonce, ch.classicalPub, ch.pqPub, ctLen, ct + mac);
    assert EncodeClientHello(s, ch, pad).value == aad + (ct + mac);
  }

  /** A client that accepts the answer to its own public fields derives the server's keys. */
  lemma SameSecrets(s: Suite, ch: ClientHello, time: U32, xa: Bytes32, ka: Bytes, xb: Bytes32, rand: Bytes,
                    uuid: Bytes16, now: int)
    requires ch.classicalPub == s.kex.xPub(xa) && ch.pqPub == s.kex.kemPub(ka)
    requires Respond(s, ch, time, xb, rand).Ok?
    requires Finish(s, uuid, ch.nonce, xa, ka, Respond(s, ch, time, xb, rand).value.hello, now).Ok?
    ensures Finish(s, uuid, ch.nonce, xa, ka, Respond(s, ch, time, xb, rand).value.hello, now).value
            == Respond(s, ch, time, xb, rand).value.keys
  {
    hide DeriveSessionKeys, OuterMac, PutUint, GetUint, EncodeServerHello, DecodeServerHello;
    var (shared, cipher) := s.kex.encapsulate(ch.pqPub, rand).value;
    var sh := ServerHello(ch.nonce, s.kex.xPub(xb), cipher, time, 0);
    DecodedServerFields(s, sh, ch.uuid, uuid);
    assert s.kex.ecdh(xa, s.kex.xPub(xb)) == s.kex.ecdh(xb, s.kex.xPub(xa));
  }

  /** Whatever UUID an answer is decoded under, its fields are the server's. */
  lemma DecodedServerFields(s: Suite, sh: ServerHello, u1: Bytes16, u2: Bytes16)
    ensures var d := DecodeServerHello(s, EncodeServerHello(s, sh, u1), u2); d.Ok? ==> d.value == sh
    ensures DecodeServerHello(s, EncodeServerHello(s, sh, u1), u1) == Ok(sh)
  {
    hide OuterMac;
    ServerHelloRoundTrip(s, sh, u1);
  }

  datatype ClientInput = ClientInput(
    uuid: Bytes16, command: Byte, addr: Address, time: int, nonce: Bytes12, xPriv: Bytes32, kemPriv: Bytes, pad: Bytes)

  /** The server's table and cache (none if replay detection is off), its clock as read for the timestamp check, inside
      the cache and for the answer, and its randomness. */
  datatype ServerInput = ServerInput(
    uuids: seq<Bytes16>, cache: Option<Cache>, checked: int, marked: int, answered: int, xPriv: Bytes32, kemRand: Bytes)
  {
    predicate Admitted(k: ReplayKey) { cache.Some? ==> Admits(cache.value, marked, k) }
  }

  /** What the two sides hold afterwards, and the hello the server saw. */
  datatype Outcome = Outcome(client: SessionKeys, server: SessionKeys, seen: ClientHello)

  function HelloOf(s: Suite, c: ClientInput): ClientHello {
    Compose(s, c.uuid, c.command, c.addr, c.time, c.nonce, c.xPriv, c.kemPriv)
  }

  /** A run in which the client's bytes reach the server and the server's bytes reach the client unchanged: it fails
      with the first error either side reports. `readTime` is the client's clock when the answer arrives. */
  function HonestRun(s: Suite, c: ClientInput, v: ServerInput, readTime: int): Result<Outcome>
    requires MIN_HANDSHAKE_PAD <= |c.pad| <= MAX_HANDSHAKE_PAD
  {
    match EncodeClientHello(s, HelloOf(s, c), c.pad)
    case Err(e) => Err(e)
    case Ok(wire) =>
      match Authenticate(s, v.uuids, wire)
      case Err(e) => Err(e)
      case Ok(ch) =>
        if AbsDiff(ch.timestamp, v.checked) > TIMESTAMP_WINDOW then Err(TimestampOutOfWindow)
        else if !v.Admitted(KeyOf(ch)) then Err(Replayed)
        else
          match Respond(s, ch, v.answered % TWO32, v.xPriv, v.kemRand)
          case Err(e) => Err(e)
          case Ok(answer) =>
            match Finish(s, c.uuid, c.nonce, c.xPriv, c.kemPriv, answer.hello, readTime)
            case Err(e) => Err(e)
            case Ok(keys) => Ok(Outcome(keys, answer.keys, ch))
  }

  /** Key agreement: whenever an honest run succeeds the two sides hold the same keys, and each side's sending context is
      the other's receiving context in key, nonce prefix and counter; the keys are derived from the X25519 secret of the
      two ephemeral keys, the encapsulated ML-KEM secret and the client's nonce. Nothing is assumed of the users' table, the cache, the
      clocks or the randomness. */
  lemma KeyAgreement(s: Suite, c: ClientInput, v: ServerInput, readTime: int)
    requires MIN_HANDSHAKE_PAD <= |c.pad| <= MAX_HANDSHAKE_PAD
    ensures HonestRun(s, c, v, readTime).Ok? ==>
              var o := HonestRun(s, c, v, readTime).value;
              && o.client == o.server
              && ClientContexts(o.client).send == ServerContexts(o.server).recv == Context(o.client.c2sKey, o.client.c2sNonce, 0)
              && ClientContexts(o.client).recv == ServerContexts(o.server).send == Context(o.client.s2cKey, o.client.s2cNonce, 0)
              && s.kex.ecdh(c.xPriv, s.kex.xPub(v.xPriv)).Some?
              && s.kex.encapsulate(s.kex.kemPub(c.kemPriv), v.kemRand).Some?
              && o.client == DeriveSessionKeys(s.hash, s.kex.ecdh(c.xPriv, s.kex.xPub(v.xPriv)).value,
                                               s.kex.encapsulate(s.kex.kemPub(c.kemPriv), v.kemRand).value.0, c.nonce, c.nonce)
  {
    hide DecodeClientHello, EncodeClientHello, Finish, DeriveSessionKeys, MacVerifies, Lookup, EncodeServerHello;
    if HonestRun(s, c, v, readTime).Ok? {
      var wire := EncodeClientHello(s, HelloOf(s, c), c.pad).value;
      PublicFields(s, HelloOf(s, c), c.pad, Lookup(s, v.uuids, wire).value);
      assert s.kex.ecdh(c.xPriv, s.kex.xPub(v.xPriv)) == s.kex.ecdh(v.xPriv, s.kex.xPub(c.xPriv));
      SameSecrets(s, Authenticate(s, v.uuids, wire).value, v.answered % TWO32, c.xPriv, c.kemPriv, v.xPriv, v.kemRand,
        c.uuid, readTime);
    }
  }

  /** The table resolves the hello of `c` to its own UUID. */
  predicate Resolves(s: Suite, c: ClientInput, uuids: seq<Bytes16>)
    requires MIN_HANDSHAKE_PAD <= |c.pad| <= MAX_HANDSHAKE_PAD
  {
    var r := EncodeClientHello(s, HelloOf(s, c), c.pad);
    r.Ok? && |r.value| >= MAC_LEN && Lookup(s, uuids, r.value) == Some(c.uuid)
  }

  /** When the table resolves the hello to its own UUID, an honest run succeeds exactly when the command is valid, the
      two timestamp checks pass, the cache does not remember the pair and X25519 does not refuse the keys; the server then
      has learnt the client's command and address. */
  lemma HonestRunSucceeds(s: Suite, c: ClientInput, v: ServerInput, readTime: int)
    requires MIN_HANDSHAKE_PAD <= |c.pad| <= MAX_HANDSHAKE_PAD && Resolves(s, c, v.uuids)
    ensures HonestRun(s, c, v, readTime).Ok? <==>
              && (c.command == COMMAND_TCP || c.command == COMMAND_UDP)
              && v.checked - 120 <= c.time % TWO32 <= v.checked + 120
              && v.Admitted(ReplayKey(c.uuid, c.nonce))
              && s.kex.ecdh(v.xPriv, s.kex.xPub(c.xPriv)).Some?
              && readTime - 120 <= v.answered % TWO32 <= readTime + 120
    ensures HonestRun(s, c, v, readTime).Ok? ==>
              var seen := HonestRun(s, c, v, readTime).value.seen;
              && seen.uuid == c.uuid && seen.command == c.command && seen.address == Carried(c.addr) && seen.nonce == c.nonce
              && seen.timestamp == c.time % TWO32
  {
    hide DecodeClientHello, EncodeClientHello, DeriveSessionKeys, MacVerifies, EncodeServerHello, DecodeServerHello;
    hide AppendAddress, Carried, Lookup;
    HelloRoundTrip(s, HelloOf(s, c), c.pad);
    var wire := EncodeClientHello(s, HelloOf(s, c), c.pad).value;
    var ch := HelloOf(s, c).(address := Carried(c.addr));
    assert DecodeClientHello(s, wire, c.uuid) == Ok(ch);
    var (shared, cipher) := s.kex.encapsulate(ch.pqPub, v.kemRand).value;
    DecodedServerFields(s, ServerHello(c.nonce, s.kex.xPub(v.xPriv), cipher, v.answered % TWO32, 0), c.uuid, c.uuid);
    assert s.kex.ecdh(c.xPriv, s.kex.xPub(v.xPriv)) == s.kex.ecdh(v.xPriv, s.kex.xPub(c.xPriv));
  }

  /** The 32-bit timestamp bounds the protocol's life: two clocks within the window of each other pass the check
      exactly while the sender's is below 2^32 seconds. */
  lemma ClocksPassUntil2106(t0: nat, t1: nat)
    requires t1 - 120 <= t0 <= t1 + 120
    ensures AbsDiff(t0 % TWO32, t1) <= TIMESTAMP_WINDOW <==> t0 < TWO32
  {
    if t0 >= TWO32 {
      assert t0 == (t0 / TWO32) * TWO32 + t0 % TWO32;
    }
  }

  /** After an honest run, whatever one side encodes in order the other decodes, in both directions. */
  lemma AgreedSessionWorks(s: Suite, c: ClientInput, v: ServerInput, readTime: int, up: seq<Sent>, down: seq<Sent>)
    requires MIN_HANDSHAKE_PAD <= |c.pad| <= MAX_HANDSHAKE_PAD && HonestRun(s, c, v, readTime).Ok?
    requires AllEncodable(up) && AllEncodable(down)
    ensures var o := HonestRun(s, c, v, readTime).value;
            var client, server := ClientContexts(o.client), ServerContexts(o.server);
            && DecodeMany(s.aead, server.recv, EncodeAll(s.aead, client.send, up), |up|)
               == Some(Run(FramesOf(up), client.send.After(|up|), []))
            && DecodeMany(s.aead, client.recv, EncodeAll(s.aead, server.send, down), |down|)
               == Some(Run(FramesOf(down), server.send.After(|down|), []))
  {
    hide HonestRun, DecodeMany, EncodeAll, ClientContexts, ServerContexts;
    KeyAgreement(s, c, v, readTime);
    var o := HonestRun(s, c, v, readTime).value;
    var client, server := ClientContexts(o.client), ServerContexts(o.server);
    BackToBack(s.aead, client.send, up, []);
    BackToBack(s.aead, server.send, down, []);
    assert EncodeAll(s.aead, client.send, up) + [] == EncodeAll(s.aead, client.send, up);
    assert EncodeAll(s.aead, server.send, down) + [] == EncodeAll(s.aead, server.send, down);
  }

  /** The hash does not collide on the two key labels. */
  ghost predicate LabelsApart(h: Hashes) {
    forall prk :: h.expand(prk, "EWPv2 c2s key", 32) != h.expand(prk, "EWPv2 s2c key", 32)
  }

  /** Where the network theorems start: an honest run gives both ends fresh contexts, mirrored, and the two directions are
      separated whenever the hash does not collide on their labels. */
  lemma SessionIsSeparated(s: Suite, c: ClientInput, v: ServerInput, readTime: int)
    requires MIN_HANDSHAKE_PAD <= |c.pad| <= MAX_HANDSHAKE_PAD && HonestRun(s, c, v, readTime).Ok?
    ensures var o := HonestRun(s, c, v, readTime).value;
            var k := NetworkRuns.Keys(ClientContexts(o.client).send, ServerContexts(o.server).send);
            && k.Fresh() && (LabelsApart(s.hash) ==> k.Separated())
            && ClientContexts(o.client).recv == k.s2c && ServerContexts(o.server).recv == k.c2s
  {
    hide HonestRun, LabelsApart;
    KeyAgreement(s, c, v, readTime);
    if LabelsApart(s.hash) {
      KeysApart(s.hash, s.kex.ecdh(c.xPriv, s.kex.xPub(v.xPriv)).value,
                s.kex.encapsulate(s.kex.kemPub(c.kemPriv), v.kemRand).value.0, c.nonce);
    }
  }

  lemma KeysApart(h: Hashes, classical: Bytes32, pq: Bytes, nonce: Bytes12)
    requires LabelsApart(h)
    ensures DeriveSessionKeys(h, classical, pq, nonce, nonce).c2sKey != DeriveSessionKeys(h, classical, pq, nonce, nonce).s2cKey
  {
  }
}
