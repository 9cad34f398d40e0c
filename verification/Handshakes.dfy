/** The hello messages of the hybrid handshake (handshake.go): byte-exact codecs of both. */
module Handshakes {
  import opened Octets
  import opened Crypto
  import opened Kdf
  import opened Addresses
  import opened Frames

  const COMMAND_TCP: Byte := 1
  const COMMAND_UDP: Byte := 2

  datatype ClientHello = ClientHello(
    nonce: Bytes12, classicalPub: Bytes32, pqPub: MlkemPub,
    timestamp: U32, uuid: Bytes16, command: Byte, address: Address)

  datatype ServerHello = ServerHello(
    nonceEcho: Bytes12, classicalPub: Bytes32, pqCipher: MlkemCipher, serverTime: U32, status: Byte)

  // ------------------------------------------------------------------
  // Inner plaintext: Timestamp(4) || UUID(16) || Command(1) || Address || PadLen(2) || Pad
  // ------------------------------------------------------------------

  datatype Inner = Inner(timestamp: U32, uuid: Bytes16, command: Byte, address: Address)

  function BuildInner(i: Inner, pad: Bytes): Result<Bytes>
    requires |pad| < TWO16
  {
    match AppendAddress([], i.address)
    case Err(e) => Err(e)
    case Ok(addr) => Ok(PutUint(i.timestamp, 4) + i.uuid + [i.command] + addr + PutUint(|pad|, 2) + pad)
  }

  function ParseInner(plain: Bytes): Result<Inner> {
    if |plain| < 24 then Err(PlaintextMalformed)
    else
      match DecodeAddress(plain[21..])
      case Err(_) => Err(PlaintextMalformed)
      case Ok((addr, n)) =>
        var pos := 21 + n;
        if |plain| < pos + 2 then Err(PlaintextMalformed)
        else if |plain| != pos + 2 + GetUint(plain[pos..pos + 2]) then Err(PlaintextMalformed)
        else Ok(Inner(GetUint(plain[0..4]), plain[4..20], plain[20], addr))
  }

  lemma InnerRoundTrip(i: Inner, pad: Bytes)
    requires |pad| < TWO16 && BuildInner(i, pad).Ok?
    ensures ParseInner(BuildInner(i, pad).value) == Ok(i.(address := Carried(i.address)))
    ensures |BuildInner(i, pad).value| == 23 + EncodedLen(i.address) + |pad|
    ensures 5 <= EncodedLen(i.address) <= 257
  {
    hide PutUint, GetUint, DecodeAddress, AppendAddress, Carried;
    var addr := AppendAddress([], i.address).value;
    AppendShape([], i.address);
    var plain := BuildInner(i, pad).value;
    var tail := PutUint(|pad|, 2) + pad;
    AddressRoundTrip(i.address, tail);
    assert plain[21..] == addr + tail;
    assert plain[0..4] == PutUint(i.timestamp, 4) && plain[4..20] == i.uuid;
    assert plain[21 + |addr|..21 + |addr| + 2] == PutUint(|pad|, 2);
  }

  /** The bytes of the inner plaintext. */
  lemma InnerBytes(i: Inner, pad: Bytes)
    requires |pad| < TWO16 && BuildInner(i, pad).Ok?
    ensures AppendAddress([], i.address).Ok?
    ensures var b, addr := BuildInner(i, pad).value, AppendAddress([], i.address).value;
            && |b| == 23 + |addr| + |pad|
            && GetUint(b[0..4]) == i.timestamp && b[4..20] == i.uuid && b[20] == i.command && b[21..21 + |addr|] == addr
            && GetUint(b[21 + |addr|..23 + |addr|]) == |pad| && b[23 + |addr|..] == pad
  {
    hide PutUint, GetUint, AppendAddress;
    var addr, b := AppendAddress([], i.address).value, BuildInner(i, pad).value;
    var head: Bytes := PutUint(i.timestamp, 4) + i.uuid + [i.command];
    var len := PutUint(|pad|, 2);
    Parts(PutUint(i.timestamp, 4), i.uuid, [i.command]);
    Parts(head, addr, len + pad);
    assert b == head + addr + (len + pad);
    assert b[0..4] == head[..4] && b[4..20] == head[4..20] && b[20] == head[20];
    assert b[21 + |addr|..][..2] == len && b[21 + |addr|..][2..] == pad;
    assert b[21 + |addr|..23 + |addr|] == b[21 + |addr|..][..2] && b[23 + |addr|..] == b[21 + |addr|..][2..];
  }

  lemma InnerReencode(plain: Bytes) returns (pad: Bytes)
    requires ParseInner(plain).Ok?
    ensures |pad| < TWO16 && BuildInner(ParseInner(plain).value, pad) == Ok(plain)
  {
    hide PutUint, GetUint, DecodeAddress, AppendAddress;
    var i, n := ParseInner(plain).value, DecodeAddress(plain[21..]).value.1;
    AddressReencode(plain[21..]);
    pad := plain[21 + n + 2..];
    PutGetUint(plain[0..4], 4);
    PutGetUint(plain[21 + n..21 + n + 2], 2);
    assert plain == plain[0..4] + plain[4..20] + [plain[20]] + plain[21..][..n] + plain[21 + n..21 + n + 2] + pad;
  }

  // ------------------------------------------------------------------
  // ClientHello: Nonce(12) || X25519(32) || ML-KEM(1184) || CTLen(2) || ciphertext || OuterMAC(16)
  // ------------------------------------------------------------------

  const FIXED_HEADER := 1230
  const MAC_LEN := 16

  /** The plaintext header, which is also the AAD. */
  function HelloHeader(nonce: Bytes12, classical: Bytes32, pq: MlkemPub, ctLen: U16): (b: Bytes)
    ensures |b| == FIXED_HEADER
  {
    nonce + classical + pq + PutUint(ctLen, 2)
  }

  function InnerOf(ch: ClientHello): Inner { Inner(ch.timestamp, ch.uuid, ch.command, ch.address) }

  function EncodeClientHello(s: Suite, ch: ClientHello, pad: Bytes): Result<Bytes>
    requires |pad| < TWO16
  {
    match BuildInner(InnerOf(ch), pad)
    case Err(e) => Err(e)
    case Ok(inner) =>
      var ctLen := |inner| + AEAD_OVERHEAD;
      if ctLen > 65535 then Err(HandshakeLong)
      else
        var aad := HelloHeader(ch.nonce, ch.classicalPub, ch.pqPub, ctLen);
        var out := aad + Seal(s.aead, HandshakeKey(s.hash, ch.uuid, ch.nonce), ch.nonce, inner, aad);
        Ok(out + OuterMac(s.hash, ch.uuid, out))
  }

  function DecodeClientHello(s: Suite, msg: Bytes, uuid: Bytes16): Result<ClientHello> {
    if |msg| < FIXED_HEADER + AEAD_OVERHEAD + MAC_LEN then Err(HandshakeShort)
    else
      var nonce, ctLen := msg[0..12], GetUint(msg[1228..1230]);
      if ctLen <= AEAD_OVERHEAD then Err(HandshakeShort)
      else if FIXED_HEADER + ctLen + MAC_LEN != |msg| then Err(HandshakeShort)
      else
        match Open(s.aead, HandshakeKey(s.hash, uuid, nonce), nonce, msg[FIXED_HEADER..FIXED_HEADER + ctLen], msg[..FIXED_HEADER])
        case None => Err(HandshakeAeadFailed)
        case Some(plain) =>
          match ParseInner(plain)
          case Err(e) => Err(e)
          case Ok(i) => Ok(ClientHello(nonce, msg[12..44], msg[44..1228], i.timestamp, i.uuid, i.command, i.address))
  }

  /** Splits a message into what the outer MAC covers and the MAC. */
  predicate MacVerifies(s: Suite, uuid: Bytes16, msg: Bytes)
    requires |msg| >= MAC_LEN
  {
    OuterMac(s.hash, uuid, msg[..|msg| - MAC_LEN]) == msg[|msg| - MAC_LEN..]
  }

  lemma HeaderParts(nonce: Bytes12, classical: Bytes32, pq: MlkemPub, ctLen: U16, rest: Bytes)
    ensures var m := HelloHeader(nonce, classical, pq, ctLen) + rest;
            && m[..FIXED_HEADER] == HelloHeader(nonce, classical, pq, ctLen) && m[FIXED_HEADER..] == rest
            && m[0..12] == nonce && m[12..44] == classical && m[44..1228] == pq && m[1228..1230] == PutUint(ctLen, 2)
  {
    hide PutUint;
    var h := HelloHeader(nonce, classical, pq, ctLen);
    var m := h + rest;
    assert m[0..12] == h[0..12] == nonce;
    assert m[12..44] == h[12..44] == classical;
    assert m[44..1228] == h[44..1228] == pq;
    assert m[1228..1230] == h[1228..1230] == PutUint(ctLen, 2);
  }

  /** The bytes of a hello: plaintext header, ciphertext sealed with that header as associated data, and a MAC over
      everything before it. */
  lemma HelloBytes(s: Suite, ch: ClientHello, pad: Bytes)
    requires |pad| < TWO16 && EncodeClientHello(s, ch, pad).Ok?
    ensures BuildInner(InnerOf(ch), pad).Ok?
    ensures var msg, inner := EncodeClientHello(s, ch, pad).value, BuildInner(InnerOf(ch), pad).value;
            && |msg| == 1262 + |inner|
            && msg[0..12] == ch.nonce && msg[12..44] == ch.classicalPub && msg[44..1228] == ch.pqPub
            && GetUint(msg[1228..1230]) == |msg| - 1246
            && msg[1230..|msg| - 16] == s.aead.seal(HandshakeKey(s.hash, ch.uuid, ch.nonce), ch.nonce, inner, msg[..1230])
            && msg[|msg| - 16..] == s.hash.hmac(s.hash.sha256(ch.uuid), msg[..|msg| - 16])[..16]
  {
    hide PutUint, GetUint, HandshakeKey, BuildInner;
    var inner := BuildInner(InnerOf(ch), pad).value;
    var ctLen := |inner| + AEAD_OVERHEAD;
    var aad := HelloHeader(ch.nonce, ch.classicalPub, ch.pqPub, ctLen);
    var ct := Seal(s.aead, HandshakeKey(s.hash, ch.uuid, ch.nonce), ch.nonce, inner, aad);
    var mac := OuterMac(s.hash, ch.uuid, aad + ct);
    HeaderParts(ch.nonce, ch.classicalPub, ch.pqPub, ctLen, ct + mac);
    hide HelloHeader, OuterMac;
    var msg := EncodeClientHello(s, ch, pad).value;
    assert msg == aad + ct + mac == aad + (ct + mac);
    Parts(aad, ct, mac);
    assert msg[..|msg| - 16] == aad + ct;
    MacBytes(s, ch.uuid, aad + ct);
  }

  lemma MacBytes(s: Suite, uuid: Bytes16, b: Bytes)
    ensures OuterMac(s.hash, uuid, b) == s.hash.hmac(s.hash.sha256(uuid), b)[..16]
  {
  }

  /** Whatever its padding, an encoded hello carries a valid outer MAC and decodes, under its UUID, to the same fields. */
  lemma HelloDecodes(s: Suite, ch: ClientHello, pad: Bytes)
    requires |pad| < TWO16 && EncodeClientHello(s, ch, pad).Ok?
    ensures var msg := EncodeClientHello(s, ch, pad).value;
            && |msg| == 1285 + EncodedLen(ch.address) + |pad|
            && MacVerifies(s, ch.uuid, msg)
            && DecodeClientHello(s, msg, ch.uuid) == Ok(ch.(address := Carried(ch.address)))
  {
    hide GetUint, ParseInner, HandshakeKey, OuterMac, Carried, BuildInner, EncodeClientHello;
    HelloBytes(s, ch, pad);
    InnerRoundTrip(InnerOf(ch), pad);
    var msg, inner := EncodeClientHello(s, ch, pad).value, BuildInner(InnerOf(ch), pad).value;
    MacBytes(s, ch.uuid, msg[..|msg| - 16]);
    assert msg[FIXED_HEADER..FIXED_HEADER + (|msg| - 1246)] == msg[1230..|msg| - 16];
  }

  /** With a pad of the spec's size, encoding fails only for an address that cannot be encoded, so ErrHandshakeLong
      never happens; the result has 1354 to 2566 bytes, carries a valid outer MAC and decodes, under its UUID, to the
      same fields. */
  lemma HelloRoundTrip(s: Suite, ch: ClientHello, pad: Bytes)
    requires MIN_HANDSHAKE_PAD <= |pad| <= MAX_HANDSHAKE_PAD
    ensures EncodeClientHello(s, ch, pad).Ok? <==> AppendAddress([], ch.address).Ok?
    ensures EncodeClientHello(s, ch, pad).Err? ==>
              EncodeClientHello(s, ch, pad) == Err(if Present(ch.address) then DomainLength else InvalidAddress)
    ensures EncodeClientHello(s, ch, pad).Ok? ==>
              var msg := EncodeClientHello(s, ch, pad).value;
              && 1354 <= |msg| <= 2566
              && MacVerifies(s, ch.uuid, msg)
              && DecodeClientHello(s, msg, ch.uuid) == Ok(ch.(address := Carried(ch.address)))
  {
    hide PutUint, HandshakeKey, OuterMac, Carried, HelloHeader, DecodeClientHello, AppendAddress;
    AppendShape([], ch.address);
    if AppendAddress([], ch.address).Ok? {
      InnerRoundTrip(InnerOf(ch), pad);
      HelloDecodes(s, ch, pad);
    }
  }

  /** Conversely, a message that passes the MAC, decodes, and names the UUID it was checked under is byte for byte the
      encoding of its decoded fields and some padding: no byte is unaccounted for. */
  lemma HelloReencode(s: Suite, msg: Bytes, uuid: Bytes16) returns (pad: Bytes)
    requires |msg| >= MAC_LEN && MacVerifies(s, uuid, msg)
    requires DecodeClientHello(s, msg, uuid).Ok? && DecodeClientHello(s, msg, uuid).value.uuid == uuid
    ensures |pad| < TWO16
    ensures EncodeClientHello(s, DecodeClientHello(s, msg, uuid).value, pad) == Ok(msg)
  {
    hide PutUint, GetUint, ParseInner, BuildInner, HandshakeKey, OuterMac, HelloHeader;
    var ch := DecodeClientHello(s, msg, uuid).value;
    var ctLen := GetUint(msg[1228..1230]);
    var aad, ct := msg[..FIXED_HEADER], msg[FIXED_HEADER..FIXED_HEADER + ctLen];
    var plain := Open(s.aead, HandshakeKey(s.hash, uuid, ch.nonce), ch.nonce, ct, aad).value;
    pad := InnerReencode(plain);
    HeaderReencode(msg);
    assert msg[..|msg| - MAC_LEN] == aad + ct;
    assert msg == aad + ct + msg[|msg| - MAC_LEN..];
  }

  lemma HeaderReencode(msg: Bytes)
    requires |msg| >= FIXED_HEADER
    ensures msg[..FIXED_HEADER] == HelloHeader(msg[0..12], msg[12..44], msg[44..1228], GetUint(msg[1228..1230]))
  {
    hide PutUint, GetUint;
    PutGetUint(msg[1228..1230], 2);
    assert msg[..FIXED_HEADER] == msg[0..12] + msg[12..44] + msg[44..1228] + msg[1228..1230];
  }

  // ------------------------------------------------------------------
  // ServerHello: NonceEcho(12) || X25519(32) || ML-KEM ciphertext(1088) || ServerTime(4) || Status(1) || OuterMAC(16)
  // ------------------------------------------------------------------

  const SERVER_HELLO_LEN := 1153

  function ServerBody(sh: ServerHello): (b: Bytes)
    ensures |b| == SERVER_HELLO_LEN - MAC_LEN
  {
    sh.nonceEcho + sh.classicalPub + sh.pqCipher + PutUint(sh.serverTime, 4) + [sh.status]
  }

  function EncodeServerHello(s: Suite, sh: ServerHello, uuid: Bytes16): (msg: Bytes)
    ensures |msg| == SERVER_HELLO_LEN
  {
    ServerBody(sh) + OuterMac(s.hash, uuid, ServerBody(sh))
  }

  function DecodeServerHello(s: Suite, msg: Bytes, uuid: Bytes16): Result<ServerHello> {
    if |msg| != SERVER_HELLO_LEN then Err(HandshakeShort)
    else if !MacVerifies(s, uuid, msg) then Err(OuterMacMismatch)
    else Ok(ServerHello(msg[0..12], msg[12..44], msg[44..1132], GetUint(msg[1132..1136]), msg[1136]))
  }

  lemma ServerHelloRoundTrip(s: Suite, sh: ServerHello, uuid: Bytes16)
    ensures DecodeServerHello(s, EncodeServerHello(s, sh, uuid), uuid) == Ok(sh)
  {
    hide PutUint, GetUint, OuterMac;
    var b, mac := ServerBody(sh), OuterMac(s.hash, uuid, ServerBody(sh));
    var msg := b + mac;
    assert msg[..1137] == b && msg[1137..] == mac;
    assert msg[0..12] == b[0..12] == sh.nonceEcho;
    assert msg[12..44] == b[12..44] == sh.classicalPub;
    assert msg[44..1132] == b[44..1132] == sh.pqCipher;
    assert msg[1132..1136] == b[1132..1136] == PutUint(sh.serverTime, 4);
  }

  lemma ServerHelloReencode(s: Suite, msg: Bytes, uuid: Bytes16)
    requires DecodeServerHello(s, msg, uuid).Ok?
    ensures EncodeServerHello(s, DecodeServerHello(s, msg, uuid).value, uuid) == msg
  {
    hide PutUint, GetUint, OuterMac;
    PutGetUint(msg[1132..1136], 4);
    assert msg[..1137] == msg[0..12] + msg[12..44] + msg[44..1132] + msg[1132..1136] + [msg[1136]];
    assert msg == msg[..1137] + msg[1137..];
  }

  /** The bytes of an answer. */
  lemma ServerHelloBytes(s: Suite, sh: ServerHello, uuid: Bytes16)
    ensures var msg := EncodeServerHello(s, sh, uuid);
            && |msg| == 1153 && msg[0..12] == sh.nonceEcho && msg[12..44] == sh.classicalPub && msg[44..1132] == sh.pqCipher
            && GetUint(msg[1132..1136]) == sh.serverTime && msg[1136] == sh.status
            && msg[1137..] == s.hash.hmac(s.hash.sha256(uuid), msg[..1137])[..16]
  {
    hide PutUint, GetUint;
    ServerHelloRoundTrip(s, sh, uuid);
    hide ServerBody;
    var b, mac := ServerBody(sh), OuterMac(s.hash, uuid, ServerBody(sh));
    assert (b + mac)[..1137] == b && (b + mac)[1137..] == mac;
  }

  /** Decoding a hello opens its ciphertext under the key of the UUID, the nonce at its front and its whole header. */
  lemma HelloIsBound(s: Suite, msg: Bytes, uuid: Bytes16)
    requires DecodeClientHello(s, msg, uuid).Ok?
    ensures |msg| >= 1262
    ensures exists plain ::
              msg[1230..|msg| - 16] == s.aead.seal(HandshakeKey(s.hash, uuid, msg[0..12]), msg[0..12], plain, msg[..1230])
    ensures Canonical(DecodeClientHello(s, msg, uuid).value.address)
  {
    hide HandshakeKey, GetUint, PutUint, DecodeAddress;
    var ctLen := GetUint(msg[1228..1230]);
    var plain := Open(s.aead, HandshakeKey(s.hash, uuid, msg[0..12]), msg[0..12],
                      msg[FIXED_HEADER..FIXED_HEADER + ctLen], msg[..FIXED_HEADER]).value;
    assert msg[1230..|msg| - 16] == s.aead.seal(HandshakeKey(s.hash, uuid, msg[0..12]), msg[0..12], plain, msg[..1230]);
    AddressReencode(plain[21..]);
  }
}
