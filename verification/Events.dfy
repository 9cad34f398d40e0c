/** What the Send* methods put into frames and what Recv makes of a frame (securestream.go), as values. */
module Events {
  import opened Octets
  import opened Crypto
  import opened Addresses
  import opened Frames

  datatype Event = Event(kind: Byte, gid: Bytes8, addr: Address, hasAddr: bool, payload: Bytes)

  function NoGid(): Bytes8 { Zeros(8) }

  predicate CarriesTarget(kind: Byte) {
    kind == UDP_NEW || kind == UDP_DATA || kind == UDP_PROBE_RESP
  }

  predicate CarriesGidOnly(kind: Byte) {
    kind == UDP_END || kind == UDP_PROBE_REQ
  }

  /** The event Recv returns for a decoded frame. */
  function EventOf(f: Frame): Result<Event> {
    if CarriesTarget(f.kind) then
      match ParseUdpMeta(f.meta)
      case Err(e) => Err(e)
      case Ok(m) => Ok(Event(f.kind, m.gid, m.addr, m.hasAddr, f.payload))
    else if CarriesGidOnly(f.kind) then
      if |f.meta| < 8 then Err(UdpMetaTooShort)
      else Ok(Event(f.kind, f.meta[..8], NO_ADDRESS, false, f.payload))
    else Ok(Event(f.kind, NoGid(), NO_ADDRESS, false, f.payload))
  }

  /** Recv on one transport message. Bytes behind the frame are ignored. */
  function Receive(a: Aead, c: Context, msg: Bytes): Result<Event> {
    match DecodeFrame(a, c, msg)
    case Bad(e) => Err(e)
    case Good(f, _) => EventOf(f)
  }

  /** The events of successive Recv calls on `msgs`, up to the first that fails. */
  function Received(a: Aead, c: Context, msgs: seq<Bytes>): (r: seq<Event>)
    ensures |r| <= |msgs|
  {
    if msgs == [] then []
    else
      var n := |msgs| - 1;
      var before := Received(a, c, msgs[..n]);
      if |before| < n then before
      else
        match Receive(a, c.After(n), msgs[n])
        case Err(_) => before
        case Ok(ev) => before + [ev]
  }

  lemma ReceivedSnoc(a: Aead, c: Context, msgs: seq<Bytes>, msg: Bytes)
    requires |Received(a, c, msgs)| == |msgs|
    ensures Received(a, c, msgs + [msg])
            == Received(a, c, msgs) + match Receive(a, c.After(|msgs|), msg) case Err(_) => [] case Ok(ev) => [ev]
  {
    hide Receive;
    assert (msgs + [msg])[..|msgs|] == msgs;
  }

  /** One call of a Send* method, SendTCPData standing for one of its frames. */
  datatype Op =
    | TcpData(payload: Bytes)
    | UdpNew(gid: Bytes8, target: Address, payload: Bytes)
    | UdpData(gid: Bytes8, target: Address, payload: Bytes)
    | UdpEnd(gid: Bytes8)
    | ProbeReq(gid: Bytes8)
    | ProbeResp(gid: Bytes8, target: Address)
    | Ping(payload: Bytes)
    | Pong(payload: Bytes)
    | CoverPad
  {
    predicate HasTarget() { UdpNew? || UdpData? || ProbeResp? }

    function Kind(): Byte {
      match this
      case TcpData(_) => TCP_DATA
      case UdpNew(_, _, _) => UDP_NEW
      case UdpData(_, _, _) => UDP_DATA
      case UdpEnd(_) => UDP_END
      case ProbeReq(_) => UDP_PROBE_REQ
      case ProbeResp(_, _) => UDP_PROBE_RESP
      case Ping(_) => PING
      case Pong(_) => PONG
      case CoverPad => PADDING_ONLY
    }

    function Body(): Bytes {
      match this
      case TcpData(p) => p
      case UdpNew(_, _, p) => p
      case UdpData(_, _, p) => p
      case Ping(p) => p
      case Pong(p) => p
      case _ => []
    }

    /** The frame handed to sendFrame. */
    function ToFrame(): Result<Frame> {
      if HasTarget() then
        match BuildUdpMeta(gid, target)
        case Err(e) => Err(e)
        case Ok(meta) => Ok(Frame(Kind(), meta, Body()))
      else Ok(Frame(Kind(), if UdpEnd? || ProbeReq? then gid else [], Body()))
    }

    /** What the caller asked the peer to see. */
    function Requested(): Event {
      if HasTarget() then
        Event(Kind(), gid, if Present(target) then target else NO_ADDRESS, Present(target), Body())
      else Event(Kind(), if UdpEnd? || ProbeReq? then gid else NoGid(), NO_ADDRESS, false, Body())
    }

    /** An address that is sent at all is canonical. */
    predicate CanonicalTarget() { HasTarget() && Present(target) ==> Canonical(target) }
  }

  /** The peer sees what was asked for, exactly when the target it was given is canonical; only an over-long
      domain makes a Send* method refuse before framing. */
  lemma OpArrives(op: Op)
    ensures op.ToFrame().Ok? <==> (op.HasTarget() ==> |op.target.domain| <= MAX_DOMAIN_LEN)
    ensures op.ToFrame().Err? ==> op.ToFrame() == Err(DomainLength)
    ensures op.ToFrame().Ok? ==> ValidType(op.ToFrame().value.kind) && |op.ToFrame().value.meta| <= 265
    ensures op.ToFrame().Ok? ==> EventOf(op.ToFrame().value).Ok?
    ensures op.ToFrame().Ok? ==> (EventOf(op.ToFrame().value) == Ok(op.Requested()) <==> op.CanonicalTarget())
  {
    if op.HasTarget() {
      UdpMetaRoundTrip(op.gid, op.target);
    } else if op.UdpEnd? || op.ProbeReq? {
      assert op.gid[..8] == op.gid;
    }
  }

  /** The event of a frame with a target. */
  lemma TargetEvent(op: Op)
    requires op.HasTarget() && op.ToFrame().Ok?
    ensures EventOf(op.ToFrame().value)
            == Ok(Event(op.Kind(), op.gid, if Present(op.target) then Carried(op.target) else NO_ADDRESS,
                        Present(op.target), op.Body()))
  {
    UdpMetaRoundTrip(op.gid, op.target);
  }

  /** What the peer receives for each call, with the type bytes of frame.go: no two calls share one. */
  lemma EventOfEach(gid: Bytes8, target: Address, p: Bytes)
    ensures EventOf(TcpData(p).ToFrame().value) == Ok(Event(0x01, Zeros(8), NO_ADDRESS, false, p))
    ensures EventOf(Ping(p).ToFrame().value) == Ok(Event(0x10, Zeros(8), NO_ADDRESS, false, p))
    ensures EventOf(Pong(p).ToFrame().value) == Ok(Event(0x11, Zeros(8), NO_ADDRESS, false, p))
    ensures EventOf(CoverPad.ToFrame().value) == Ok(Event(0x20, Zeros(8), NO_ADDRESS, false, []))
    ensures EventOf(UdpEnd(gid).ToFrame().value) == Ok(Event(0x04, gid, NO_ADDRESS, false, []))
    ensures EventOf(ProbeReq(gid).ToFrame().value) == Ok(Event(0x05, gid, NO_ADDRESS, false, []))
    ensures |target.domain| <= 253 ==>
              var has, addr := Present(target), if Present(target) then Carried(target) else NO_ADDRESS;
              && UdpNew(gid, target, p).ToFrame().Ok? && UdpData(gid, target, p).ToFrame().Ok? && ProbeResp(gid, target).ToFrame().Ok?
              && EventOf(UdpNew(gid, target, p).ToFrame().value) == Ok(Event(0x03, gid, addr, has, p))
              && EventOf(UdpData(gid, target, p).ToFrame().value) == Ok(Event(0x02, gid, addr, has, p))
              && EventOf(ProbeResp(gid, target).ToFrame().value) == Ok(Event(0x06, gid, addr, has, []))
  {
    hide BuildUdpMeta, ParseUdpMeta;
    assert gid[..8] == gid;
    if |target.domain| <= 253 {
      UdpMetaRoundTrip(gid, target);
    }
  }
}
