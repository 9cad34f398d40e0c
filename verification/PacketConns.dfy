/** packetConn (packetconn.go) and the UDP start-up of the server (server.go). */
module PacketConns {
  import opened Octets
  import opened Crypto
  import opened Addresses
  import opened Frames
  import opened FrameCipher
  import opened Framing
  import opened Events
  import opened SecureStreams
  import opened Scanning

  datatype Datagram = Datagram(payload: Bytes, target: Address)

  // ------------------------------------------------------------------
  // What a connection puts on the stream
  // ------------------------------------------------------------------

  /** The i-th frame of a connection that wrote `ds`: a client opens with UDP_NEW to the default destination, whatever
      target was passed; everything else is UDP_DATA; UDP_END comes last. */
  function OpAt(isServer: bool, gid: Bytes8, dst: Address, ds: seq<Datagram>, i: nat): Op
    requires i <= |ds|
  {
    if i == |ds| then UdpEnd(gid)
    else if i == 0 && !isServer then UdpNew(gid, dst, ds[0].payload)
    else UdpData(gid, ds[i].target, ds[i].payload)
  }

  function OpsOf(isServer: bool, gid: Bytes8, dst: Address, ds: seq<Datagram>, ended: bool): (r: seq<Op>)
    ensures |r| == |ds| + if ended then 1 else 0
  {
    seq(|ds| + if ended then 1 else 0, i requires 0 <= i < |ds| + (if ended then 1 else 0) => OpAt(isServer, gid, dst, ds, i))
  }

  lemma OpsWritten(isServer: bool, gid: Bytes8, dst: Address, ds: seq<Datagram>, d: Datagram)
    ensures OpsOf(isServer, gid, dst, ds + [d], false)
            == OpsOf(isServer, gid, dst, ds, false) + [OpAt(isServer, gid, dst, ds + [d], |ds|)]
    ensures OpsOf(isServer, gid, dst, ds, true) == OpsOf(isServer, gid, dst, ds, false) + [UdpEnd(gid)]
  {
  }

  predicate IsUdpKind(kind: Byte) { kind == UDP_NEW || kind == UDP_DATA || kind == UDP_END }

  /** The UDP frames among `fs`: keepalive, cover and probe frames share the stream and do not count. */
  function UdpFrames(fs: seq<Sent>): seq<Frame> {
    if fs == [] then []
    else
      var f := fs[|fs| - 1].frame;
      UdpFrames(fs[..|fs| - 1]) + if IsUdpKind(f.kind) then [f] else []
  }

  lemma UdpFramesSnoc(fs: seq<Sent>, s: Sent)
    ensures UdpFrames(fs + [s]) == UdpFrames(fs) + if IsUdpKind(s.frame.kind) then [s.frame] else []
  {
    assert (fs + [s])[..|fs|] == fs;
  }

  lemma {:induction false} UdpFramesAppend(xs: seq<Sent>, ys: seq<Sent>)
    ensures UdpFrames(xs + ys) == UdpFrames(xs) + UdpFrames(ys)
  {
    if ys == [] {
      assert xs + ys == xs;
    } else {
      hide UdpFrames;
      var front, last := ys[..|ys| - 1], ys[|ys| - 1];
      assert ys == front + [last] && xs + ys == (xs + front) + [last];
      UdpFramesAppend(xs, front);
      UdpFramesSnoc(xs + front, last);
      UdpFramesSnoc(front, last);
    }
  }

  /** The frames of `ops` are `frames` from `start` on. */
  ghost predicate EmittedAs(ops: seq<Op>, frames: seq<Frame>, start: nat) {
    && |frames| == start + |ops|
    && forall i | 0 <= i < |ops| :: ops[i].ToFrame() == Ok(frames[start + i])
  }

  lemma EmittedNone(isServer: bool, gid: Bytes8, dst: Address, frames: seq<Frame>)
    ensures EmittedAs(OpsOf(isServer, gid, dst, [] + [], false), frames, |frames|)
  {
  }

  lemma EmittedOne(ops: seq<Op>, fs: seq<Sent>, start: nat, op: Op, s: Sent)
    requires EmittedAs(ops, UdpFrames(fs), start) && op.ToFrame() == Ok(s.frame) && IsUdpKind(op.Kind())
    ensures EmittedAs(ops + [op], UdpFrames(fs + [s]), start)
  {
    hide UdpFrames;
    UdpFramesSnoc(fs, s);
  }

  /** One datagram more, reported sent or not. */
  lemma EmittedWrite(isServer: bool, gid: Bytes8, dst: Address, ds: seq<Datagram>, d: Datagram, fs: seq<Sent>, s: Sent, start: nat)
    requires EmittedAs(OpsOf(isServer, gid, dst, ds, false), UdpFrames(fs), start)
    requires OpAt(isServer, gid, dst, ds + [d], |ds|).ToFrame() == Ok(s.frame)
    ensures EmittedAs(OpsOf(isServer, gid, dst, ds + [d], false), UdpFrames(fs + [s]), start)
    ensures ds + [d] + [] == ds + [d]
  {
    hide UdpFrames, EmittedAs, OpsOf;
    OpsWritten(isServer, gid, dst, ds, d);
    EmittedOne(OpsOf(isServer, gid, dst, ds, false), fs, start, OpAt(isServer, gid, dst, ds + [d], |ds|), s);
  }

  lemma EmittedOther(fs: seq<Sent>, op: Op, s: Sent)
    requires op.ToFrame() == Ok(s.frame) && !IsUdpKind(op.Kind())
    ensures UdpFrames(fs + [s]) == UdpFrames(fs)
  {
    UdpFramesSnoc(fs, s);
  }

  // ------------------------------------------------------------------
  // What a connection makes of received events
  // ------------------------------------------------------------------

  predicate IsDatagram(ev: Event, gid: Bytes8) {
    (ev.kind == UDP_DATA || ev.kind == UDP_NEW) && ev.gid == gid
  }

  function AsDatagram(ev: Event, dflt: Address): Datagram {
    Datagram(ev.payload, if ev.hasAddr then ev.addr else dflt)
  }

  /** The datagrams of sub-session `gid` among `evs`, in order. */
  function DatagramsOf(gid: Bytes8, dflt: Address, evs: seq<Event>): seq<Datagram> {
    if evs == [] then []
    else
      var n := |evs| - 1;
      DatagramsOf(gid, dflt, evs[..n]) + if IsDatagram(evs[n], gid) then [AsDatagram(evs[n], dflt)] else []
  }

  lemma DatagramsSnoc(gid: Bytes8, dflt: Address, evs: seq<Event>, ev: Event)
    ensures DatagramsOf(gid, dflt, evs + [ev])
            == DatagramsOf(gid, dflt, evs) + if IsDatagram(ev, gid) then [AsDatagram(ev, dflt)] else []
  {
    assert (evs + [ev])[..|evs|] == evs;
  }

  /** How often sub-session `gid` ends in `evs`. */
  function EndsOf(gid: Bytes8, evs: seq<Event>): nat {
    if evs == [] then 0
    else
      var n := |evs| - 1;
      EndsOf(gid, evs[..n]) + if evs[n].kind == UDP_END && evs[n].gid == gid then 1 else 0
  }

  lemma EndsSnoc(gid: Bytes8, evs: seq<Event>, ev: Event)
    ensures EndsOf(gid, evs + [ev]) == EndsOf(gid, evs) + if ev.kind == UDP_END && ev.gid == gid then 1 else 0
  {
    assert (evs + [ev])[..|evs|] == evs;
  }

  /** A nil slice and an empty one: the payload decoder returns nil for an empty payload. */
  function NilIfEmpty(b: Bytes): Option<Bytes> { if b == [] then None else Some(b) }

  function Pending(o: Option<Bytes>, src: Address): seq<Datagram> {
    if o.None? then [] else [Datagram(o.value, src)]
  }

  /** How a ReadFrom that received `f` ends: with the next datagram, with EOF at UDP_END, with an error at a frame that
      does not belong here, or, having skipped everything, with the stream's own error. */
  function FromError(f: Found): Option<Error> {
    if f.err.Some? then f.err
    else if f.news == [] then Some(UnexpectedFrame)
    else
      var kind := f.news[|f.news| - 1].kind;
      if kind == UDP_DATA || kind == UDP_NEW then None else if kind == UDP_END then Some(Eof) else Some(UnexpectedFrame)
  }

  /** Every datagram among `evs` was returned, behind the first one; so was every end, and none while the first datagram
      was pending. */
  ghost predicate Accounted(gid: Bytes8, dflt: Address, first: seq<Datagram>, evs: seq<Event>, pending: Option<Bytes>,
                            returned: seq<Datagram>, eofs: nat) {
    && returned + Pending(pending, dflt) == first + DatagramsOf(gid, dflt, evs)
    && eofs == EndsOf(gid, evs) && (eofs > 0 ==> pending.None?)
  }

  lemma AccountedNone(gid: Bytes8, dflt: Address, pending: Option<Bytes>)
    ensures Accounted(gid, dflt, Pending(pending, dflt), [], pending, [], 0)
  {
  }

  lemma AccountedFirst(gid: Bytes8, dflt: Address, first: seq<Datagram>, evs: seq<Event>, pending: Bytes,
                       returned: seq<Datagram>, eofs: nat)
    requires Accounted(gid, dflt, first, evs, Some(pending), returned, eofs)
    ensures Accounted(gid, dflt, first, evs, None, returned + [Datagram(pending, dflt)], eofs)
  {
    var now := returned + [Datagram(pending, dflt)];
    assert now + [] == now;
  }

  lemma AccountedNext(gid: Bytes8, dflt: Address, first: seq<Datagram>, evs: seq<Event>, ev: Event,
                      returned: seq<Datagram>, eofs: nat)
    requires Accounted(gid, dflt, first, evs, None, returned, eofs)
    ensures Accounted(gid, dflt, first, evs + [ev], None,
                      if IsDatagram(ev, gid) then returned + [AsDatagram(ev, dflt)] else returned,
                      if ev.kind == UDP_END && ev.gid == gid then eofs + 1 else eofs)
  {
    hide DatagramsOf, EndsOf;
    DatagramsSnoc(gid, dflt, evs, ev);
    EndsSnoc(gid, evs, ev);
    assert returned + [] == returned && returned + [AsDatagram(ev, dflt)] + [] == returned + [AsDatagram(ev, dflt)];
    assert DatagramsOf(gid, dflt, evs) + [] == DatagramsOf(gid, dflt, evs);
  }

  class PacketConn {
    const stream: SecureStream
    const hasUnderlying: bool
    const gid: Bytes8
    const defaultDst: Address
    const isServer: bool
    var pendingFirst: Option<Bytes>
    var isOpen: bool
    var done: bool
    /** UDP frames and events of the stream that came before this connection. */
    ghost const sentBefore: nat
    ghost const gotBefore: nat
    /** The datagram that came with UDP_NEW, if any; datagrams written without error; the one whose frame was handed to
        the connection in a write that failed; was UDP_END; datagrams read; ends of the sub-session read. */
    ghost const first: seq<Datagram>
    ghost var written: seq<Datagram>
    ghost var doubt: seq<Datagram>
    ghost var ended: bool
    ghost var returned: seq<Datagram>
    ghost var eofs: nat

    /** One UDP frame per write and one for the end, in order and nothing else; every datagram received is either
        returned or, if it is the first, pending. */
    ghost predicate Valid()
      reads this, stream, stream.tr, stream.tr.c, stream.send, stream.recv
    {
      && stream.Valid() && Emitted() && Returned()
      && (isServer ==> isOpen) && (!isServer ==> (isOpen <==> written != []) && first == [] && pendingFirst.None?)
      && (ended ==> done) && (done ==> stream.closed)
      && |doubt| <= 1 && (doubt != [] ==> stream.closed && stream.lost != [] && !ended)
    }

    ghost predicate Emitted()
      reads this, stream
    {
      EmittedAs(OpsOf(isServer, gid, defaultDst, written + doubt, ended), UdpFrames(stream.Sealed()), sentBefore)
    }

    ghost predicate Returned()
      reads this, stream
    {
      && gotBefore <= |stream.got|
      && Accounted(gid, defaultDst, first, stream.got[gotBefore..], pendingFirst, returned, eofs)
    }

    constructor Client(stream: SecureStream, hasUnderlying: bool, dst: Address, gid: Bytes8)
      requires stream.Valid() && !stream.closed
      ensures Valid() && this.stream == stream && this.gid == gid && defaultDst == dst && !isServer && !done
      ensures sentBefore == |UdpFrames(stream.Sealed())| && gotBefore == |stream.got|
      ensures written == [] && doubt == [] && returned == [] && first == [] && this.hasUnderlying == hasUnderlying
    {
      hide SecureStream.Valid, Accounted, OpsOf, EmittedAs, UdpFrames;
      this.stream, this.hasUnderlying, this.gid, defaultDst, isServer := stream, hasUnderlying, gid, dst, false;
      pendingFirst, isOpen, done := None, false, false;
      sentBefore, gotBefore, first := |UdpFrames(stream.Sealed())|, |stream.got|, [];
      written, doubt, ended, returned, eofs := [], [], false, [], 0;
      new;
      EmittedNone(false, gid, dst, UdpFrames(stream.Sealed()));
      AccountedNone(gid, dst, None);
      assert stream.got[gotBefore..] == [];
    }

    constructor Server(stream: SecureStream, hasUnderlying: bool, gid: Bytes8, dst: Address, initial: Option<Bytes>)
      requires stream.Valid() && !stream.closed
      ensures Valid() && this.stream == stream && this.gid == gid && defaultDst == dst && isServer && !done
      ensures sentBefore == |UdpFrames(stream.Sealed())| && gotBefore == |stream.got|
      ensures written == [] && doubt == [] && returned == []
      ensures first == Pending(initial, dst) && this.hasUnderlying == hasUnderlying
    {
      hide SecureStream.Valid, Accounted, OpsOf, EmittedAs, UdpFrames;
      this.stream, this.hasUnderlying, this.gid, defaultDst, isServer := stream, hasUnderlying, gid, dst, true;
      pendingFirst, isOpen, done := initial, true, false;
      sentBefore, gotBefore, first := |UdpFrames(stream.Sealed())|, |stream.got|, Pending(initial, dst);
      written, doubt, ended, returned, eofs := [], [], false, [], 0;
      new;
      EmittedNone(true, gid, dst, UdpFrames(stream.Sealed()));
      AccountedNone(gid, dst, initial);
      assert stream.got[gotBefore..] == [];
    }

    /** WriteToAddress: a success is one datagram, one frame; a failure leaves no frame, or one the peer may see. */
    method WriteToAddress(b: Bytes, target: Address) returns (n: nat, err: Option<Error>)
      requires Valid()
      modifies this`isOpen, this`written, this`doubt, stream`sendBuf, stream`closed, stream`frmOut, stream`log,
               stream`lost, stream.sendBuf, stream.send, stream.tr.c`outgoing, stream.tr.c`failedWrites,
               stream.tr.c`open
      ensures Valid()
      ensures fresh(stream.sendBuf) || stream.sendBuf == old(stream.sendBuf)
      ensures err.None? ==> n == |b| && written == old(written) + [Datagram(b, target)] && doubt == []
      ensures err.Some? ==> n == 0 && written == old(written)
      ensures err.Some? ==> doubt == if err == Some(TransportFailure) then [Datagram(b, target)] else old(doubt)
      ensures var f := OpAt(isServer, gid, defaultDst, old(written) + [Datagram(b, target)], |old(written)|).ToFrame();
              && (f.Err? ==> err == Some(DomainLength) && stream.closed == old(stream.closed))
              && (err == Some(ClosedPipe) <==> f.Ok? && old(stream.closed))
              && (f.Ok? && !old(stream.closed) ==> PolicyVerdict(f.value, err, stream.closed))
      ensures stream.tr.c.failedWrites == old(stream.tr.c.failedWrites) + if err == Some(TransportFailure) then 1 else 0
      ensures stream.send.drawsFailed == old(stream.send.drawsFailed) + if err == Some(RandomFailure) then 1 else 0
    {
      hide SecureStream.Valid, Accounted, OpsOf, EmittedAs, UdpFrames, PolicyVerdict, Carried;
      if !isServer && !isOpen {
        err := EnsureOpen(b, target);
        n := if err.None? then |b| else 0;
        return;
      }
      ghost var d := Datagram(b, target);
      err := SendUdp(UdpData(gid, target, b), d);
      n := if err.None? then |b| else 0;
    }

    /** ensureOpen: UDP_NEW, once. `target` is what the caller asked for; the frame does not carry it. */
    method EnsureOpen(b: Bytes, ghost target: Address) returns (err: Option<Error>)
      requires Valid() && !isServer && !isOpen
      modifies this`isOpen, this`written, this`doubt, stream`sendBuf, stream`closed, stream`frmOut, stream`log,
               stream`lost, stream.sendBuf, stream.send, stream.tr.c`outgoing, stream.tr.c`failedWrites,
               stream.tr.c`open
      ensures Valid()
      ensures fresh(stream.sendBuf) || stream.sendBuf == old(stream.sendBuf)
      ensures err.None? ==> isOpen && written == [Datagram(b, target)] && doubt == []
      ensures err.Some? ==> !isOpen && written == old(written)
      ensures err.Some? ==> doubt == if err == Some(TransportFailure) then [Datagram(b, target)] else old(doubt)
      ensures var f := UdpNew(gid, defaultDst, b).ToFrame();
              && (f.Err? ==> err == Some(DomainLength) && stream.closed == old(stream.closed))
              && (err == Some(ClosedPipe) <==> f.Ok? && old(stream.closed))
              && (f.Ok? && !old(stream.closed) ==> PolicyVerdict(f.value, err, stream.closed))
      ensures stream.tr.c.failedWrites == old(stream.tr.c.failedWrites) + if err == Some(TransportFailure) then 1 else 0
      ensures stream.send.drawsFailed == old(stream.send.drawsFailed) + if err == Some(RandomFailure) then 1 else 0
    {
      hide SecureStream.Valid, Accounted, OpsOf, EmittedAs, UdpFrames, PolicyVerdict, Carried;
      err := SendUdp(UdpNew(gid, defaultDst, b), Datagram(b, target));
      if err.None? {
        isOpen := true;
      }
    }

    /** One datagram, one frame. */
    method SendUdp(op: Op, ghost d: Datagram) returns (err: Option<Error>)
      requires stream.Valid() && Emitted() && |doubt| <= 1 && (ended ==> stream.closed)
      requires doubt != [] ==> stream.closed && stream.lost != [] && !ended
      requires !op.TcpData? && op == OpAt(isServer, gid, defaultDst, written + [d], |written|)
      modifies this`written, this`doubt, stream`sendBuf, stream`closed, stream`frmOut, stream`log,
               stream`lost, stream.sendBuf, stream.send, stream.tr.c`outgoing, stream.tr.c`failedWrites,
               stream.tr.c`open
      ensures stream.Valid() && Emitted()
      ensures fresh(stream.sendBuf) || stream.sendBuf == old(stream.sendBuf)
      ensures err.None? ==> !stream.closed && written == old(written) + [d] && doubt == old(doubt) == []
      ensures err.Some? ==> written == old(written)
      ensures err.Some? ==> doubt == if err == Some(TransportFailure) then [d] else old(doubt)
      ensures err == Some(TransportFailure) ==> old(doubt) == [] && stream.closed && stream.lost != [] && !ended
      ensures old(stream.closed) ==> err.Some? && stream.closed && stream.lost == old(stream.lost)
      ensures op.ToFrame().Err? ==> err == Some(DomainLength) && stream.closed == old(stream.closed)
      ensures err == Some(ClosedPipe) <==> op.ToFrame().Ok? && old(stream.closed)
      ensures op.ToFrame().Ok? && !old(stream.closed) ==> PolicyVerdict(op.ToFrame().value, err, stream.closed)
      ensures stream.tr.c.failedWrites == old(stream.tr.c.failedWrites) + if err == Some(TransportFailure) then 1 else 0
      ensures stream.send.drawsFailed == old(stream.send.drawsFailed) + if err == Some(RandomFailure) then 1 else 0
    {
      hide SecureStream.Valid, Accounted, OpsOf, OpAt, EmittedAs, UdpFrames, PolicyVerdict, EventOf;
      ghost var fs := stream.Sealed();
      ghost var news;
      err, news := stream.SendOp(op);
      assert stream.Sealed() == fs + news && fs + [] == fs && stream.lost + [] == stream.lost;
      if news != [] {
        assert news == [news[0]] && written + doubt == written;
        EmittedWrite(isServer, gid, defaultDst, written, d, fs, news[0], sentBefore);
        if err.None? {
          written := written + [d];
        } else {
          doubt := [d];
        }
      }
    }

    /** Keepalive, cover and probe frames on the same stream leave the connection alone. */
    method SendOther(op: Op) returns (err: Option<Error>, ghost news: seq<Sent>)
      requires Valid() && !op.TcpData? && !IsUdpKind(op.Kind())
      modifies stream`sendBuf, stream`closed, stream`frmOut, stream`log,
               stream`lost, stream.sendBuf, stream.send, stream.tr.c`outgoing, stream.tr.c`failedWrites,
               stream.tr.c`open
      ensures Valid()
      ensures fresh(stream.sendBuf) || stream.sendBuf == old(stream.sendBuf)
      ensures |news| <= 1 && stream.Sealed() == old(stream.Sealed()) + news
      ensures err.None? ==> |news| == 1 && op.ToFrame() == Ok(news[0].frame)
    {
      hide SecureStream.Valid, Accounted, OpsOf, EmittedAs, UdpFrames, PolicyVerdict, EventOf;
      ghost var fs := stream.Sealed();
      err, news := stream.SendOp(op);
      assert stream.Sealed() == fs + news && fs + [] == fs;
      if news != [] {
        assert news == [news[0]];
        EmittedOther(fs, op, news[0]);
      }
    }

    /** ReadFrom: the next datagram of the sub-session, cut only to the size of `b`, which is the caller's and never the
        framer's scratch buffer. */
    method ReadFrom(b: array<Byte>) returns (n: nat, src: Address, err: Option<Error>)
      requires Valid() && b != stream.tr.readBuf
      modifies this`pendingFirst, this`returned, this`eofs, b, stream`closed, stream`taken, stream`got, stream`leftover,
               stream.recv, stream.tr, stream.tr.readBuf, stream.tr.c`incoming, stream.tr.c`read, stream.tr.c`open
      ensures Valid() && n <= b.Length
      ensures stream.tr.readBuf == old(stream.tr.readBuf) || fresh(stream.tr.readBuf)
      ensures err.None? ==>
                && |returned| == |old(returned)| + 1 && returned[..|old(returned)|] == old(returned)
                && var d := returned[|old(returned)|];
                   src == d.target && n == (if b.Length < |d.payload| then b.Length else |d.payload|) && b[..n] == d.payload[..n]
      ensures err.Some? ==> returned == old(returned) && pendingFirst.None?
      ensures eofs == old(eofs) + if err == Some(Eof) && !stream.closed then 1 else 0
      ensures old(pendingFirst).Some? ==> err.None? && stream.got == old(stream.got) && stream.closed == old(stream.closed)
      ensures old(pendingFirst).None? && (old(stream.closed) || !old(stream.tr.c.open)) ==>
                err == Some(ClosedPipe) && stream.got == old(stream.got)
      ensures old(pendingFirst).None? && !old(stream.closed) && old(stream.tr.c.open) ==>
                var f := Scan(Packets(gid), stream.aead, stream.recvStart.After(|old(stream.got)|), old(stream.tr.c.incoming));
                && stream.got == old(stream.got) + f.news && err == FromError(f) && (stream.closed <==> f.err.Some?)
    {
      hide SecureStream.Valid, Accounted, OpsOf, EmittedAs, UdpFrames, Scan, FromError;
      src := NO_ADDRESS;
      if pendingFirst.Some? {
        n := CopyOut(b, pendingFirst.value);
        src, err := defaultDst, None;
        AccountedFirst(gid, defaultDst, first, stream.got[gotBefore..], pendingFirst.value, returned, eofs);
        returned := returned + [Datagram(pendingFirst.value, defaultDst)];
        pendingFirst := None;
        return;
      }
      var ev;
      ev, err := NextDatagram();
      if err.Some? {
        return 0, src, err;
      }
      n := CopyOut(b, ev.payload);
      src := if ev.hasAddr then ev.addr else defaultDst;
    }

    /** The receive loop of ReadFrom. */
    method NextDatagram() returns (ev: Event, err: Option<Error>)
      requires Valid() && pendingFirst.None?
      modifies this`returned, this`eofs, stream`closed, stream`taken, stream`got, stream`leftover,
               stream.recv, stream.tr, stream.tr.readBuf, stream.tr.c`incoming, stream.tr.c`read, stream.tr.c`open
      ensures Valid()
      ensures stream.tr.readBuf == old(stream.tr.readBuf) || fresh(stream.tr.readBuf)
      ensures err.None? ==> returned == old(returned) + [AsDatagram(ev, defaultDst)]
      ensures err.Some? ==> returned == old(returned)
      ensures eofs == old(eofs) + if err == Some(Eof) && !stream.closed then 1 else 0
      ensures old(stream.closed) || !old(stream.tr.c.open) ==> err == Some(ClosedPipe) && stream.got == old(stream.got)
      ensures !old(stream.closed) && old(stream.tr.c.open) ==>
                var f := Scan(Packets(gid), stream.aead, stream.recvStart.After(|old(stream.got)|), old(stream.tr.c.incoming));
                && stream.got == old(stream.got) + f.news && err == FromError(f) && (stream.closed <==> f.err.Some?)
    {
      hide Valid, Scan, Skipped, NextOf, Behind, Ahead;
      ghost var live := !stream.closed && stream.tr.c.open;
      ghost var whole := Scan(Packets(gid), stream.aead, stream.recvStart.After(|stream.got|), stream.tr.c.incoming);
      ghost var seen: seq<Event> := [];
      AheadStart(whole);
      while true
        invariant Valid() && pendingFirst.None? && returned == old(returned) && eofs == old(eofs)
        invariant stream.got == old(stream.got) + seen
        invariant live == (!stream.closed && stream.tr.c.open) && (!live ==> seen == [])
        invariant live ==>
                    Ahead(whole, seen, Scan(Packets(gid), stream.aead, stream.recvStart.After(|stream.got|), stream.tr.c.incoming))
        invariant stream.tr.readBuf == old(stream.tr.readBuf) || fresh(stream.tr.readBuf)
        decreases |stream.tr.c.incoming|
      {
        ghost var c, bytes := stream.recvStart.After(|stream.got|), stream.tr.c.incoming;
        NextAfter(stream.recvStart, |stream.got|);
        var r := NextEvent();
        if live {
          AheadNext(whole, seen, Packets(gid), stream.aead, c, bytes);
        }
        if r.Err? {
          return Event(PING, NoGid(), NO_ADDRESS, false, []), Some(r.error);
        }
        ev := r.value;
        assert stream.got == old(stream.got) + (seen + [ev]);
        seen := seen + [ev];
        SkipsPackets(gid, ev);
        if ev.kind == UDP_DATA || ev.kind == UDP_NEW {
          if ev.gid == gid {
            return ev, None;
          }
        } else if ev.kind == UDP_END {
          if ev.gid == gid {
            return ev, Some(Eof);
          }
        } else if ev.kind !in {PING, PONG, PADDING_ONLY, UDP_PROBE_REQ, UDP_PROBE_RESP} {
          return ev, Some(UnexpectedFrame);
        }
      }
    }

    /** Recv, with the books kept: a datagram or an end of this sub-session counts as returned. */
    method NextEvent() returns (r: Result<Event>)
      requires Valid() && pendingFirst.None?
      modifies this`returned, this`eofs, stream`closed, stream`taken, stream`got, stream`leftover,
               stream.recv, stream.tr, stream.tr.readBuf, stream.tr.c`incoming, stream.tr.c`read, stream.tr.c`open
      ensures Valid()
      ensures stream.tr.readBuf == old(stream.tr.readBuf) || fresh(stream.tr.readBuf)
      ensures r.Err? ==> stream.closed && stream.got == old(stream.got) && returned == old(returned) && eofs == old(eofs)
      ensures if old(stream.closed) || !old(stream.tr.c.open) then r == Err(ClosedPipe)
              else r == NextOf(stream.aead, stream.recvStart.After(|old(stream.got)|), old(stream.tr.c.incoming))
      ensures r.Ok? ==>
                && stream.tr.c.open && stream.tr.c.incoming == Behind(old(stream.tr.c.incoming))
                && !stream.closed && stream.got == old(stream.got) + [r.value]
                && returned == old(returned) + (if IsDatagram(r.value, gid) then [AsDatagram(r.value, defaultDst)] else [])
                && eofs == (if r.value.kind == UDP_END && r.value.gid == gid then old(eofs) + 1 else old(eofs))
                && |stream.tr.c.incoming| < |old(stream.tr.c.incoming)|
    {
      hide SecureStream.Valid, Accounted, NextOf, Behind, Deframe, OpsOf, EmittedAs, UdpFrames, IsDatagram, AsDatagram;
      ghost var evs := stream.got[gotBefore..];
      r := stream.Recv();
      if r.Ok? {
        assert stream.got[gotBefore..] == evs + [r.value];
        AccountedNext(gid, defaultDst, first, evs, r.value, returned, eofs);
        assert returned + [] == returned;
        if IsDatagram(r.value, gid) {
          returned := returned + [AsDatagram(r.value, defaultDst)];
        }
        if r.value.kind == UDP_END && r.value.gid == gid {
          eofs := eofs + 1;
        }
      }
    }

    /** copy(b, data) */
    static method CopyOut(b: array<Byte>, data: Bytes) returns (n: nat)
      modifies b
      ensures n == (if b.Length < |data| then b.Length else |data|) && b[..n] == data[..n]
    {
      n := if b.Length < |data| then b.Length else |data|;
      Put(b, 0, data[..n]);
    }

    /** Close: UDP_END if the sub-session was opened and the stream still takes it; then the stream closes. */
    method Close()
      requires Valid()
      modifies this`done, this`ended, stream`sendBuf, stream`closed, stream`frmOut, stream`log,
               stream`lost, stream.sendBuf, stream.send, stream.tr.c`outgoing, stream.tr.c`failedWrites,
               stream.tr.c`open
      ensures Valid() && done && stream.closed
      ensures fresh(stream.sendBuf) || stream.sendBuf == old(stream.sendBuf)
      ensures old(done) ==> ended == old(ended) && stream.Sealed() == old(stream.Sealed())
      ensures !old(done) ==>
                && (ended <==> stream.Sealed() != old(stream.Sealed()))
                && (ended <==> && isOpen && hasUnderlying && !old(stream.closed)
                               && stream.send.drawsFailed == old(stream.send.drawsFailed))
      ensures stream.tr.c.failedWrites == old(stream.tr.c.failedWrites) ==> stream.lost == old(stream.lost)
    {
      hide SecureStream.Valid, Accounted, OpsOf, EmittedAs, UdpFrames;
      if done {
        return;
      }
      done := true;
      if isOpen && hasUnderlying {
        SendEnd();
      }
      stream.Close();
    }

    /** UDP_END, its error ignored. */
    method SendEnd()
      requires stream.Valid() && Emitted() && !ended && (doubt != [] ==> stream.closed)
      modifies this`ended, stream`sendBuf, stream`closed, stream`frmOut, stream`log,
               stream`lost, stream.sendBuf, stream.send, stream.tr.c`outgoing, stream.tr.c`failedWrites,
               stream.tr.c`open
      ensures stream.Valid() && Emitted()
      ensures fresh(stream.sendBuf) || stream.sendBuf == old(stream.sendBuf)
      ensures ended <==> stream.Sealed() != old(stream.Sealed())
      ensures ended <==> !old(stream.closed) && stream.send.drawsFailed == old(stream.send.drawsFailed)
      ensures old(stream.closed) ==> stream.closed && stream.lost == old(stream.lost)
      ensures stream.tr.c.failedWrites == old(stream.tr.c.failedWrites) ==> stream.lost == old(stream.lost)
    {
      hide SecureStream.Valid, OpsOf, EmittedAs, UdpFrames, EventOf;
      ghost var fs, ops := stream.Sealed(), OpsOf(isServer, gid, defaultDst, written + doubt, false);
      var err, news := stream.SendOp(UdpEnd(gid));
      assert stream.Sealed() == fs + news && fs + [] == fs && stream.lost + [] == stream.lost;
      if news != [] {
        assert news == [news[0]];
        EmittedOne(ops, fs, sentBefore, UdpEnd(gid), news[0]);
        OpsWritten(isServer, gid, defaultDst, written + doubt, Datagram([], NO_ADDRESS));
        ended := true;
      }
      assert stream.lost + [] == stream.lost;
    }
  }

  lemma SkipsPackets(gid: Bytes8, ev: Event)
    ensures Skips(Packets(gid), ev) <==>
              if IsUdpKind(ev.kind) then ev.gid != gid else ev.kind in {PING, PONG, PADDING_ONLY, UDP_PROBE_REQ, UDP_PROBE_RESP}
  {
  }

  /** The UDP branch of handleTransport: the first frame must be UDP_NEW; it fixes the id and the default target. */
  method AcceptUdp(stream: SecureStream, hello: Address, hasUnderlying: bool) returns (r: Result<PacketConn>)
    requires stream.Valid() && stream.got == []
    modifies stream`closed, stream`taken, stream`got, stream`leftover, stream.recv, stream.tr, stream.tr.readBuf,
             stream.tr.c`incoming, stream.tr.c`read, stream.tr.c`open
    ensures r.Err? ==> stream.closed
    ensures r.Ok? ==>
              && r.value.Valid() && r.value.stream == stream && r.value.isServer && |stream.got| == 1
              && r.value.gotBefore == 1 && r.value.returned == []
              && Started(stream.got, hello, r.value.gid, r.value.defaultDst, r.value.first)
    ensures old(stream.closed) || !old(stream.tr.c.open) ==> r == Err(ClosedPipe)
    ensures !old(stream.closed) && old(stream.tr.c.open) ==>
              var first := NextOf(stream.aead, stream.recvStart.After(0), old(stream.tr.c.incoming));
              && (first.Err? ==> r == Err(first.error))
              && (first.Ok? ==> stream.got == [first.value] && (r.Ok? <==> first.value.kind == UDP_NEW))
              && (first.Ok? && r.Err? ==> r == Err(UnexpectedFrame))
  {
    hide SecureStream.Valid, NextOf, Behind, Deframe, DatagramsOf, EndsOf, UdpFrames, OpsOf, EmittedAs, Accounted;
    var ev := stream.Recv();
    if ev.Err? {
      return Err(ev.error);
    }
    if ev.value.kind != UDP_NEW {
      stream.Close();
      return Err(UnexpectedFrame);
    }
    var dst := if ev.value.hasAddr then ev.value.addr else hello;
    var pc := new PacketConn.Server(stream, hasUnderlying, ev.value.gid, dst, NilIfEmpty(ev.value.payload));
    return Ok(pc);
  }

  ghost predicate StartsSession(ev: Event, hello: Address, gid: Bytes8, dflt: Address, first: seq<Datagram>) {
    && ev.kind == UDP_NEW && gid == ev.gid
    && dflt == (if ev.hasAddr then ev.addr else hello)
    && first == Pending(NilIfEmpty(ev.payload), dflt)
  }

  /** The first event started the session. */
  ghost predicate Started(got: seq<Event>, hello: Address, gid: Bytes8, dflt: Address, first: seq<Datagram>) {
    got != [] && StartsSession(got[0], hello, gid, dflt, first)
  }

  // ------------------------------------------------------------------
  // End to end
  // ------------------------------------------------------------------

  /** The default target both ends work with. */
  function AgreedDefault(dst: Address, hello: Address): Address {
    if Present(dst) then Carried(dst) else hello
  }

  /** What the peer should see of the datagrams one end wrote: the client's first goes to the default target, every other
      one to its own target or, lacking one, to the default. */
  function Attributed(isServer: bool, ds: seq<Datagram>, dflt: Address): (r: seq<Datagram>)
    ensures |r| == |ds|
  {
    seq(|ds|, i requires 0 <= i < |ds| =>
      Datagram(ds[i].payload, if (isServer || i > 0) && Present(ds[i].target) then Carried(ds[i].target) else dflt))
  }

  /** What reaches the application behind UDP_NEW: an empty first datagram does not. */
  function Seen(ds: seq<Datagram>): seq<Datagram> {
    if ds != [] && ds[0].payload == [] then ds[1..] else ds
  }

  /** `evs` without keepalive, cover and probe events. */
  function UdpEvents(evs: seq<Event>): seq<Event> {
    if evs == [] then []
    else UdpEvents(evs[..|evs| - 1]) + if IsUdpKind(evs[|evs| - 1].kind) then [evs[|evs| - 1]] else []
  }

  /** UDP events of frames are the events of the UDP frames. */
  lemma {:induction false} UdpEventsOfFrames(evs: seq<Event>, fs: seq<Sent>)
    requires |evs| == |fs| && forall i | 0 <= i < |fs| :: EventOf(fs[i].frame) == Ok(evs[i])
    ensures |UdpEvents(evs)| == |UdpFrames(fs)|
    ensures forall i | 0 <= i < |UdpFrames(fs)| :: EventOf(UdpFrames(fs)[i]) == Ok(UdpEvents(evs)[i])
  {
    if fs != [] {
      var n := |fs| - 1;
      EventKind(fs[n].frame);
      hide EventOf, IsUdpKind;
      UdpEventsOfFrames(evs[..n], fs[..n]);
    }
  }

  lemma EventKind(f: Frame)
    ensures EventOf(f).Ok? ==> EventOf(f).value.kind == f.kind
  {
  }

  /** `u` are the events of the first frames of an end that wrote `ds`. */
  ghost predicate FromWriter(u: seq<Event>, isServer: bool, gid: Bytes8, dst: Address, ds: seq<Datagram>, ended: bool) {
    && |u| <= |ds| + (if ended then 1 else 0)
    && forall i | 0 <= i < |u| :: var f := OpAt(isServer, gid, dst, ds, i).ToFrame(); f.Ok? && EventOf(f.value) == Ok(u[i])
  }

  lemma {:induction false} NoiseIgnored(gid: Bytes8, dflt: Address, evs: seq<Event>)
    ensures DatagramsOf(gid, dflt, evs) == DatagramsOf(gid, dflt, UdpEvents(evs))
    ensures EndsOf(gid, evs) == EndsOf(gid, UdpEvents(evs))
  {
    if evs != [] {
      var n := |evs| - 1;
      NoiseIgnored(gid, dflt, evs[..n]);
      if IsUdpKind(evs[n].kind) {
        DatagramsSnoc(gid, dflt, UdpEvents(evs[..n]), evs[n]);
        EndsSnoc(gid, UdpEvents(evs[..n]), evs[n]);
      } else {
        assert UdpEvents(evs) == UdpEvents(evs[..n]);
      }
    }
  }

  lemma {:induction false} DatagramsCons(gid: Bytes8, dflt: Address, evs: seq<Event>)
    requires evs != [] && evs[0].kind != UDP_END
    ensures DatagramsOf(gid, dflt, evs)
            == (if IsDatagram(evs[0], gid) then [AsDatagram(evs[0], dflt)] else []) + DatagramsOf(gid, dflt, evs[1..])
    ensures EndsOf(gid, evs) == EndsOf(gid, evs[1..])
  {
    var n := |evs| - 1;
    if n == 0 {
      assert evs[..0] == [] && evs[1..] == [];
    } else {
      DatagramsCons(gid, dflt, evs[..n]);
      assert evs[..n][1..] == evs[1..][..n - 1];
    }
  }

  /** The default target an end's datagrams are attributed to must be the one its UDP_NEW announced. */
  predicate DefaultFor(isServer: bool, dst: Address, dflt: Address) {
    !isServer && Present(dst) ==> dflt == Carried(dst)
  }

  /** The i-th UDP event of an end is its i-th datagram as attributed; after the last comes the end. */
  lemma EventOfWrite(isServer: bool, gid: Bytes8, dst: Address, dflt: Address, ds: seq<Datagram>, i: nat, ev: Event)
    requires i <= |ds| && DefaultFor(isServer, dst, dflt)
    requires var f := OpAt(isServer, gid, dst, ds, i).ToFrame(); f.Ok? && EventOf(f.value) == Ok(ev)
    ensures ev.gid == gid && (ev.kind == UDP_END <==> i == |ds|)
    ensures i < |ds| ==>
              && ev.kind == (if i == 0 && !isServer then UDP_NEW else UDP_DATA)
              && AsDatagram(ev, dflt) == Attributed(isServer, ds, dflt)[i]
    ensures i < |ds| && i == 0 && !isServer ==>
              ev.payload == ds[0].payload && ev.hasAddr == Present(dst) && (ev.hasAddr ==> ev.addr == Carried(dst))
  {
    var op := OpAt(isServer, gid, dst, ds, i);
    if i < |ds| {
      TargetEvent(op);
    } else {
      assert gid[..8] == gid;
    }
  }

  /** The first `n` of `ds`, or all if there are fewer. */
  function Take(n: nat, ds: seq<Datagram>): seq<Datagram> { if n < |ds| then ds[..n] else ds[..|ds|] }

  /** An end's UDP events are its datagrams, in order and as attributed, and its one end after the last of them. */
  lemma {:induction false} DatagramsOfWriter(isServer: bool, gid: Bytes8, dst: Address, dflt: Address, ds: seq<Datagram>,
                                        ended: bool, u: seq<Event>)
    requires FromWriter(u, isServer, gid, dst, ds, ended) && DefaultFor(isServer, dst, dflt)
    ensures DatagramsOf(gid, dflt, u) == Take(|u|, Attributed(isServer, ds, dflt))
    ensures EndsOf(gid, u) == if |u| > |ds| then 1 else 0
    ensures forall i | 0 <= i < |u| :: u[i].kind == UDP_END <==> i == |ds|
  {
    hide EventOf, OpAt, DefaultFor, Attributed, DatagramsOf, EndsOf, AsDatagram;
    if u == [] {
      NothingRead(gid, dflt);
    } else {
      var n := |u| - 1;
      var front, ev := u[..n], u[n];
      DatagramsOfWriter(isServer, gid, dst, dflt, ds, ended, front);
      EventOfWrite(isServer, gid, dst, dflt, ds, n, ev);
      assert u == front + [ev];
      OneMoreRead(gid, dflt, front, ev, Attributed(isServer, ds, dflt));
    }
  }

  lemma NothingRead(gid: Bytes8, dflt: Address)
    ensures DatagramsOf(gid, dflt, []) == [] && EndsOf(gid, []) == 0
  {
  }

  /** The event after `front` is the next datagram of `all`, or the end after the last. */
  lemma OneMoreRead(gid: Bytes8, dflt: Address, front: seq<Event>, ev: Event, all: seq<Datagram>)
    requires |front| <= |all| && DatagramsOf(gid, dflt, front) == Take(|front|, all) && EndsOf(gid, front) == 0
    requires ev.gid == gid && (ev.kind == UDP_END <==> |front| == |all|)
    requires |front| < |all| ==> (ev.kind == UDP_NEW || ev.kind == UDP_DATA) && AsDatagram(ev, dflt) == all[|front|]
    ensures DatagramsOf(gid, dflt, front + [ev]) == Take(|front| + 1, all)
    ensures EndsOf(gid, front + [ev]) == if |front| < |all| then 0 else 1
  {
    hide DatagramsOf, EndsOf, AsDatagram;
    DatagramsSnoc(gid, dflt, front, ev);
    EndsSnoc(gid, front, ev);
    if |front| < |all| {
      assert all[..|front| + 1] == all[..|front|] + [all[|front|]];
    } else {
      assert all[..|front|] + [] == all[..|front|];
    }
  }

  /** The whole UDP path to a server, for sequential calls. A server that has received the first frames of a client,
      keepalive, cover and probe frames mixed in behind the opening one, has the client's id and default target, and has
      received the client's datagrams in order, each attributed to the right target. An empty first datagram is the one
      thing that gets lost. The end comes once, after the last datagram. */
  lemma UdpEndToEnd(gid: Bytes8, dst: Address, hello: Address, ds: seq<Datagram>, ended: bool, evs: seq<Event>)
    requires evs != [] && evs[0].kind == UDP_NEW && FromWriter(UdpEvents(evs), false, gid, dst, ds, ended)
    ensures ds != []
    ensures var dflt, u := AgreedDefault(dst, hello), UdpEvents(evs);
            var first := Pending(NilIfEmpty(ds[0].payload), dflt);
            var seen, want := first + DatagramsOf(gid, dflt, evs[1..]), Take(|u|, Attributed(false, ds, dflt));
            && StartsSession(evs[0], hello, gid, dflt, first)
            && want != [] && seen == Seen(want) && (seen == want <==> ds[0].payload != [])
            && (forall i | 0 <= i < |u| :: u[i].kind == UDP_END <==> i == |ds|)
            && EndsOf(gid, evs[1..]) == if |u| > |ds| then 1 else 0
  {
    hide EventOf, OpAt, Attributed, DatagramsOf, EndsOf, UdpEvents;
    var u, dflt := UdpEvents(evs), AgreedDefault(dst, hello);
    FirstUdp(evs);
    EventOfWrite(false, gid, dst, dflt, ds, 0, u[0]);
    DatagramsOfWriter(false, gid, dst, dflt, ds, ended, u);
    NoiseIgnored(gid, dflt, evs);
    DatagramsCons(gid, dflt, evs);
    var want := Take(|u|, Attributed(false, ds, dflt));
    assert want == [want[0]] + DatagramsOf(gid, dflt, evs[1..]);
  }

  lemma {:induction false} FirstUdp(evs: seq<Event>)
    requires evs != [] && IsUdpKind(evs[0].kind)
    ensures UdpEvents(evs) != [] && UdpEvents(evs)[0] == evs[0]
  {
    if |evs| == 1 {
      assert evs[..0] == [];
    } else {
      FirstUdp(evs[..|evs| - 1]);
    }
  }

  /** Events of the first frames of a stream that carries one end's sub-session. */
  lemma EventsOfWriter(isServer: bool, gid: Bytes8, dst: Address, ds: seq<Datagram>, ended: bool,
                       log: seq<Sent>, lost: seq<Sent>, got: seq<Event>)
    requires EmittedAs(OpsOf(isServer, gid, dst, ds, ended), UdpFrames(log + lost), 0)
    requires |got| <= |log + lost| && forall i | 0 <= i < |got| :: EventOf((log + lost)[i].frame) == Ok(got[i])
    ensures FromWriter(UdpEvents(got), isServer, gid, dst, ds, ended)
    ensures |log| <= |got| && lost == [] ==> |UdpEvents(got)| == |ds| + if ended then 1 else 0
  {
    hide EventOf, OpAt, UdpEvents, UdpFrames;
    var fs, m := log + lost, |got|;
    UdpEventsOfFrames(got, fs[..m]);
    assert fs == fs[..m] + fs[m..];
    UdpFramesAppend(fs[..m], fs[m..]);
    var ops, u := OpsOf(isServer, gid, dst, ds, ended), UdpEvents(got);
    forall i | 0 <= i < |u|
      ensures OpAt(isServer, gid, dst, ds, i) == ops[i] && ops[i].ToFrame() == Ok(UdpFrames(fs)[i])
      ensures EventOf(UdpFrames(fs)[i]) == Ok(u[i])
    {
      assert ops[i].ToFrame() == Ok(UdpFrames(fs)[0 + i]);
    }
    if |log| <= m && lost == [] {
      assert fs[..m] == fs;
    }
  }

  /** Client to server, the two objects together. Whatever calls were made on either end, and whichever of them failed, a
      server connection that has read any of the client's bytes has returned, or holds as pending, the client's first
      datagrams in order and properly attributed, up to the loss of an empty first one. It reports the end at most once,
      and then it has returned them all. Once every byte is read and no send was reported failed, all datagrams have
      arrived, and the end if the client closed. */
  lemma OneDatagramQueue(c: PacketConn, s: PacketConn, hello: Address)
    requires c.Valid() && s.Valid() && !c.isServer && c.sentBefore == 0 && s.gotBefore == 1
    requires Started(s.stream.got, hello, s.gid, s.defaultDst, s.first)
    requires Connected(c.stream, s.stream)
    ensures c.written + c.doubt != [] && s.gid == c.gid && s.defaultDst == AgreedDefault(c.defaultDst, hello)
    ensures var sent, read := Attributed(false, c.written + c.doubt, s.defaultDst), |UdpEvents(s.stream.got)|;
            && s.returned + Pending(s.pendingFirst, s.defaultDst) == Seen(Take(read, sent))
            && (forall i | 0 <= i < read :: UdpEvents(s.stream.got)[i].kind == UDP_END <==> i == |sent|)
            && (s.eofs > 0 ==> s.eofs == 1 && c.ended && s.returned == Seen(sent))
    ensures Drained(c.stream, s.stream) && c.stream.lost == [] ==>
              && |UdpEvents(s.stream.got)| == |c.written| + (if c.ended then 1 else 0)
              && s.returned + Pending(s.pendingFirst, s.defaultDst) == Seen(Attributed(false, c.written, s.defaultDst))
              && s.eofs == if c.ended then 1 else 0
  {
    hide EventOf, AgreedDefault, OpAt, UdpEvents, EmittedAs, OpsOf, Attributed, DatagramsOf, EndsOf, UdpFrames;
    hide Connected, Drained, SecureStream.Valid;
    var ds, w, r := c.written + c.doubt, c.stream, s.stream;
    OneEventQueue(w, r);
    EventsOfWriter(false, c.gid, c.defaultDst, ds, c.ended, w.log, w.lost, r.got);
    UdpEndToEnd(c.gid, c.defaultDst, hello, ds, c.ended, r.got);
    TakeAll(Attributed(false, ds, s.defaultDst));
    assert s.returned + [] == s.returned && c.written + [] == c.written;
  }

  /** Close reaches the peer: a client that closed an open sub-session on a live stream, no write and no draw having failed
      (PacketConn.Close), has ended it with nothing lost; a server that has read every byte has returned all its
      datagrams and then EOF, once. */
  lemma CloseIsSeen(c: PacketConn, s: PacketConn, hello: Address)
    requires c.Valid() && s.Valid() && !c.isServer && c.sentBefore == 0 && s.gotBefore == 1
    requires Started(s.stream.got, hello, s.gid, s.defaultDst, s.first)
    requires Connected(c.stream, s.stream) && Drained(c.stream, s.stream) && c.ended && c.stream.lost == []
    ensures s.eofs == 1 && s.returned == Seen(Attributed(false, c.written, s.defaultDst))
  {
    hide Attributed, Seen, Connected, Drained, SecureStream.Valid, Started;
    OneDatagramQueue(c, s, hello);
    assert c.written + [] == c.written;
  }

  lemma TakeAll(xs: seq<Datagram>)
    ensures xs[..|xs|] == xs
  {
  }

  /** Server to client: a datagram without a source is attributed to the client's own default destination. */
  lemma OneReplyQueue(s: PacketConn, c: PacketConn)
    requires c.Valid() && s.Valid() && s.isServer && !c.isServer && s.sentBefore == 0 && c.gotBefore == 0 && c.gid == s.gid
    requires Connected(s.stream, c.stream)
    ensures var sent, read := Attributed(true, s.written + s.doubt, c.defaultDst), |UdpEvents(c.stream.got)|;
            && c.returned == Take(read, sent)
            && (c.eofs > 0 ==> c.eofs == 1 && s.ended && c.returned == sent)
    ensures Drained(s.stream, c.stream) && s.stream.lost == [] ==>
              c.returned == Attributed(true, s.written, c.defaultDst) && c.eofs == if s.ended then 1 else 0
  {
    hide EventOf, OpAt, UdpEvents, EmittedAs, OpsOf, Attributed, DatagramsOf, EndsOf, UdpFrames;
    hide Connected, Drained, SecureStream.Valid;
    var ds, w, r := s.written + s.doubt, s.stream, c.stream;
    OneEventQueue(w, r);
    EventsOfWriter(true, s.gid, s.defaultDst, ds, s.ended, w.log, w.lost, r.got);
    DatagramsOfWriter(true, s.gid, s.defaultDst, c.defaultDst, ds, s.ended, UdpEvents(r.got));
    NoiseIgnored(c.gid, c.defaultDst, r.got);
    TakeAll(Attributed(true, ds, c.defaultDst));
    assert r.got[0..] == r.got && c.returned + [] == c.returned && s.written + [] == s.written;
  }
}
