/** streamConn (client.go): the byte stream on top of a SecureStream, and what arrives at the other end of it. */
module StreamConns {
  import opened Octets
  import opened Crypto
  import opened Frames
  import opened FrameCipher
  import opened Framing
  import opened Events
  import opened SecureStreams
  import opened Scanning

  const MAX_PAYLOAD := 65280

  /** The application bytes of `events`: the payloads of data frames, in order. */
  function DataOf(events: seq<Event>): Bytes {
    if events == [] then []
    else
      var ev := events[|events| - 1];
      DataOf(events[..|events| - 1]) + if ev.kind == TCP_DATA then ev.payload else []
  }

  lemma DataOfSnoc(events: seq<Event>, ev: Event)
    ensures DataOf(events + [ev]) == DataOf(events) + if ev.kind == TCP_DATA then ev.payload else []
  {
    assert (events + [ev])[..|events|] == events;
  }

  /** How Read ends: with data, with the stream's own error, or at a frame that does not belong here. */
  function ReadError(f: Found): Option<Error> {
    if f.err.Some? then f.err
    else if f.news != [] && f.news[|f.news| - 1].kind == TCP_DATA then None
    else Some(UnexpectedFrame)
  }

  /** The bytes Read is left with. */
  function ReadData(f: Found): Bytes {
    if ReadError(f).None? then f.news[|f.news| - 1].payload else []
  }

  /** What Read finds is data exactly when it reports no error. */
  lemma ReadFinds(a: Aead, c: Context, bytes: Bytes)
    ensures var f := Scan(Stream, a, c, bytes); ReadError(f).None? <==> ReadData(f) != []
    ensures var f := Scan(Stream, a, c, bytes); DataOf(f.news) == ReadData(f)
  {
    hide Scan;
    var f := Scan(Stream, a, c, bytes);
    ScanShape(Stream, a, c, bytes);
    if f.err.Some? {
      NoData(f.news);
    } else {
      var n := |f.news| - 1;
      NoData(f.news[..n]);
    }
  }

  lemma {:induction false} NoData(evs: seq<Event>)
    requires AllSkipped(Stream, evs)
    ensures DataOf(evs) == []
  {
    if evs != [] {
      NoData(evs[..|evs| - 1]);
    }
  }

  class StreamConn {
    const stream: SecureStream
    var readBuf: Bytes
    /** Everything Read has returned so far, and everything the data frames sealed so far carry. */
    ghost var delivered: Bytes
    ghost var written: Bytes

    /** What was returned and what is buffered is exactly the data received, each byte once and in order. */
    ghost predicate Valid()
      reads this, stream, stream.tr, stream.tr.c, stream.send, stream.recv
    {
      && stream.Valid() && delivered + readBuf == DataOf(stream.got)
      && written == TcpBytes(stream.Sealed())
    }

    constructor (stream: SecureStream)
      requires stream.Valid() && stream.got == [] && stream.Sealed() == []
      ensures Valid() && this.stream == stream && delivered == [] && written == []
    {
      this.stream, readBuf, delivered, written := stream, [], [], [];
    }

    /** Fills the front of `p`, which is the caller's: never the framer's scratch buffer. With nothing buffered, the
        bytes to come decide: Read passes over cover, keepalive and empty frames up to the first other one, buffers its data,
        or reports why there is none. */
    method Read(p: array<Byte>) returns (n: nat, err: Option<Error>)
      requires Valid() && p != stream.tr.readBuf
      modifies this`readBuf, this`delivered, p, stream`closed, stream`taken, stream`got, stream`leftover, stream.recv,
               stream.tr, stream.tr.readBuf, stream.tr.c`incoming, stream.tr.c`read, stream.tr.c`open
      ensures Valid() && n <= p.Length
      ensures stream.tr.readBuf == old(stream.tr.readBuf) || fresh(stream.tr.readBuf)
      ensures delivered == old(delivered) + p[..n] && p[n..] == old(p[n..])
      ensures err.None? ==> (n < p.Length ==> readBuf == []) && (p.Length > 0 ==> n > 0)
      ensures err.Some? ==> n == 0 && readBuf == []
      ensures old(readBuf) != [] ==> err.None? && stream.got == old(stream.got) && stream.closed == old(stream.closed)
      ensures old(readBuf) == [] && (old(stream.closed) || !old(stream.tr.c.open)) ==>
                err == Some(ClosedPipe) && stream.got == old(stream.got)
      ensures old(readBuf) == [] && !old(stream.closed) && old(stream.tr.c.open) ==>
                var f := Scan(Stream, stream.aead, stream.recvStart.After(|old(stream.got)|), old(stream.tr.c.incoming));
                && stream.got == old(stream.got) + f.news && err == ReadError(f)
                && (stream.closed <==> f.err.Some?)
    {
      hide SecureStream.Valid, DataOf, TcpBytes, Scan, ReadError, ReadData;
      ReadFinds(stream.aead, stream.recvStart.After(|stream.got|), stream.tr.c.incoming);
      err := Fill();
      n := 0;
      if err.None? {
        n := CopyOut(p);
      }
    }

    /** Moves the front of the buffer into `p`. */
    method CopyOut(p: array<Byte>) returns (n: nat)
      modifies this`readBuf, this`delivered, p
      ensures n == if p.Length < |old(readBuf)| then p.Length else |old(readBuf)|
      ensures p[..n] == old(readBuf)[..n] && p[n..] == old(p[n..])
      ensures readBuf == old(readBuf)[n..] && delivered == old(delivered) + p[..n]
      ensures delivered + readBuf == old(delivered) + old(readBuf)
    {
      n := if p.Length < |readBuf| then p.Length else |readBuf|;
      Put(p, 0, readBuf[..n]);
      delivered := delivered + readBuf[..n];
      assert readBuf == readBuf[..n] + readBuf[n..];
      readBuf := readBuf[n..];
    }

    /** The receive loop of Read. */
    method Fill() returns (err: Option<Error>)
      requires Valid()
      modifies this`readBuf, stream`closed, stream`taken, stream`got, stream`leftover, stream.recv,
               stream.tr, stream.tr.readBuf, stream.tr.c`incoming, stream.tr.c`read, stream.tr.c`open
      ensures Valid()
      ensures stream.tr.readBuf == old(stream.tr.readBuf) || fresh(stream.tr.readBuf)
      ensures old(readBuf) != [] ==>
                err.None? && readBuf == old(readBuf) && stream.got == old(stream.got) && stream.closed == old(stream.closed)
      ensures old(readBuf) == [] && (old(stream.closed) || !old(stream.tr.c.open)) ==>
                err == Some(ClosedPipe) && readBuf == [] && stream.got == old(stream.got)
      ensures old(readBuf) == [] && !old(stream.closed) && old(stream.tr.c.open) ==>
                var f := Scan(Stream, stream.aead, stream.recvStart.After(|old(stream.got)|), old(stream.tr.c.incoming));
                && stream.got == old(stream.got) + f.news && err == ReadError(f) && readBuf == ReadData(f)
                && (stream.closed <==> f.err.Some?)
    {
      hide Valid, Scan, PassedOver, NextOf, Behind, Ahead;
      if readBuf != [] {
        return None;
      }
      ghost var live := !stream.closed && stream.tr.c.open;
      ghost var whole := Scan(Stream, stream.aead, stream.recvStart.After(|stream.got|), stream.tr.c.incoming);
      ghost var seen: seq<Event> := [];
      AheadStart(whole);
      while true
        invariant Valid() && readBuf == [] && stream.got == old(stream.got) + seen
        invariant live == (!stream.closed && stream.tr.c.open) && (!live ==> seen == [])
        invariant live ==> Ahead(whole, seen, Scan(Stream, stream.aead, stream.recvStart.After(|stream.got|), stream.tr.c.incoming))
        invariant stream.tr.readBuf == old(stream.tr.readBuf) || fresh(stream.tr.readBuf)
        decreases |stream.tr.c.incoming|
      {
        ghost var c, bytes := stream.recvStart.After(|stream.got|), stream.tr.c.incoming;
        NextAfter(stream.recvStart, |stream.got|);
        var ev := Next();
        if live {
          AheadNext(whole, seen, Stream, stream.aead, c, bytes);
        }
        if ev.Err? {
          return Some(ev.error);
        }
        assert stream.got == old(stream.got) + (seen + [ev.value]);
        seen := seen + [ev.value];
        SkipsStream(ev.value);
        if ev.value.kind == TCP_DATA {
          if readBuf != [] {
            return None;
          }
        } else if ev.value.kind != PADDING_ONLY && ev.value.kind != PING && ev.value.kind != PONG {
          return Some(UnexpectedFrame);
        }
      }
    }

    /** Recv, keeping the payload of a data frame. */
    method Next() returns (r: Result<Event>)
      requires Valid() && readBuf == []
      modifies this`readBuf, stream`closed, stream`taken, stream`got, stream`leftover, stream.recv,
               stream.tr, stream.tr.readBuf, stream.tr.c`incoming, stream.tr.c`read, stream.tr.c`open
      ensures Valid()
      ensures stream.tr.readBuf == old(stream.tr.readBuf) || fresh(stream.tr.readBuf)
      ensures r.Err? ==> stream.closed && stream.got == old(stream.got) && readBuf == []
      ensures if old(stream.closed) || !old(stream.tr.c.open) then r == Err(ClosedPipe)
              else r == NextOf(stream.aead, stream.recvStart.After(|old(stream.got)|), old(stream.tr.c.incoming))
      ensures r.Ok? ==>
                && !stream.closed && stream.tr.c.open && stream.got == old(stream.got) + [r.value]
                && readBuf == (if r.value.kind == TCP_DATA then r.value.payload else [])
                && stream.tr.c.incoming == Behind(old(stream.tr.c.incoming))
                && |stream.tr.c.incoming| < |old(stream.tr.c.incoming)|
    {
      hide SecureStream.Valid, NextOf, Behind, Deframe, DataOf, TcpBytes;
      r := stream.Recv();
      if r.Ok? {
        DataOfSnoc(old(stream.got), r.value);
        if r.value.kind == TCP_DATA {
          readBuf := r.value.payload;
        }
      }
    }

    /** Sends `p` in pieces. Whatever happens, the data frames sealed carry a prefix of `p`, those reported sent at least
        as much as the returned count; without an error they carry all of it. */
    method Write(p: Bytes) returns (n: nat, err: Option<Error>)
      requires Valid()
      modifies this`written, stream`sendBuf, stream`closed, stream`frmOut, stream`log, stream`lost, stream.sendBuf,
               stream.send, stream.tr.c`outgoing, stream.tr.c`failedWrites, stream.tr.c`open
      ensures Valid()
      ensures fresh(stream.sendBuf) || stream.sendBuf == old(stream.sendBuf)
      ensures Grown(p, old(stream.log), old(stream.lost), stream.log, stream.lost, err)
      ensures var sent := |TcpBytes(stream.log[|old(stream.log)|..])|;
              n == if err.None? then |p| else sent / 65280 * 65280
      ensures old(written) <= written && written[|old(written)|..] <= p
      ensures n <= |written| - |old(written)| && (err.None? ==> written == old(written) + p)
      ensures err.Some? ==> err.value in {ClosedPipe, TransportFailure, RandomFailure}
      ensures err == Some(ClosedPipe) <==> p != [] && old(stream.closed)
      ensures stream.tr.c.failedWrites == old(stream.tr.c.failedWrites) + if err == Some(TransportFailure) then 1 else 0
      ensures stream.send.drawsFailed == old(stream.send.drawsFailed) + if err == Some(RandomFailure) then 1 else 0
      ensures stream.closed <==> old(stream.closed) || err == Some(TransportFailure)
    {
      hide SecureStream.Valid, DataFrames, TcpBytes, DataOf, Grown;
      n, err := SendPieces(p);
      NewlyWritten(p, old(stream.log), old(stream.lost), stream.log, stream.lost, err);
      written := TcpBytes(stream.Sealed());
    }

    /** The loop of Write. */
    method SendPieces(p: Bytes) returns (n: nat, err: Option<Error>)
      requires stream.Valid()
      modifies stream`sendBuf, stream`closed, stream`frmOut, stream`log, stream`lost, stream.sendBuf,
               stream.send, stream.tr.c`outgoing, stream.tr.c`failedWrites, stream.tr.c`open
      ensures stream.Valid()
      ensures fresh(stream.sendBuf) || stream.sendBuf == old(stream.sendBuf)
      ensures Grown(p, old(stream.log), old(stream.lost), stream.log, stream.lost, err) && old(stream.log) <= stream.log
      ensures var sent := |TcpBytes(stream.log[|old(stream.log)|..])|;
              if err.None? then n == |p| == sent else n == sent / MAX_PAYLOAD * MAX_PAYLOAD <= sent
      ensures err.Some? ==> err.value in {ClosedPipe, TransportFailure, RandomFailure}
      ensures err == Some(ClosedPipe) <==> p != [] && old(stream.closed)
      ensures stream.tr.c.failedWrites == old(stream.tr.c.failedWrites) + if err == Some(TransportFailure) then 1 else 0
      ensures stream.send.drawsFailed == old(stream.send.drawsFailed) + if err == Some(RandomFailure) then 1 else 0
      ensures stream.closed <==> old(stream.closed) || err == Some(TransportFailure)
    {
      hide SecureStream.Valid, DataFrames, TcpBytes, DataOf, Grown, Writing, WholePieces;
      ghost var log0, lost0 := stream.log, stream.lost;
      ghost var sent: seq<Sent> := [];
      var rest := p;
      n := 0;
      NothingWritten(p, |log0|);
      NoPiece();
      while rest != []
        invariant stream.Valid() && stream.log == log0 + sent && stream.lost == lost0 && (sent != [] ==> lost0 == [])
        invariant fresh(stream.sendBuf) || stream.sendBuf == old(stream.sendBuf)
        invariant Writing(p, sent, rest, |log0|) && n == |p| - |rest|
        invariant rest != [] ==> WholePieces(n)
        invariant if rest == p then stream.closed == old(stream.closed) else !stream.closed && !old(stream.closed)
        invariant stream.tr.c.failedWrites == old(stream.tr.c.failedWrites)
        invariant stream.send.drawsFailed == old(stream.send.drawsFailed)
        decreases |rest|
      {
        var chunk := if |rest| > MAX_PAYLOAD then rest[..MAX_PAYLOAD] else rest;
        err := stream.SendTCPData(chunk);
        if err.Some? {
          WriteFails(p, sent, rest, log0, lost0, chunk, stream.log, stream.lost, err);
          WholeChunks(n, |TcpBytes(stream.log[|log0|..])|);
          return;
        }
        WriteSome(p, sent, rest, log0, lost0, chunk, stream.log, stream.lost);
        NextPiece(n);
        sent, n, rest := stream.log[|log0|..], n + |chunk|, rest[|chunk|..];
      }
      WriteDone(p, sent, log0, lost0);
      assert stream.log[|log0|..] == sent;
      return n, None;
    }

    /** Every other sender, the cover-traffic loop's among them, leaves the byte stream alone. */
    method SendOther(op: Op) returns (err: Option<Error>, ghost news: seq<Sent>)
      requires Valid() && !op.TcpData?
      modifies stream`sendBuf, stream`closed, stream`frmOut, stream`log, stream`lost, stream.sendBuf,
               stream.send, stream.tr.c`outgoing, stream.tr.c`failedWrites, stream.tr.c`open
      ensures Valid()
      ensures fresh(stream.sendBuf) || stream.sendBuf == old(stream.sendBuf)
      ensures |news| <= 1 && stream.Sealed() == old(stream.Sealed()) + news
      ensures err.None? ==> |news| == 1 && op.ToFrame() == Ok(news[0].frame)
    {
      hide SecureStream.Valid, TcpBytes, DataOf, PolicyVerdict, Receive, EventOf;
      err, news := stream.SendOp(op);
      ghost var fs := old(stream.Sealed());
      assert stream.Sealed() == fs + news && fs + [] == fs;
      if news != [] {
        assert news == [news[0]];
        TcpBytesSnoc(fs, news[0]);
        OpIsNoData(op, news[0].frame);
      }
    }
  }

  lemma OpIsNoData(op: Op, f: Frame)
    requires !op.TcpData? && op.ToFrame() == Ok(f)
    ensures TcpPart(f) == []
  {
  }

  // ------------------------------------------------------------------
  // The loops of Read and Write
  // ------------------------------------------------------------------

  lemma SkipsStream(ev: Event)
    ensures Skips(Stream, ev) <==>
              if ev.kind == TCP_DATA then ev.payload == [] else ev.kind == PADDING_ONLY || ev.kind == PING || ev.kind == PONG
  {
  }

  /** `sent` carries `p` up to `rest`. */
  ghost predicate Writing(p: Bytes, sent: seq<Sent>, rest: Bytes, firstIndex: nat) {
    DataFrames(sent, firstIndex) && p == TcpBytes(sent) + rest
  }

  lemma NothingWritten(p: Bytes, firstIndex: nat)
    ensures Writing(p, [], p, firstIndex)
  {
  }

  /** One piece sent. */
  lemma WriteSome(p: Bytes, sent: seq<Sent>, rest: Bytes, log0: seq<Sent>, lost0: seq<Sent>, chunk: Bytes,
                  log: seq<Sent>, lost: seq<Sent>)
    requires Writing(p, sent, rest, |log0|) && chunk <= rest
    requires Grown(chunk, log0 + sent, lost0, log, lost, None)
    requires sent != [] ==> lost0 == []
    ensures log0 <= log && lost == lost0 && Writing(p, log[|log0|..], rest[|chunk|..], |log0|)
    ensures log != log0 ==> lost0 == []
  {
    hide TcpBytes, DataFrames;
    var more := log[|log0 + sent|..];
    assert more + lost[|lost0|..] == more;
    assert log[|log0|..] == sent + more;
    TcpBytesAppend(sent, more);
    JoinDataFrames(sent, more, |log0|);
    assert rest == chunk + rest[|chunk|..];
  }

  lemma WriteDone(p: Bytes, sent: seq<Sent>, log0: seq<Sent>, lost0: seq<Sent>)
    requires Writing(p, sent, [], |log0|) && (sent != [] ==> lost0 == [])
    ensures Grown(p, log0, lost0, log0 + sent, lost0, None) && |TcpBytes(sent)| == |p|
  {
    hide TcpBytes, DataFrames, Grown;
    assert sent + [] == sent && lost0 + [] == lost0;
    GrowsBy(p, log0, lost0, sent, [], None);
  }

  /** A piece that failed: what was sealed of it extends what was sent before. */
  lemma WriteFails(p: Bytes, sent: seq<Sent>, rest: Bytes, log0: seq<Sent>, lost0: seq<Sent>, chunk: Bytes,
                   log: seq<Sent>, lost: seq<Sent>, err: Option<Error>)
    requires Writing(p, sent, rest, |log0|) && chunk <= rest && err.Some? && (sent != [] ==> lost0 == [])
    requires Grown(chunk, log0 + sent, lost0, log, lost, err)
    requires |TcpBytes(log[|log0 + sent|..])| < |chunk|
    ensures Grown(p, log0, lost0, log, lost, err) && log0 <= log
    ensures |p| - |rest| <= |TcpBytes(log[|log0|..])| < |p| - |rest| + |chunk|
  {
    hide TcpBytes, DataFrames;
    var more, tail := log[|log0 + sent|..], lost[|lost0|..];
    assert log[|log0|..] == sent + more && log == log0 + (sent + more) && lost == lost0 + tail;
    assert sent + more + tail == sent + (more + tail);
    TcpBytesAppend(sent, more);
    TcpBytesAppend(sent, more + tail);
    JoinDataFrames(sent, more + tail, |log0|);
    assert TcpBytes(more + tail) <= rest;
    GrowsBy(p, log0, lost0, sent + more, tail, err);
  }

  lemma NewlyWritten(p: Bytes, log0: seq<Sent>, lost0: seq<Sent>, log: seq<Sent>, lost: seq<Sent>, err: Option<Error>)
    requires Grown(p, log0, lost0, log, lost, err)
    ensures var before, after := TcpBytes(log0 + lost0), TcpBytes(log + lost);
            && before <= after && after[|before|..] <= p && (err.None? ==> after == before + p)
            && |TcpBytes(log[|log0|..])| <= |after| - |before|
  {
    hide TcpBytes, DataFrames;
    GrownBytes(p, log0, lost0, log, lost, err);
    TcpBytesAppend(log[|log0|..], lost[|lost0|..]);
  }

  /** The count of a failed Write: whole pieces only. */
  ghost predicate WholePieces(n: nat) { n % MAX_PAYLOAD == 0 }

  lemma NoPiece()
    ensures WholePieces(0)
  {
  }

  lemma NextPiece(n: nat)
    ensures WholePieces(n) ==> WholePieces(n + MAX_PAYLOAD)
  {
  }

  lemma WholeChunks(n: nat, sent: nat)
    requires WholePieces(n) && n <= sent < n + MAX_PAYLOAD
    ensures n == sent / MAX_PAYLOAD * MAX_PAYLOAD
  {
  }

  lemma JoinDataFrames(xs: seq<Sent>, ys: seq<Sent>, firstIndex: nat)
    requires DataFrames(xs, firstIndex) && DataFrames(ys, firstIndex + |xs|)
    ensures DataFrames(xs + ys, firstIndex)
  {
    forall i | 0 <= i < |xs + ys|
      ensures (xs + ys)[i] == if i < |xs| then xs[i] else ys[i - |xs|]
    {
    }
  }

  // ------------------------------------------------------------------
  // End to end
  // ------------------------------------------------------------------

  /** Events of frames carry the frames' data. */
  lemma {:induction false} DataOfFrames(events: seq<Event>, fs: seq<Sent>)
    requires |events| == |fs| && forall i | 0 <= i < |fs| :: EventOf(fs[i].frame) == Ok(events[i])
    ensures DataOf(events) == TcpBytes(fs)
  {
    if fs != [] {
      DataOfFrames(events[..|events| - 1], fs[..|fs| - 1]);
    }
  }

  /** The data of a sender's first frames. */
  lemma DataOfFirst(got: seq<Event>, log: seq<Sent>, lost: seq<Sent>)
    requires |got| <= |log + lost| && forall i | 0 <= i < |got| :: EventOf((log + lost)[i].frame) == Ok(got[i])
    ensures DataOf(got) <= TcpBytes(log + lost)
    ensures |log| <= |got| ==> TcpBytes(log) <= DataOf(got)
  {
    hide EventOf, DataOf, TcpBytes;
    var fs, m := log + lost, |got|;
    DataOfFrames(got, fs[..m]);
    assert fs == fs[..m] + fs[m..];
    TcpBytesAppend(fs[..m], fs[m..]);
    if |log| <= m {
      assert fs[..m] == log + fs[..m][|log|..];
      TcpBytesAppend(log, fs[..m][|log|..]);
    }
  }

  /** The whole TCP path between two streams. The sender reported the frames `log` sent: data cut at random, padded at
      random, with keepalive and cover frames mixed in; `lost` is the frame, if any, whose send was reported failed, of
      which any part may be on the connection. The reader has read any prefix of those bytes, in any segmentation. Then
      the data it has received is a prefix of the data sealed and, once it has read all bytes, contains all data reported
      sent. */
  lemma TcpEndToEnd(w: SecureStream, r: SecureStream)
    requires Connected(w, r)
    ensures DataOf(r.got) <= TcpBytes(w.Sealed())
    ensures Drained(w, r) ==> TcpBytes(w.log) <= DataOf(r.got)
  {
    hide EventOf, Connected, Drained, DataOf, TcpBytes;
    OneEventQueue(w, r);
    DataOfFirst(r.got, w.log, w.lost);
  }

  /** The uncut stream yields every message and so all the data sent. */
  lemma AllArrives(a: Aead, c: Context, fs: seq<Sent>)
    requires Sendable(fs)
    ensures Messages(SentStream(a, c, fs)) == Wires(a, c, fs)
    ensures DataOf(Received(a, c, Messages(SentStream(a, c, fs)))) == TcpBytes(fs)
  {
    hide EventOf, Wires, Received, EnframeAll;
    WiresFramable(a, c, fs);
    NoMessage([]);
    MessagesThenRest(Wires(a, c, fs), []);
    assert SentStream(a, c, fs) + [] == SentStream(a, c, fs);
    ReceivedFromSender(a, c, fs, |fs|);
    assert Wires(a, c, fs)[..|fs|] == Wires(a, c, fs);
    DataOfFrames(Received(a, c, Wires(a, c, fs)), fs);
  }

  /** The two objects together, over a connection that delivers the bytes given to it in order: whatever calls were made
      on either end, and whichever of them failed, what the reading end has returned or buffered is a prefix of what the
      writing end wrote, and all of it once every byte has been read and no send was reported failed. */
  lemma OneByteQueue(w: StreamConn, r: StreamConn)
    requires w.Valid() && r.Valid() && Connected(w.stream, r.stream)
    ensures r.delivered + r.readBuf <= w.written
    ensures Drained(w.stream, r.stream) ==> TcpBytes(w.stream.log) <= r.delivered + r.readBuf
    ensures Drained(w.stream, r.stream) && w.stream.lost == [] ==> r.delivered + r.readBuf == w.written
  {
    hide Connected, Drained, DataOf, TcpBytes, SecureStream.Valid;
    TcpEndToEnd(w.stream, r.stream);
    assert w.stream.log + [] == w.stream.log;
  }

  /** What both ends build behind a handshake: with mirrored keys, each is connected to the other from the start,
      whatever the handshake left on the connections. */
  method Pair(a: Aead, c: LengthFramer, s: LengthFramer, upKey: Bytes32, upPrefix: Bytes4, downKey: Bytes32, downPrefix: Bytes4)
    returns (client: StreamConn, server: StreamConn)
    requires c.Valid() && s.Valid()
    ensures client.Valid() && server.Valid() && client.stream.tr == c && server.stream.tr == s
    ensures Connected(client.stream, server.stream) && Connected(server.stream, client.stream)
  {
    hide Outbound, Inbound;
    var up := new SecureStream(a, c, upKey, upPrefix, downKey, downPrefix);
    var down := new SecureStream(a, s, downKey, downPrefix, upKey, upPrefix);
    client := new StreamConn(up);
    server := new StreamConn(down);
  }
}
