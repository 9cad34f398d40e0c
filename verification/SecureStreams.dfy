/** The post-handshake stream (securestream.go) as the object its callers share. */
module SecureStreams {
  import opened Octets
  import opened Crypto
  import opened Addresses
  import opened Frames
  import opened FrameCipher
  import opened Framing
  import opened Padding
  import opened Events

  /** The messages that frames `fs` become when the first of them is encoded in context `c`. */
  function Wires(a: Aead, c: Context, fs: seq<Sent>): (r: seq<Bytes>)
    requires AllEncodable(fs)
    ensures |r| == |fs|
  {
    seq(|fs|, i requires 0 <= i < |fs| => EncodeFrame(a, c.After(i), fs[i].frame, fs[i].pad))
  }

  lemma WiresSnoc(a: Aead, c: Context, fs: seq<Sent>, s: Sent)
    requires AllEncodable(fs) && Encodable(s.frame, |s.pad|)
    ensures AllEncodable(fs + [s])
    ensures Wires(a, c, fs + [s]) == Wires(a, c, fs) + [EncodeFrame(a, c.After(|fs|), s.frame, s.pad)]
  {
    hide EncodeFrame, Encodable;
  }

  // ------------------------------------------------------------------
  // What the connection has seen of a stream
  // ------------------------------------------------------------------

  /** A frame the length framer takes and the peer's Recv turns into an event. */
  ghost predicate CanGo(s: Sent) {
    Encodable(s.frame, |s.pad|) && 4 + FrameLen(s.frame, |s.pad|) <= MAX_FRAME_SIZE && EventOf(s.frame).Ok?
  }

  ghost predicate Sendable(fs: seq<Sent>) {
    forall i | 0 <= i < |fs| :: CanGo(fs[i])
  }

  lemma WiresFramable(a: Aead, c: Context, fs: seq<Sent>)
    requires Sendable(fs)
    ensures AllEncodable(fs) && Framable(Wires(a, c, fs))
  {
    hide EncodeFrame;
  }

  /** The bytes of frames `fs` on the connection. */
  ghost function SentStream(a: Aead, c: Context, fs: seq<Sent>): Bytes
    requires Sendable(fs)
  {
    WiresFramable(a, c, fs);
    EnframeAll(Wires(a, c, fs))
  }

  /** The framed wire of the frame after `n` others. */
  ghost function OnWire(a: Aead, c: Context, n: nat, s: Sent): Bytes
    requires CanGo(s)
  {
    Enframe(EncodeFrame(a, c.After(n), s.frame, s.pad))
  }

  lemma SentStreamSnoc(a: Aead, c: Context, fs: seq<Sent>, s: Sent)
    requires Sendable(fs) && CanGo(s)
    ensures Sendable(fs + [s]) && SentStream(a, c, fs + [s]) == SentStream(a, c, fs) + OnWire(a, c, |fs|, s)
  {
    hide EncodeFrame, Enframe, CanGo, Wires, EnframeAll;
    forall i | 0 <= i < |fs + [s]| ensures CanGo((fs + [s])[i]) {
    }
    WiresFramable(a, c, fs);
    CanGoIsEncodable(s);
    WiresSnoc(a, c, fs, s);
    EnframeAllSnoc(Wires(a, c, fs), EncodeFrame(a, c.After(|fs|), s.frame, s.pad));
  }

  lemma CanGoIsEncodable(s: Sent)
    requires CanGo(s)
    ensures Encodable(s.frame, |s.pad|) && 4 + FrameLen(s.frame, |s.pad|) <= MAX_FRAME_SIZE
  {
  }

  /** `bytes` is what was on the connection before, the frames reported sent, and of the one frame whose send was
      reported failed any part: none, some or all of it. */
  ghost predicate Outbound(a: Aead, c: Context, prior: Bytes, log: seq<Sent>, lost: seq<Sent>, bytes: Bytes) {
    && |lost| <= 1 && Sendable(log) && Sendable(log + lost)
    && prior + SentStream(a, c, log) <= bytes <= prior + SentStream(a, c, log + lost)
  }

  lemma OutboundStart(a: Aead, c: Context, prior: Bytes)
    ensures Outbound(a, c, prior, [], [], prior)
  {
    assert prior + [] == prior;
  }

  lemma OutboundSent(a: Aead, c: Context, prior: Bytes, log: seq<Sent>, bytes: Bytes, s: Sent)
    requires Outbound(a, c, prior, log, [], bytes) && CanGo(s)
    ensures Outbound(a, c, prior, log + [s], [], bytes + OnWire(a, c, |log|, s))
  {
    hide SentStream, OnWire, CanGo, Sendable;
    SentStreamSnoc(a, c, log, s);
    assert log + [] == log && log + [s] + [] == log + [s];
    assert prior + (SentStream(a, c, log) + OnWire(a, c, |log|, s)) == bytes + OnWire(a, c, |log|, s);
  }

  lemma OutboundLost(a: Aead, c: Context, prior: Bytes, log: seq<Sent>, bytes: Bytes, s: Sent, after: Bytes)
    requires Outbound(a, c, prior, log, [], bytes) && CanGo(s)
    requires bytes <= after <= bytes + OnWire(a, c, |log|, s)
    ensures Outbound(a, c, prior, log, [s], after)
  {
    hide SentStream, OnWire, CanGo, Sendable;
    SentStreamSnoc(a, c, log, s);
    assert log + [] == log;
    assert prior + (SentStream(a, c, log) + OnWire(a, c, |log|, s)) == bytes + OnWire(a, c, |log|, s);
  }

  /** `bytes` is what was read before, the messages taken, and, after a failed read, bytes that hold no message; `got`
      is what Recv made of the messages. */
  ghost predicate Inbound(a: Aead, c: Context, prior: Bytes, taken: seq<Bytes>, got: seq<Event>, leftover: Bytes, bytes: Bytes) {
    && Framable(taken) && got == Received(a, c, taken)
    && bytes == prior + (EnframeAll(taken) + leftover) && Deframe(leftover).Err?
  }

  lemma InboundStart(a: Aead, c: Context, prior: Bytes)
    ensures Inbound(a, c, prior, [], [], [], prior)
  {
    NoMessage([]);
    assert prior + ([] + []) == prior;
  }

  lemma InboundTaken(a: Aead, c: Context, prior: Bytes, taken: seq<Bytes>, got: seq<Event>, bytes: Bytes, m: Bytes)
    requires Inbound(a, c, prior, taken, got, [], bytes) && |got| == |taken| && |m| <= MAX_FRAME_SIZE
    ensures Inbound(a, c, prior, taken + [m],
                    got + match Receive(a, c.After(|got|), m) case Err(_) => [] case Ok(ev) => [ev],
                    [], bytes + Enframe(m))
  {
    hide Enframe, EnframeAll, Received, Receive, Deframe;
    EnframeAllSnoc(taken, m);
    ReceivedSnoc(a, c, taken, m);
    assert prior + (EnframeAll(taken) + []) + Enframe(m) == prior + (EnframeAll(taken) + Enframe(m) + []);
  }

  lemma InboundFailed(a: Aead, c: Context, prior: Bytes, taken: seq<Bytes>, got: seq<Event>, bytes: Bytes, used: Bytes)
    requires Inbound(a, c, prior, taken, got, [], bytes) && Deframe(used).Err?
    ensures Inbound(a, c, prior, taken, got, used, bytes + used)
  {
    hide EnframeAll, Received, Deframe;
    assert prior + (EnframeAll(taken) + []) + used == prior + (EnframeAll(taken) + used);
  }

  const RESHAPE_THRESHOLD := 8192
  const RESHAPE_MIN := 4096
  const RESHAPE_MAX := 12288

  /** The application bytes carried by `fs`: the payloads of its data frames, in order. */
  function TcpBytes(fs: seq<Sent>): Bytes {
    if fs == [] then []
    else TcpBytes(fs[..|fs| - 1]) + TcpPart(fs[|fs| - 1].frame)
  }

  function TcpPart(f: Frame): Bytes { if f.kind == TCP_DATA then f.payload else [] }

  lemma TcpBytesSnoc(fs: seq<Sent>, s: Sent)
    ensures TcpBytes(fs + [s]) == TcpBytes(fs) + TcpPart(s.frame)
  {
    assert (fs + [s])[..|fs|] == fs;
  }

  lemma {:induction false} TcpBytesAppend(xs: seq<Sent>, ys: seq<Sent>)
    ensures TcpBytes(xs + ys) == TcpBytes(xs) + TcpBytes(ys)
  {
    if ys == [] {
      assert xs + ys == xs;
    } else {
      hide TcpBytes, TcpPart;
      var front, last := ys[..|ys| - 1], ys[|ys| - 1];
      assert ys == front + [last] && xs + ys == (xs + front) + [last];
      TcpBytesAppend(xs, front);
      TcpBytesSnoc(xs + front, last);
      TcpBytesSnoc(front, last);
    }
  }

  /** A data frame carrying `chunk`, between the smallest bucket of its phase and 16384 bytes on the wire. */
  ghost predicate DataFrame(s: Sent, chunk: Bytes, index: nat) {
    && s.frame == Frame(TCP_DATA, [], chunk)
    && (if index < 16 then 1500 else 256) <= 4 + FrameLen(s.frame, |s.pad|) <= 16384
  }

  /** Data frames only, each between the smallest bucket of its phase and 16384 bytes on the wire. */
  ghost predicate DataFrames(fs: seq<Sent>, firstIndex: nat) {
    forall i | 0 <= i < |fs| :: DataFrame(fs[i], fs[i].frame.payload, firstIndex + i)
  }

  /** How a call that sends `payload` as data changes what a stream has sealed: by data frames that carry a prefix of it,
      all of it without an error; of these at most the last was reported lost, and nothing follows a lost frame. */
  ghost predicate Grown(payload: Bytes, log0: seq<Sent>, lost0: seq<Sent>, log: seq<Sent>, lost: seq<Sent>, err: Option<Error>) {
    && log0 <= log && lost0 <= lost && (lost0 != [] ==> log == log0 && lost == lost0)
    && var news := log[|log0|..] + lost[|lost0|..];
    && DataFrames(news, |log0|) && TcpBytes(news) <= payload
    && (err.None? ==> lost == lost0 && TcpBytes(news) == payload)
  }

  /** New frames `sent` in the log, and `tail` reported lost. */
  lemma GrowsBy(payload: Bytes, log0: seq<Sent>, lost0: seq<Sent>, sent: seq<Sent>, tail: seq<Sent>, err: Option<Error>)
    requires sent + tail != [] ==> lost0 == []
    requires DataFrames(sent + tail, |log0|) && TcpBytes(sent + tail) <= payload
    requires err.None? ==> tail == [] && TcpBytes(sent) == payload
    ensures Grown(payload, log0, lost0, log0 + sent, lost0 + tail, err)
  {
    hide DataFrames, TcpBytes;
    assert (log0 + sent)[|log0|..] == sent && (lost0 + tail)[|lost0|..] == tail;
    assert sent + [] == sent;
    assert log0 + [] == log0 && lost0 + [] == lost0;
  }

  /** The sealed data grows by the data of the new frames. */
  lemma GrownBytes(payload: Bytes, log0: seq<Sent>, lost0: seq<Sent>, log: seq<Sent>, lost: seq<Sent>, err: Option<Error>)
    requires Grown(payload, log0, lost0, log, lost, err)
    ensures TcpBytes(log + lost) == TcpBytes(log0 + lost0) + TcpBytes(log[|log0|..] + lost[|lost0|..])
  {
    hide DataFrames, TcpBytes;
    var news := log[|log0|..] + lost[|lost0|..];
    if lost0 == [] {
      assert log + lost == log0 + lost0 + news;
    } else {
      assert news == [] && log + lost == log0 + lost0 + news;
    }
    TcpBytesAppend(log0 + lost0, news);
  }

  lemma TcpBytesOfChunk(s: Sent, chunk: Bytes, index: nat)
    requires DataFrame(s, chunk, index)
    ensures TcpBytes([s]) == chunk && DataFrames([s], index)
  {
    assert TcpBytes([s]) == TcpBytes([]) + chunk;
  }

  /** A reshape under way: `sent` carries the payload up to `rest`, in pieces of at most RESHAPE_MAX and, but for the
      last, at least RESHAPE_MIN bytes. */
  ghost predicate Reshaping(payload: Bytes, sent: seq<Sent>, rest: Bytes, firstIndex: nat) {
    && DataFrames(sent, firstIndex)
    && payload == TcpBytes(sent) + rest
    && |payload| - |rest| <= |sent| * RESHAPE_MAX
    && (if rest != [] then |sent| * RESHAPE_MIN <= |payload| - |rest| else (|sent| - 1) * RESHAPE_MIN < |payload|)
  }

  lemma ReshapeStart(payload: Bytes, firstIndex: nat)
    requires payload != []
    ensures Reshaping(payload, [], payload, firstIndex)
  {
  }

  lemma ReshapePrefix(payload: Bytes, sent: seq<Sent>, rest: Bytes, firstIndex: nat)
    requires Reshaping(payload, sent, rest, firstIndex)
    ensures DataFrames(sent, firstIndex) && TcpBytes(sent) <= payload
  {
  }

  lemma ReshapeShort(payload: Bytes, sent: seq<Sent>, rest: Bytes, firstIndex: nat)
    requires Reshaping(payload, sent, rest, firstIndex) && rest != []
    ensures |TcpBytes(sent)| < |payload|
  {
  }

  lemma ReshapeStep(payload: Bytes, sent: seq<Sent>, rest: Bytes, firstIndex: nat, s: Sent)
    requires Reshaping(payload, sent, rest, firstIndex) && DataFrame(s, s.frame.payload, firstIndex + |sent|)
    requires 0 < |s.frame.payload| && s.frame.payload <= rest
    requires if |rest| <= RESHAPE_MAX then s.frame.payload == rest
             else RESHAPE_MIN <= |s.frame.payload| <= RESHAPE_MAX
    ensures Reshaping(payload, sent + [s], rest[|s.frame.payload|..], firstIndex)
  {
    hide TcpBytes, DataFrames;
    var n := |s.frame.payload|;
    TcpBytesSnoc(sent, s);
    DataFramesSnoc(sent, firstIndex, s);
    assert rest == s.frame.payload + rest[n..];
    assert payload == TcpBytes(sent + [s]) + rest[n..];
    assert |sent + [s]| == |sent| + 1;
  }

  lemma DataFramesSnoc(fs: seq<Sent>, firstIndex: nat, s: Sent)
    requires DataFrames(fs, firstIndex) && DataFrame(s, s.frame.payload, firstIndex + |fs|)
    ensures DataFrames(fs + [s], firstIndex)
  {
    hide DataFrame;
  }

  /** A finished reshape used between n / RESHAPE_MAX and n / RESHAPE_MIN frames, both rounded up. */
  lemma ReshapeDone(payload: Bytes, sent: seq<Sent>, firstIndex: nat)
    requires payload != [] && Reshaping(payload, sent, [], firstIndex)
    ensures TcpBytes(sent) == payload && DataFrames(sent, firstIndex)
    ensures (|payload| + RESHAPE_MAX - 1) / RESHAPE_MAX <= |sent| <= (|payload| + RESHAPE_MIN - 1) / RESHAPE_MIN
  {
  }

  lemma ReshapeAll(payload: Bytes, sent: seq<Sent>, log0: seq<Sent>, lost0: seq<Sent>)
    requires payload != [] && Reshaping(payload, sent, [], |log0|) && (sent != [] ==> lost0 == [])
    ensures Grown(payload, log0, lost0, log0 + sent, lost0, None)
    ensures (|payload| + RESHAPE_MAX - 1) / RESHAPE_MAX <= |sent| <= (|payload| + RESHAPE_MIN - 1) / RESHAPE_MIN
  {
    ReshapeDone(payload, sent, |log0|);
    hide Reshaping, Grown, DataFrames, TcpBytes;
    assert sent + [] == sent && lost0 + [] == lost0;
    GrowsBy(payload, log0, lost0, sent, [], None);
  }

  /** A reshape cut short before its next chunk, or with that chunk handed to the connection but reported lost. */
  lemma ReshapeFails(payload: Bytes, sent: seq<Sent>, rest: Bytes, log0: seq<Sent>, lost0: seq<Sent>,
                     lost: seq<Sent>, chunk: nat, err: Option<Error>)
    requires Reshaping(payload, sent, rest, |log0|) && err.Some? && (sent != [] ==> lost0 == [])
    requires 0 < chunk <= |rest| && (if |rest| <= RESHAPE_MAX then chunk == |rest| else RESHAPE_MIN <= chunk <= RESHAPE_MAX)
    requires lost == lost0 || (lost0 == [] && |lost| == 1 && DataFrame(lost[0], rest[..chunk], |log0| + |sent|))
    ensures Grown(payload, log0, lost0, log0 + sent, lost, err) && |TcpBytes(sent)| < |payload|
  {
    ReshapeShort(payload, sent, rest, |log0|);
    hide Grown, Reshaping, DataFrames;
    if lost == lost0 {
      assert sent + [] == sent && lost0 + [] == lost;
      ReshapePrefix(payload, sent, rest, |log0|);
      GrowsBy(payload, log0, lost0, sent, [], err);
    } else {
      assert lost == [lost[0]] == lost0 + lost;
      ReshapeStep(payload, sent, rest, |log0|, lost[0]);
      ReshapePrefix(payload, sent + lost, rest[chunk..], |log0|);
      GrowsBy(payload, log0, lost0, sent, lost, err);
    }
  }

  // ------------------------------------------------------------------
  // The stream
  // ------------------------------------------------------------------

  /** The event of the next Recv on a connection with these bytes to come, and the bytes behind that message. */
  function NextOf(a: Aead, c: Context, bytes: Bytes): Result<Event> {
    match Deframe(bytes)
    case Err(e) => Err(e)
    case Ok(m) => Receive(a, c, m)
  }

  function Behind(bytes: Bytes): (rest: Bytes)
    ensures |rest| <= |bytes| && (Deframe(bytes).Ok? ==> |rest| < |bytes|)
  {
    match Deframe(bytes)
    case Err(_) => []
    case Ok(m) => bytes[4 + |m|..]
  }

  /** The answers to a frame that fits: sent, no randomness for its pad, or a failed connection. */
  ghost predicate SentOrFailed(err: Option<Error>, closed: bool) {
    if closed then err == Some(TransportFailure) else err == None || err == Some(RandomFailure)
  }

  /** What a live stream answers to a frame with `pad` pad bytes, and whether it survives. */
  ghost predicate SizeVerdict(f: Frame, pad: nat, err: Option<Error>, closed: bool) {
    if EncodeError(f, pad).Some? then err == EncodeError(f, pad) && !closed
    else if RawWire(f) + pad > MAX_FRAME_SIZE then
      if closed then err == Some(FrameTooLarge) else err == Some(RandomFailure) && pad > 0
    else SentOrFailed(err, closed) && (err == Some(RandomFailure) ==> pad > 0)
  }

  /** The same under the bucket policy: four sizes end the stream, larger ones are refused and leave it alive. */
  ghost predicate PolicyVerdict(f: Frame, err: Option<Error>, closed: bool) {
    if RawWire(f) > MAX_FRAME_SIZE + 4 then err == Some(FrameTooLarge) && !closed
    else if RawWire(f) > MAX_FRAME_SIZE then err == Some(FrameTooLarge) && closed
    else SentOrFailed(err, closed)
  }

  lemma PolicyVerdictOf(f: Frame, frameIndex: nat, up: bool, err: Option<Error>, closed: bool)
    requires ValidType(f.kind) && |f.meta| <= MAX_META_LEN
    requires 0 <= PadFor(RawWire(f), Ladder(frameIndex), up)
    requires SizeVerdict(f, PadFor(RawWire(f), Ladder(frameIndex), up), err, closed)
    ensures PolicyVerdict(f, err, closed)
  {
    hide PadFor, Ladder;
    PaddingNeverBlocks(f, frameIndex, up);
    EncodedButRefused(f, frameIndex, up);
  }

  /** One of the four sizes: a ping whose cookie has 65504 bytes. */
  lemma LongPingCloses(err: Option<Error>, closed: bool)
    ensures var f := Op.Ping(Zeros(65504)).ToFrame();
            && f.Ok? && ValidType(f.value.kind) && |f.value.meta| <= MAX_META_LEN
            && (PolicyVerdict(f.value, err, closed) <==> err == Some(FrameTooLarge) && closed)
  {
    assert RawWire(Frame(PING, [], Zeros(65504))) == MAX_FRAME_SIZE + 1;
  }

  class SecureStream {
    const aead: Aead
    const tr: LengthFramer
    const send: FrameAead
    const recv: FrameAead
    var sendBuf: array<Byte>
    var closed: bool
    var frmOut: nat
    /** Where the sending counter started, what the connection had been given before, every frame whose send succeeded
        since, and the frame, if any, that was handed to the connection in a send that failed. */
    ghost const start: Context
    ghost const sentBefore: Bytes
    ghost var log: seq<Sent>
    ghost var lost: seq<Sent>
    /** Where the receiving counter started, what had been read before, every message read since, the events returned
        for them, and the bytes a failed read consumed. */
    ghost const recvStart: Context
    ghost const readBefore: Bytes
    ghost var taken: seq<Bytes>
    ghost var got: seq<Event>
    ghost var leftover: Bytes

    /** Every frame any byte of which can be on the connection. */
    ghost function Sealed(): seq<Sent>
      reads this
    {
      log + lost
    }

    /** The bytes handed to the connection, and the bytes read from it, since this stream took over. */
    ghost function SentBytes(): Bytes
      requires Valid()
      reads this, tr, tr.c, send, recv
    {
      tr.c.outgoing[|sentBefore|..]
    }

    ghost function ReadBytes(): Bytes
      requires Valid()
      reads this, tr, tr.c, send, recv
    {
      tr.c.read[|readBefore|..]
    }

    ghost predicate Valid()
      reads this, tr, tr.c, send, recv
    {
      && tr.Valid() && send != recv && send.aead == aead && recv.aead == aead && frmOut == |log|
      && Outbound(aead, start, sentBefore, log, lost, tr.c.outgoing)
      && Inbound(aead, recvStart, readBefore, taken, got, leftover, tr.c.read)
      && (!closed ==>
            && lost == [] && send.Ctx() == start.After(|log|)
            && leftover == [] && |got| == |taken| && recv.Ctx() == recvStart.After(|got|))
      && (closed ==> !tr.c.open)
    }

    constructor (aead: Aead, tr: LengthFramer, sendKey: Bytes32, sendPrefix: Bytes4, recvKey: Bytes32, recvPrefix: Bytes4)
      requires tr.Valid()
      ensures Valid() && !closed && log == [] && lost == [] && this.tr == tr && this.aead == aead && fresh(sendBuf)
      ensures fresh(send) && fresh(recv)
      ensures start == Context(sendKey, sendPrefix, 0) && recvStart == Context(recvKey, recvPrefix, 0)
      ensures taken == [] && got == [] && SentBytes() == [] && ReadBytes() == []
    {
      hide Outbound, Inbound;
      this.aead, this.tr := aead, tr;
      send := new FrameAead(aead, sendKey, sendPrefix);
      recv := new FrameAead(aead, recvKey, recvPrefix);
      sendBuf := new Byte[0];
      closed, frmOut, log, lost := false, 0, [], [];
      start, sentBefore := Context(sendKey, sendPrefix, 0), tr.c.outgoing;
      recvStart, readBefore, taken, got, leftover := Context(recvKey, recvPrefix, 0), tr.c.read, [], [], [];
      new;
      OutboundStart(aead, start, sentBefore);
      InboundStart(aead, recvStart, readBefore);
      NextAfter(start, 0);
      NextAfter(recvStart, 0);
    }

    method Close()
      requires Valid()
      modifies this`closed, tr.c`open
      ensures Valid() && closed && !tr.c.open
    {
      hide Outbound, Inbound;
      if !closed {
        CloseNow();
      }
    }

    /** sendFrame: the only way onto the wire. A negative padLen asks for the bucket policy. Every Send* method
        hands it a frame whose metadata the peer can parse (OpArrives). */
    method SendFrame(f: Frame, padLen: int) returns (err: Option<Error>)
      requires Valid() && EventOf(f).Ok?
      modifies this`sendBuf, this`closed, this`frmOut, this`log, this`lost, sendBuf, send, tr.c`outgoing, tr.c`failedWrites, tr.c`open
      ensures fresh(sendBuf) || sendBuf == old(sendBuf)
      ensures Valid()
      ensures old(closed) ==> closed && log == old(log) && lost == old(lost)
      ensures err == Some(ClosedPipe) <==> old(closed)
      ensures tr.c.failedWrites == old(tr.c.failedWrites) + if err == Some(TransportFailure) then 1 else 0
      ensures send.drawsFailed == old(send.drawsFailed) + if err == Some(RandomFailure) then 1 else 0
      ensures err.None? ==>
                && !old(closed) && !closed && |log| == |old(log)| + 1 && log[..|old(log)|] == old(log)
                && log[|old(log)|].frame == f
                && (padLen >= 0 ==> |log[|old(log)|].pad| == padLen)
                && (padLen < 0 ==> exists up :: |log[|old(log)|].pad| == PadFor(RawWire(f), Ladder(|old(log)|), up))
      ensures err.Some? ==> log == old(log)
      ensures !old(closed) ==> old(lost) == [] && |lost| == if err == Some(TransportFailure) then 1 else 0
      ensures !old(closed) && lost != [] ==>
                && closed && lost[0].frame == f
                && (padLen < 0 ==> exists up :: |lost[0].pad| == PadFor(RawWire(f), Ladder(|old(log)|), up))
      ensures err.Some? && !closed ==>
                && send.Ctx() == old(send.Ctx()) && tr.c.outgoing == old(tr.c.outgoing)
                && tr.c.open == old(tr.c.open)
      ensures !old(closed) && padLen >= 0 ==> SizeVerdict(f, padLen, err, closed)
      ensures !old(closed) && padLen < 0 && ValidType(f.kind) && |f.meta| <= MAX_META_LEN ==>
                && PolicyVerdict(f, err, closed)
                && (err != Some(TransportFailure) ==>
                      (closed <==> MAX_FRAME_SIZE < RawWire(f) <= MAX_FRAME_SIZE + 4))
    {
      hide EncodeFrame, PadFor, Ladder, EncodeError, Encodable, Outbound, Inbound, EventOf, SizeVerdict;
      if closed {
        return Some(ClosedPipe);
      }
      var pad := padLen;
      ghost var up := true;
      if padLen < 0 {
        var draw: Option<U32> := *;
        pad := PolicyPad(f, draw);
        up := BucketUp(draw);
      }
      err := EncodeAndSend(f, pad);
      if padLen < 0 && ValidType(f.kind) && |f.meta| <= MAX_META_LEN {
        PolicyVerdictOf(f, |old(log)|, up, err, closed);
      }
    }

    /** The bucket policy's pad for a frame about to be sent. */
    method PolicyPad(f: Frame, draw: Option<U32>) returns (pad: nat)
      ensures pad == PadFor(RawWire(f), Ladder(frmOut), BucketUp(draw))
    {
      hide PadFor, Ladder, BucketUp;
      var rawWire := HEADER_SIZE + |f.meta| + |f.payload| + AEAD_OVERHEAD;
      var n := SuggestStreamPad(rawWire, frmOut, draw);
      PadRange(rawWire, Ladder(frmOut), BucketUp(draw));
      pad := n;
    }

    /** The part of sendFrame behind the closed check and the choice of padding. */
    method EncodeAndSend(f: Frame, pad: nat) returns (err: Option<Error>)
      requires Valid() && !closed && EventOf(f).Ok?
      modifies this`sendBuf, this`closed, this`frmOut, this`log, this`lost, sendBuf, send, tr.c`outgoing, tr.c`failedWrites, tr.c`open
      ensures Valid()
      ensures fresh(sendBuf) || sendBuf == old(sendBuf)
      ensures err.None? ==>
                && !closed && |log| == |old(log)| + 1 && log[..|old(log)|] == old(log)
                && log[|old(log)|].frame == f && |log[|old(log)|].pad| == pad
      ensures err.Some? ==> log == old(log)
      ensures old(lost) == [] && |lost| == if err == Some(TransportFailure) then 1 else 0
      ensures lost != [] ==> closed && lost[0].frame == f && |lost[0].pad| == pad
      ensures err != Some(ClosedPipe)
      ensures tr.c.failedWrites == old(tr.c.failedWrites) + if err == Some(TransportFailure) then 1 else 0
      ensures send.drawsFailed == old(send.drawsFailed) + if err == Some(RandomFailure) then 1 else 0
      ensures err.Some? && !closed ==>
                && send.Ctx() == old(send.Ctx()) && tr.c.outgoing == old(tr.c.outgoing)
                && tr.c.open == old(tr.c.open)
      ensures SizeVerdict(f, pad, err, closed)
    {
      hide EncodeFrame, EncodeError, Encodable, Outbound, Inbound, EventOf;
      var wire, e, padBytes := Encode(f, pad);
      if e.Some? {
        EncodeErrors(f, pad);
        return e;
      }
      NextAfter(start, |log|);
      err := Transmit(wire, Sent(f, padBytes));
    }

    /** The transport send and what follows from its result. `s` is the frame in `wire`. */
    method Transmit(wire: Bytes, ghost s: Sent) returns (err: Option<Error>)
      requires !closed && lost == [] && frmOut == |log| && Outbound(aead, start, sentBefore, log, [], tr.c.outgoing)
      requires Encodable(s.frame, |s.pad|) && EventOf(s.frame).Ok?
      requires wire == EncodeFrame(aead, start.After(|log|), s.frame, s.pad)
      modifies this`closed, this`frmOut, this`log, this`lost, tr.c`outgoing, tr.c`failedWrites, tr.c`open
      ensures frmOut == |log| && Outbound(aead, start, sentBefore, log, lost, tr.c.outgoing)
      ensures err.None? ==> !closed && log == old(log) + [s] && lost == [] && tr.c.open == old(tr.c.open)
      ensures err.Some? ==> closed && !tr.c.open && log == old(log)
      ensures if |wire| > MAX_FRAME_SIZE then err == Some(FrameTooLarge) else err == None || err == Some(TransportFailure)
      ensures lost == if err == Some(TransportFailure) then [s] else []
      ensures tr.c.failedWrites == old(tr.c.failedWrites) + if err == Some(TransportFailure) then 1 else 0
    {
      hide EncodeFrame, Encodable, Outbound, EventOf, Enframe;
      err := tr.SendMessage(wire);
      if err.Some? {
        if |wire| <= MAX_FRAME_SIZE {
          OutboundLost(aead, start, sentBefore, log, old(tr.c.outgoing), s, tr.c.outgoing);
          lost := [s];
        }
        CloseNow();
        return;
      }
      OutboundSent(aead, start, sentBefore, log, old(tr.c.outgoing), s);
      frmOut := frmOut + 1;
      log := log + [s];
    }

    /** The encoding, in the stream's scratch buffer. */
    method Encode(f: Frame, pad: nat) returns (wire: Bytes, err: Option<Error>, ghost padBytes: Bytes)
      requires send.aead == aead
      modifies this`sendBuf, sendBuf, send
      ensures fresh(sendBuf) || sendBuf == old(sendBuf)
      ensures EncodeError(f, pad).Some? ==> err == EncodeError(f, pad)
      ensures EncodeError(f, pad).None? ==> err == None || (err == Some(RandomFailure) && pad > 0)
      ensures err.Some? ==> send.Ctx() == old(send.Ctx())
      ensures send.drawsFailed == old(send.drawsFailed) + if err == Some(RandomFailure) then 1 else 0
      ensures err.None? ==>
                && |padBytes| == pad && Encodable(f, pad)
                && wire == EncodeFrame(aead, old(send.Ctx()), f, padBytes) && send.Ctx() == old(send.Ctx()).Next()
    {
      hide EncodeFrame, EncodeError, Encodable;
      var total := HEADER_SIZE + |f.meta| + |f.payload| + AEAD_OVERHEAD + pad;
      if sendBuf.Length < total {
        sendBuf := new Byte[total];
      }
      var out, end;
      out, end, err, padBytes := send.EncodeAppend(sendBuf, 0, f, pad);
      if err.Some? {
        return [], err, [];
      }
      sendBuf := out;
      wire := out[..end];
    }

    /** The bytes of `payload` become data frames that concatenate to it; on an error, a prefix of them was sealed. */
    method SendTCPData(payload: Bytes) returns (err: Option<Error>)
      requires Valid()
      modifies this`sendBuf, this`closed, this`frmOut, this`log, this`lost, sendBuf, send, tr.c`outgoing, tr.c`failedWrites, tr.c`open
      ensures Valid()
      ensures fresh(sendBuf) || sendBuf == old(sendBuf)
      ensures Grown(payload, old(log), old(lost), log, lost, err)
      ensures err.None? && |payload| <= 8192 ==> |log| == |old(log)| + 1
      ensures err.None? && |payload| > 8192 ==>
                (|payload| + 12287) / 12288 <= |log| - |old(log)| <= (|payload| + 4095) / 4096
      ensures err.Some? ==> err.value in {ClosedPipe, TransportFailure, RandomFailure}
      ensures closed <==> err == Some(ClosedPipe) || err == Some(TransportFailure)
      ensures err == Some(ClosedPipe) <==> old(closed)
      ensures tr.c.failedWrites == old(tr.c.failedWrites) + if err == Some(TransportFailure) then 1 else 0
      ensures send.drawsFailed == old(send.drawsFailed) + if err == Some(RandomFailure) then 1 else 0
      ensures err.Some? && payload != [] ==> |TcpBytes(log[|old(log)|..])| < |payload|
    {
      hide Valid, Grown;
      if |payload| > RESHAPE_THRESHOLD {
        err := SendReshaped(payload);
        return;
      }
      err := SendChunk(payload);
      ghost var sent, tail := log[|old(log)|..], lost[|old(lost)|..];
      if err.None? {
        assert sent == [log[|old(log)|]] && sent + tail == sent;
        TcpBytesOfChunk(sent[0], payload, |old(log)|);
      } else if lost != old(lost) {
        assert tail == [lost[0]] && sent + tail == tail;
        TcpBytesOfChunk(tail[0], payload, |old(log)|);
      }
      assert log == old(log) + sent && lost == old(lost) + tail;
      GrowsBy(payload, old(log), old(lost), sent, tail, err);
    }

    /** The loop of SendTCPData for payloads above the threshold. */
    method SendReshaped(payload: Bytes) returns (err: Option<Error>)
      requires Valid() && |payload| > RESHAPE_THRESHOLD
      modifies this`sendBuf, this`closed, this`frmOut, this`log, this`lost, sendBuf, send, tr.c`outgoing, tr.c`failedWrites, tr.c`open
      ensures Valid()
      ensures fresh(sendBuf) || sendBuf == old(sendBuf)
      ensures Grown(payload, old(log), old(lost), log, lost, err)
      ensures err.None? ==>
                (|payload| + RESHAPE_MAX - 1) / RESHAPE_MAX <= |log| - |old(log)|
                <= (|payload| + RESHAPE_MIN - 1) / RESHAPE_MIN
      ensures err.Some? ==> err.value in {ClosedPipe, TransportFailure, RandomFailure}
      ensures closed <==> err == Some(ClosedPipe) || err == Some(TransportFailure)
      ensures err == Some(ClosedPipe) <==> old(closed)
      ensures tr.c.failedWrites == old(tr.c.failedWrites) + if err == Some(TransportFailure) then 1 else 0
      ensures send.drawsFailed == old(send.drawsFailed) + if err == Some(RandomFailure) then 1 else 0
      ensures err.Some? ==> |TcpBytes(log[|old(log)|..])| < |payload|
    {
      hide Valid, Reshaping, DataFrames, Grown, TcpBytes, SecureRandIntn;
      var rest := payload;
      ghost var sent: seq<Sent> := [];
      ReshapeStart(payload, |log|);
      while rest != []
        invariant Valid()
        invariant fresh(sendBuf) || sendBuf == old(sendBuf)
        invariant log == old(log) + sent && lost == old(lost) && Reshaping(payload, sent, rest, |old(log)|)
        invariant if sent == [] then closed == old(closed) else !closed && !old(closed) && lost == []
        invariant tr.c.failedWrites == old(tr.c.failedWrites) && send.drawsFailed == old(send.drawsFailed)
        decreases |rest|
      {
        var draw: Option<U32> := *;
        var chunk := NextChunk(|rest|, draw);
        err := SendChunk(rest[..chunk]);
        if err.Some? {
          ReshapeFails(payload, sent, rest, old(log), old(lost), lost, chunk, err);
          assert log[|old(log)|..] == sent;
          return;
        }
        ghost var s := log[|log| - 1];
        ReshapeStep(payload, sent, rest, |old(log)|, s);
        sent, rest := sent + [s], rest[chunk..];
      }
      ReshapeAll(payload, sent, old(log), old(lost));
      return None;
    }

    /** The size of the next piece of a payload of which `n` bytes are left. */
    method NextChunk(n: nat, draw: Option<U32>) returns (chunk: nat)
      requires n > 0
      ensures if n <= RESHAPE_MAX then chunk == n else RESHAPE_MIN <= chunk <= RESHAPE_MAX
      ensures n > RESHAPE_MAX ==> chunk == RESHAPE_MIN + SecureRandIntn(8193, draw)
    {
      chunk := n;
      if chunk > RESHAPE_MAX {
        chunk := RESHAPE_MIN + SecureRandIntn(RESHAPE_MAX - RESHAPE_MIN + 1, draw);
      }
      if chunk > n {
        chunk := n;
      }
    }

    /** One data frame of at most RESHAPE_MAX bytes under the bucket policy: it never fails for its size. */
    method SendChunk(chunk: Bytes) returns (err: Option<Error>)
      requires Valid() && |chunk| <= RESHAPE_MAX
      modifies this`sendBuf, this`closed, this`frmOut, this`log, this`lost, sendBuf, send, tr.c`outgoing, tr.c`failedWrites, tr.c`open
      ensures Valid()
      ensures fresh(sendBuf) || sendBuf == old(sendBuf)
      ensures err.None? ==>
                && !closed && !old(closed) && |log| == |old(log)| + 1 && log[..|old(log)|] == old(log)
                && DataFrame(log[|old(log)|], chunk, |old(log)|) && lost == old(lost) == []
      ensures err.Some? ==>
                && log == old(log) && err.value in {ClosedPipe, TransportFailure, RandomFailure}
                && (lost == old(lost) || (old(lost) == [] && |lost| == 1 && DataFrame(lost[0], chunk, |log|)))
      ensures closed <==> err == Some(ClosedPipe) || err == Some(TransportFailure)
      ensures err == Some(ClosedPipe) <==> old(closed)
      ensures tr.c.failedWrites == old(tr.c.failedWrites) + if err == Some(TransportFailure) then 1 else 0
      ensures send.drawsFailed == old(send.drawsFailed) + if err == Some(RandomFailure) then 1 else 0
    {
      hide Valid, PadFor, Ladder, SizeVerdict;
      ghost var f := Frame(TCP_DATA, [], chunk);
      err := SendFrame(Frame(TCP_DATA, [], chunk), -1);
      if err.None? {
        ghost var up :| |log[|old(log)|].pad| == PadFor(RawWire(f), Ladder(|old(log)|), up);
        WireSizeOnLadder(RawWire(f), |old(log)|, up);
      } else if !old(closed) && lost != [] {
        ghost var up :| |lost[0].pad| == PadFor(RawWire(f), Ladder(|old(log)|), up);
        WireSizeOnLadder(RawWire(f), |old(log)|, up);
      }
    }

    // The remaining senders are one frame each.

    /** `news` is the frame this call sealed, if it got that far. */
    method SendOp(op: Op) returns (err: Option<Error>, ghost news: seq<Sent>)
      requires Valid() && !op.TcpData?
      modifies this`sendBuf, this`closed, this`frmOut, this`log, this`lost, sendBuf, send, tr.c`outgoing, tr.c`failedWrites, tr.c`open
      ensures Valid()
      ensures fresh(sendBuf) || sendBuf == old(sendBuf)
      ensures |news| <= 1 && (news != [] ==> !old(closed) && op.ToFrame() == Ok(news[0].frame))
      ensures err.None? ==> !closed && !old(closed) && news != [] && log == old(log) + news && lost == old(lost) == []
      ensures err.Some? ==>
                && log == old(log) && lost == old(lost) + news
                && (news != [] <==> err == Some(TransportFailure)) && (news != [] ==> closed)
      ensures err == Some(ClosedPipe) <==> old(closed) && op.ToFrame().Ok?
      ensures tr.c.failedWrites == old(tr.c.failedWrites) + if err == Some(TransportFailure) then 1 else 0
      ensures send.drawsFailed == old(send.drawsFailed) + if err == Some(RandomFailure) then 1 else 0
      ensures news != [] ==> (EventOf(news[0].frame) == Ok(op.Requested()) <==> op.CanonicalTarget())
      ensures op.ToFrame().Err? ==> err == Some(DomainLength) && closed == old(closed)
      ensures !old(closed) && op.ToFrame().Ok? ==>
                && PolicyVerdict(op.ToFrame().value, err, closed)
                && (err != Some(TransportFailure) ==>
                      (closed <==> MAX_FRAME_SIZE < RawWire(op.ToFrame().value) <= MAX_FRAME_SIZE + 4))
      ensures old(closed) ==> closed
    {
      hide Valid, PadFor, Ladder, BuildUdpMeta, ParseUdpMeta, EventOf, PolicyVerdict, SizeVerdict, RawWire;
      OpArrives(op);
      news := [];
      assert lost + [] == lost;
      var f := op.ToFrame();
      if f.Err? {
        return Some(f.error), [];
      }
      err := SendFrame(f.value, -1);
      news := if err.None? then log[|old(log)|..] else lost[|old(lost)|..];
    }

    /** Recv: one message, or a terminal error. */
    method Recv() returns (r: Result<Event>)
      requires Valid()
      modifies this`closed, this`taken, this`got, this`leftover, recv, tr, tr.readBuf, tr.c`incoming, tr.c`read, tr.c`open
      ensures Valid()
      ensures tr.readBuf == old(tr.readBuf) || fresh(tr.readBuf)
      ensures old(closed) ==> r == Err(ClosedPipe) && tr.c.read == old(tr.c.read) && taken == old(taken) && got == old(got)
      ensures r.Ok? ==> !old(closed) && !closed && got == old(got) + [r.value] && |tr.c.incoming| < |old(tr.c.incoming)|
      ensures r.Err? ==> closed && got == old(got)
      ensures !old(closed) && !old(tr.c.open) ==> r == Err(ClosedPipe) && taken == old(taken)
      ensures !old(closed) && old(tr.c.open) ==>
                && r == NextOf(aead, recvStart.After(|old(got)|), old(tr.c.incoming))
                && taken == old(taken) + (match Deframe(old(tr.c.incoming)) case Err(_) => [] case Ok(m) => [m])
      ensures r.Ok? ==> tr.c.open && tr.c.incoming == Behind(old(tr.c.incoming))
      ensures old(tr.c.read) <= tr.c.read
    {
      hide Receive, Outbound, Inbound, Deframe, Enframe;
      if closed {
        return Err(ClosedPipe);
      }
      NextAfter(recvStart, |got|);
      var wire, used := tr.ReadMessage();
      if wire.Err? {
        InboundFailed(aead, recvStart, readBefore, taken, got, old(tr.c.read), used);
        leftover := used;
        CloseNow();
        return Err(wire.error);
      }
      ghost var m := wire.value[..];
      InboundTaken(aead, recvStart, readBefore, taken, got, old(tr.c.read), m);
      taken := taken + [m];
      assert got + [] == got;
      r := Decode(wire.value[..]);
      if r.Err? {
        CloseNow();
        return;
      }
      got := got + [r.value];
    }

    /** The event in one message. */
    method Decode(wire: Bytes) returns (r: Result<Event>)
      requires recv.aead == aead
      modifies recv
      ensures r == Receive(aead, old(recv.Ctx()), wire)
      ensures r.Ok? ==> recv.Ctx() == old(recv.Ctx()).Next()
    {
      hide DecodeFrame, EventOf;
      var reader := new ByteReader(wire);
      var d := recv.Decode(reader);
      r := if d.Err? then Err(d.error) else EventOf(d.value);
    }

    /** closeUnderlying. */
    method CloseNow()
      modifies this`closed, tr.c`open
      ensures closed && !tr.c.open
    {
      closed := true;
      tr.Close();
    }
  }

  // ------------------------------------------------------------------
  // Two streams, one connection
  // ------------------------------------------------------------------

  /** `r` reads what `w` sends, over a connection that delivers bytes in order and cut off anywhere. */
  ghost predicate Connected(w: SecureStream, r: SecureStream)
    reads w, w.tr, w.tr.c, w.send, w.recv, r, r.tr, r.tr.c, r.send, r.recv
  {
    w.Valid() && r.Valid() && w.aead == r.aead && w.start == r.recvStart && r.ReadBytes() <= w.SentBytes()
  }

  /** `r` has read all of it. */
  ghost predicate Drained(w: SecureStream, r: SecureStream)
    reads w, w.tr, w.tr.c, w.send, w.recv, r, r.tr, r.tr.c, r.send, r.recv
  {
    w.Valid() && r.Valid() && r.ReadBytes() == w.SentBytes()
  }

  /** Receiving the first messages of a sender yields the events of its first frames. */
  lemma {:induction false} ReceivedFromSender(a: Aead, c: Context, fs: seq<Sent>, m: nat)
    requires AllEncodable(fs) && m <= |fs|
    requires forall i | 0 <= i < m :: EventOf(fs[i].frame).Ok?
    ensures var r := Received(a, c, Wires(a, c, fs)[..m]);
            |r| == m && forall i | 0 <= i < m :: EventOf(fs[i].frame) == Ok(r[i])
  {
    hide EncodeFrame, DecodeFrame, EventOf, Encodable;
    if m > 0 {
      var w := Wires(a, c, fs);
      assert w[..m][..m - 1] == w[..m - 1];
      ReceivedFromSender(a, c, fs, m - 1);
      var f := fs[m - 1];
      assert w[..m][m - 1] == EncodeFrame(a, c.After(m - 1), f.frame, f.pad);
      DecodeOfEncode(a, c.After(m - 1), f.frame, f.pad, []);
      assert w[m - 1] + [] == w[m - 1];
    }
  }

  /** The messages cut out of any prefix of a sender's bytes are the sender's first messages, and no message it reported
      sent is missing once all its bytes have arrived. */
  lemma TakenFromSender(a: Aead, c: Context, log: seq<Sent>, lost: seq<Sent>, sent: Bytes,
                        taken: seq<Bytes>, leftover: Bytes)
    requires Sendable(log) && Sendable(log + lost) && AllEncodable(log + lost)
    requires SentStream(a, c, log) <= sent <= SentStream(a, c, log + lost)
    requires Framable(taken) && Deframe(leftover).Err? && EnframeAll(taken) + leftover <= sent
    ensures |taken| <= |log + lost| && taken == Wires(a, c, log + lost)[..|taken|]
    ensures EnframeAll(taken) + leftover == sent ==> |log| <= |taken|
  {
    hide EnframeAll, Wires, Deframe, Sendable, AllEncodable;
    WiresFramable(a, c, log);
    WiresFramable(a, c, log + lost);
    TakenIsPrefix(Wires(a, c, log + lost), taken, leftover);
    if EnframeAll(taken) + leftover == sent {
      TakenIsAll(Wires(a, c, log), taken, leftover);
    }
  }

  lemma EventsEndToEnd(a: Aead, c: Context, sentBefore: Bytes, log: seq<Sent>, lost: seq<Sent>, sent: Bytes,
                       readBefore: Bytes, taken: seq<Bytes>, got: seq<Event>, leftover: Bytes, read: Bytes)
    requires Outbound(a, c, sentBefore, log, lost, sent) && Inbound(a, c, readBefore, taken, got, leftover, read)
    requires read[|readBefore|..] <= sent[|sentBefore|..]
    ensures |got| <= |log + lost| <= |log| + 1
    ensures forall i | 0 <= i < |got| :: EventOf((log + lost)[i].frame) == Ok(got[i])
    ensures read[|readBefore|..] == sent[|sentBefore|..] ==> |log| <= |got|
  {
    hide EventOf, EnframeAll, SentStream, Wires, Received, Encodable, Deframe;
    WiresFramable(a, c, log + lost);
    assert read[|readBefore|..] == EnframeAll(taken) + leftover;
    assert SentStream(a, c, log) <= sent[|sentBefore|..] <= SentStream(a, c, log + lost);
    TakenFromSender(a, c, log, lost, sent[|sentBefore|..], taken, leftover);
    ReceivedFromSender(a, c, log + lost, |taken|);
  }

  /** A stream that has read any prefix of the bytes another one handed to the connection has received the events of the
      other's first frames, one each, in order; and of all frames reported sent once it has read every byte. Only the
      last frame received can be one whose send was reported failed. */
  lemma OneEventQueue(w: SecureStream, r: SecureStream)
    requires Connected(w, r)
    ensures |r.got| <= |w.Sealed()| <= |w.log| + 1
    ensures forall i | 0 <= i < |r.got| :: EventOf(w.Sealed()[i].frame) == Ok(r.got[i])
    ensures Drained(w, r) ==> |w.log| <= |r.got|
  {
    hide EventOf, Outbound, Inbound;
    EventsEndToEnd(w.aead, w.start, w.sentBefore, w.log, w.lost, w.tr.c.outgoing,
                   r.readBefore, r.taken, r.got, r.leftover, r.tr.c.read);
  }
}
