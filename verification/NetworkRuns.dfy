/** Both ends of one SecureStream connection over a network that drops, duplicates, reorders, alters and invents
    messages (securestream.go, frame.go): safety of every run. */
module NetworkRuns {
  import opened Octets
  import opened Crypto
  import opened Frames
  import opened Events
  import SecureStreams
  import StreamConns

  datatype Side = Client | Server {
    function Peer(): Side { if Client? then Server else Client }
  }

  /** A frame some Send* call sealed, with the call and the pad drawn. */
  datatype Out = Out(op: Op, frame: Frame, pad: Bytes) {
    ghost predicate Valid() { op.ToFrame() == Ok(frame) && Encodable(frame, |pad|) }
    function Wire(): Sent { Sent(frame, pad) }
  }

  /** One end: what it sealed, the events its Recv returned, and the closed flag. */
  datatype End = End(sent: seq<Out>, got: seq<Event>, closed: bool)

  datatype Net = Net(client: End, server: End) {
    function At(s: Side): End { if s.Client? then client else server }
    function With(s: Side, e: End): Net { if s.Client? then this.(client := e) else this.(server := e) }
  }

  /** The two directions' contexts, as NewClientSecureStream and NewServerSecureStream build them. */
  datatype Keys = Keys(c2s: Context, s2c: Context) {
    predicate Fresh() { c2s.counter == 0 && s2c.counter == 0 }
    function SendStart(s: Side): Context { if s.Client? then c2s else s2c }
    /** The directions differ in key or nonce prefix. */
    predicate Separated() { c2s.key != s2c.key || c2s.prefix != s2c.prefix }
  }

  const START := Net(End([], [], false), End([], [], false))

  /** A Send* call (with its pad bytes, and whether the transport reported success), a Close call, or a Recv call
      that the network hands `msg`. */
  datatype Action = Send(side: Side, op: Op, pad: Bytes, ok: bool) | Close(side: Side) | Deliver(side: Side, msg: Bytes)

  function RecvContext(k: Keys, st: Net, s: Side): Context { k.SendStart(s.Peer()).After(|st.At(s).got|) }

  /** A closed end fails every call and changes no more; an open one closes on the first error. */
  function Apply(a: Aead, k: Keys, st: Net, act: Action): Net {
    var e := st.At(act.side);
    if e.closed then st
    else
      match act
      case Close(s) => st.With(s, e.(closed := true))
      case Send(s, op, pad, ok) =>
        if op.ToFrame().Err? || !Encodable(op.ToFrame().value, |pad|) then st
        else st.With(s, e.(sent := e.sent + [Out(op, op.ToFrame().value, pad)], closed := !ok))
      case Deliver(s, msg) =>
        match Receive(a, RecvContext(k, st, s), msg)
        case Err(_) => st.With(s, e.(closed := true))
        case Ok(ev) => st.With(s, e.(got := e.got + [ev]))
  }

  function After(a: Aead, k: Keys, acts: seq<Action>): Net {
    if acts == [] then START else Apply(a, k, After(a, k, acts[..|acts| - 1]), acts[|acts| - 1])
  }

  // ------------------------------------------------------------------
  // What ideal encryption gives
  // ------------------------------------------------------------------

  /** The ciphertext DecodeFrame reads from `msg`. */
  function CipherPart(msg: Bytes): Bytes
    requires |msg| >= HEADER_SIZE
  {
    var h := GetHeader(msg[..HEADER_SIZE]);
    var n := h.frameLen - COUNTED_HEADER - h.padLen;
    if 0 <= n <= |msg| - HEADER_SIZE then msg[HEADER_SIZE..][..n] else []
  }

  /** Frame `x`, sealed in context `c`, has this key, nonce, header and ciphertext. */
  ghost predicate SealedAs(a: Aead, c: Context, x: Sent, rc: Context, hdr: Bytes, cipher: Bytes) {
    && Encodable(x.frame, |x.pad|)
    && rc.key == c.key && rc.Nonce() == c.Nonce()
    && hdr == PutHeader(HeaderOf(c, x.frame, |x.pad|))
    && cipher == CipherOf(a, c, x.frame, |x.pad|)
  }

  /** The same of the i-th frame sealed by `s`. */
  ghost predicate SealedBy(a: Aead, k: Keys, st: Net, s: Side, i: nat, rc: Context, hdr: Bytes, cipher: Bytes) {
    i < |st.At(s).sent| && SealedAs(a, k.SendStart(s).After(i), st.At(s).sent[i].Wire(), rc, hdr, cipher)
  }

  /** Ideal AEAD: if the receiver's Open succeeds on this message, one of the two ends sealed what it opened. */
  ghost predicate Unforged(a: Aead, k: Keys, st: Net, s: Side, msg: Bytes) {
    var c := RecvContext(k, st, s);
    DecodeFrame(a, c, msg).Good? ==>
      |msg| >= HEADER_SIZE && exists from, i :: SealedBy(a, k, st, from, i, c, msg[..HEADER_SIZE], CipherPart(msg))
  }

  /** No forgery happened anywhere in the run. */
  ghost predicate Legal(a: Aead, k: Keys, acts: seq<Action>) {
    forall i | 0 <= i < |acts| && acts[i].Deliver? :: Unforged(a, k, After(a, k, acts[..i]), acts[i].side, acts[i].msg)
  }

  // ------------------------------------------------------------------
  // Safety
  // ------------------------------------------------------------------

  /** The events are those of the first frames the peer sent, in order, without gap, repeat or invention; where a
      target was canonical the event is the very one that was asked for. */
  ghost predicate PrefixOf(got: seq<Event>, sent: seq<Out>) {
    && |got| <= |sent|
    && forall i | 0 <= i < |got| ::
         && EventOf(sent[i].frame) == Ok(got[i])
         && (sent[i].op.CanonicalTarget() ==> got[i] == sent[i].op.Requested())
  }

  ghost predicate Safe(st: Net) {
    PrefixOf(st.client.got, st.server.sent) && PrefixOf(st.server.got, st.client.sent)
  }

  ghost predicate AllValid(st: Net) {
    && (forall i | 0 <= i < |st.client.sent| :: st.client.sent[i].Valid())
    && (forall i | 0 <= i < |st.server.sent| :: st.server.sent[i].Valid())
  }

  ghost predicate FewFrames(st: Net) {
    |st.client.sent| < TWO64 && |st.server.sent| < TWO64
  }

  /** Only the peer's frame number n is sealed in the context of the n-th frame to receive. */
  lemma OneContext(k: Keys, s: Side, n: nat, from: Side, i: nat)
    requires k.Fresh() && k.Separated() && n < TWO64 && i < TWO64
    requires var rc, c := k.SendStart(s.Peer()).After(n), k.SendStart(from).After(i);
             rc.key == c.key && rc.Nonce() == c.Nonce()
    ensures from == s.Peer() && i == n
  {
    NonceDetermines(k.SendStart(s.Peer()).After(n), k.SendStart(from).After(i));
  }

  ghost predicate HasHeaderOf(hdr: Bytes, c: Context, x: Out) {
    Encodable(x.frame, |x.pad|) && hdr == PutHeader(HeaderOf(c, x.frame, |x.pad|))
  }

  /** What was sealed for the receiver's context is the peer's frame number |got|. */
  lemma SealedIsNext(a: Aead, k: Keys, st: Net, s: Side, from: Side, i: nat, hdr: Bytes, cipher: Bytes)
    requires k.Fresh() && k.Separated() && FewFrames(st) && |st.At(s).got| < TWO64 && |hdr| == HEADER_SIZE
    requires SealedBy(a, k, st, from, i, RecvContext(k, st, s), hdr, cipher)
    ensures from == s.Peer() && i == |st.At(s).got| < |st.At(from).sent|
    ensures OpenFrame(a, RecvContext(k, st, s), hdr, cipher) == Ok(st.At(from).sent[i].frame)
    ensures HasHeaderOf(hdr, RecvContext(k, st, s), st.At(from).sent[i])
  {
    hide PutHeader, OpenFrame, CipherOf, Encodable, PutUint;
    OneContext(k, s, |st.At(s).got|, from, i);
    var x := st.At(from).sent[i];
    OpenOfSeal(a, k.SendStart(from).After(i), x.frame, |x.pad|);
  }

  /** A message the receiver accepts carries the next frame the peer sent. */
  lemma AcceptedIsNext(a: Aead, k: Keys, st: Net, s: Side, msg: Bytes)
    requires k.Fresh() && k.Separated() && FewFrames(st) && Safe(st)
    requires Unforged(a, k, st, s, msg)
    requires DecodeFrame(a, RecvContext(k, st, s), msg).Good?
    ensures |st.At(s).got| < |st.At(s.Peer()).sent|
    ensures DecodeFrame(a, RecvContext(k, st, s), msg).frame == st.At(s.Peer()).sent[|st.At(s).got|].frame
    ensures |msg| >= HEADER_SIZE
    ensures HasHeaderOf(msg[..HEADER_SIZE], RecvContext(k, st, s), st.At(s.Peer()).sent[|st.At(s).got|])
  {
    hide GetHeader, SealedBy, HasHeaderOf;
    var c := RecvContext(k, st, s);
    var from, i :| SealedBy(a, k, st, from, i, c, msg[..HEADER_SIZE], CipherPart(msg));
    SealedIsNext(a, k, st, s, from, i, msg[..HEADER_SIZE], CipherPart(msg));
  }

  lemma PrefixOfMore(got: seq<Event>, sent: seq<Out>, x: Out)
    requires PrefixOf(got, sent)
    ensures PrefixOf(got, sent + [x])
  {
  }

  /** A delivery keeps the receiver's events a prefix of what the peer sent. */
  lemma DeliverIsSafe(a: Aead, k: Keys, st: Net, s: Side, msg: Bytes)
    requires k.Fresh() && k.Separated() && Safe(st) && AllValid(st) && FewFrames(st)
    requires Unforged(a, k, st, s, msg) && Receive(a, RecvContext(k, st, s), msg).Ok?
    ensures PrefixOf(st.At(s).got + [Receive(a, RecvContext(k, st, s), msg).value], st.At(s.Peer()).sent)
  {
    hide DecodeFrame, Encodable, EventOf, Unforged, HasHeaderOf;
    AcceptedIsNext(a, k, st, s, msg);
    OpArrives(st.At(s.Peer()).sent[|st.At(s).got|].op);
  }

  /** Every action keeps both directions safe. */
  lemma StepIsSafe(a: Aead, k: Keys, st: Net, act: Action)
    requires k.Fresh() && k.Separated() && Safe(st) && AllValid(st) && FewFrames(st)
    requires act.Deliver? ==> Unforged(a, k, st, act.side, act.msg)
    ensures Safe(Apply(a, k, st, act)) && AllValid(Apply(a, k, st, act))
  {
    hide Receive, Encodable, Unforged, PrefixOf;
    var s, e := act.side, st.At(act.side);
    if act.Deliver? && !e.closed && Receive(a, RecvContext(k, st, s), act.msg).Ok? {
      DeliverIsSafe(a, k, st, s, act.msg);
    } else if act.Send? && act.op.ToFrame().Ok? {
      PrefixOfMore(st.At(s.Peer()).got, e.sent, Out(act.op, act.op.ToFrame().value, act.pad));
    }
  }

  lemma {:induction false} SentGrows(a: Aead, k: Keys, acts: seq<Action>, n: nat)
    requires n <= |acts|
    ensures |After(a, k, acts[..n]).client.sent| <= |After(a, k, acts).client.sent|
    ensures |After(a, k, acts[..n]).server.sent| <= |After(a, k, acts).server.sent|
    decreases |acts|
  {
    hide Receive, Encodable;
    if n < |acts| {
      var before := acts[..|acts| - 1];
      assert before[..n] == acts[..n];
      SentGrows(a, k, before, n);
    } else {
      assert acts[..n] == acts;
    }
  }

  /** In every run without forgeries of fewer than 2^64 frames each way, each end's Recv has returned exactly a prefix
      of what the other end sent. */
  lemma {:induction false} RunIsSafe(a: Aead, k: Keys, acts: seq<Action>)
    requires k.Fresh() && k.Separated() && Legal(a, k, acts) && FewFrames(After(a, k, acts))
    ensures Safe(After(a, k, acts)) && AllValid(After(a, k, acts))
  {
    hide Apply, Unforged, EventOf;
    if acts != [] {
      var before, last := acts[..|acts| - 1], acts[|acts| - 1];
      SentGrows(a, k, acts, |acts| - 1);
      assert forall i | 0 <= i < |before| :: before[..i] == acts[..i];
      RunIsSafe(a, k, before);
      StepIsSafe(a, k, After(a, k, before), last);
    }
  }

  // ------------------------------------------------------------------
  // Exactness
  // ------------------------------------------------------------------

  /** An open end seals every frame that can be encoded, and closes when told to or when the transport fails; neither
      touches the other end. */
  lemma OpenEndActs(a: Aead, k: Keys, st: Net, s: Side, op: Op, pad: Bytes, ok: bool)
    requires !st.At(s).closed
    ensures var after := Apply(a, k, st, Close(s));
            after.At(s) == st.At(s).(closed := true) && after.At(s.Peer()) == st.At(s.Peer())
    ensures op.ToFrame().Ok? && Encodable(op.ToFrame().value, |pad|) ==>
              var after := Apply(a, k, st, Send(s, op, pad, ok));
              && after.At(s).sent == st.At(s).sent + [Out(op, op.ToFrame().value, pad)] && after.At(s).got == st.At(s).got
              && (after.At(s).closed <==> !ok) && after.At(s.Peer()) == st.At(s.Peer())
  {
  }

  /** `msg` is the peer's next frame, up to the content of its pad and anything behind it. */
  ghost predicate IsNextFrame(a: Aead, k: Keys, st: Net, s: Side, msg: Bytes) {
    var n, sent := |st.At(s).got|, st.At(s.Peer()).sent;
    && n < |sent| && Encodable(sent[n].frame, |sent[n].pad|)
    && exists pad: Bytes, rest: Bytes ::
         |pad| == |sent[n].pad| && msg == EncodeFrame(a, RecvContext(k, st, s), sent[n].frame, pad) + rest
  }

  /** An open end accepts exactly the peer's next frame; everything else closes it. */
  lemma AcceptsExactlyNext(a: Aead, k: Keys, st: Net, s: Side, msg: Bytes)
    requires k.Fresh() && k.Separated() && FewFrames(st) && Safe(st) && AllValid(st)
    requires Unforged(a, k, st, s, msg) && !st.At(s).closed
    ensures var after := Apply(a, k, st, Deliver(s, msg)).At(s);
            if IsNextFrame(a, k, st, s, msg) then !after.closed && |after.got| == |st.At(s).got| + 1
            else after.closed && after.got == st.At(s).got
  {
    hide DecodeFrame, EncodeFrame, Unforged, EventOf, Encodable, Safe, HasHeaderOf;
    var c, n, sent := RecvContext(k, st, s), |st.At(s).got|, st.At(s.Peer()).sent;
    if IsNextFrame(a, k, st, s, msg) {
      var pad: Bytes, rest: Bytes :| |pad| == |sent[n].pad| && msg == EncodeFrame(a, c, sent[n].frame, pad) + rest;
      DecodeOfEncode(a, c, sent[n].frame, pad, rest);
      OpArrives(sent[n].op);
    } else if DecodeFrame(a, c, msg).Good? {
      AcceptedIsNext(a, k, st, s, msg);
      AcceptedShape(a, c, msg, sent[n]);
    }
  }

  /** An accepted message is its frame's encoding with the pad length of the frame that was sealed. */
  lemma AcceptedShape(a: Aead, c: Context, msg: Bytes, x: Out)
    requires DecodeFrame(a, c, msg).Good? && DecodeFrame(a, c, msg).frame == x.frame
    requires |msg| >= HEADER_SIZE && HasHeaderOf(msg[..HEADER_SIZE], c, x)
    ensures exists pad: Bytes, rest: Bytes :: |pad| == |x.pad| && msg == EncodeFrame(a, c, x.frame, pad) + rest
  {
    hide DecodeFrame, EncodeFrame, PutHeader;
    var used := DecodeFrame(a, c, msg).used;
    GetPutHeader(HeaderOf(c, x.frame, |x.pad|));
    var pad := EncodeOfDecode(a, c, msg);
    assert msg == EncodeFrame(a, c, x.frame, pad) + msg[used..];
  }

  /** Once an end is closed, nothing it has sent or received changes again, whatever is called or delivered. */
  lemma {:induction false} ClosedIsFinal(a: Aead, k: Keys, acts: seq<Action>, n: nat, s: Side)
    requires n <= |acts| && After(a, k, acts[..n]).At(s).closed
    ensures After(a, k, acts).At(s) == After(a, k, acts[..n]).At(s)
    decreases |acts|
  {
    hide Receive, Encodable;
    if n < |acts| {
      var before := acts[..|acts| - 1];
      assert before[..n] == acts[..n];
      ClosedIsFinal(a, k, before, n, s);
    } else {
      assert acts[..n] == acts;
    }
  }

  // ------------------------------------------------------------------
  // The byte stream under attack
  // ------------------------------------------------------------------

  /** The application bytes an end sent. */
  function BytesSent(sent: seq<Out>): Bytes {
    if sent == [] then [] else BytesSent(sent[..|sent| - 1]) + SecureStreams.TcpPart(sent[|sent| - 1].frame)
  }

  lemma {:induction false} BytesOfPrefix(got: seq<Event>, sent: seq<Out>)
    requires PrefixOf(got, sent)
    ensures StreamConns.DataOf(got) == BytesSent(sent[..|got|])
  {
    if got != [] {
      var n := |got| - 1;
      BytesOfPrefix(got[..n], sent);
      assert sent[..n + 1][..n] == sent[..n];
      assert EventOf(sent[n].frame) == Ok(got[n]);
    }
  }

  lemma {:induction false} BytesSentPrefix(sent: seq<Out>, n: nat)
    requires n <= |sent|
    ensures BytesSent(sent[..n]) <= BytesSent(sent)
    decreases |sent|
  {
    if n < |sent| {
      var m := |sent| - 1;
      assert sent[..m][..n] == sent[..n];
      BytesSentPrefix(sent[..m], n);
    } else {
      assert sent[..n] == sent;
    }
  }

  /** Whatever the network does short of forging, the application bytes received at either end are a prefix of those
      sent at the other. */
  lemma BytesSafeUnderAttack(a: Aead, k: Keys, acts: seq<Action>, s: Side)
    requires k.Fresh() && k.Separated() && Legal(a, k, acts) && FewFrames(After(a, k, acts))
    ensures StreamConns.DataOf(After(a, k, acts).At(s).got) <= BytesSent(After(a, k, acts).At(s.Peer()).sent)
  {
    hide Apply, Unforged, PrefixOf;
    RunIsSafe(a, k, acts);
    var got, sent := After(a, k, acts).At(s).got, After(a, k, acts).At(s.Peer()).sent;
    assert |got| <= |sent| by {
      PrefixLength(got, sent);
    }
    BytesOfPrefix(got, sent);
    BytesSentPrefix(sent, |got|);
  }

  lemma PrefixLength(got: seq<Event>, sent: seq<Out>)
    requires PrefixOf(got, sent)
    ensures |got| <= |sent|
  {
  }

  // ------------------------------------------------------------------
  // The objects under attack
  // ------------------------------------------------------------------

  /** Ideal AEAD for the n-th message one end takes: what it opens was sealed by the peer's stream or by its own. */
  ghost predicate NotForged(a: Aead, k: Keys, s: Side, mine: seq<Sent>, peers: seq<Sent>, n: nat, msg: Bytes) {
    var c := k.SendStart(s.Peer()).After(n);
    DecodeFrame(a, c, msg).Good? ==>
      |msg| >= HEADER_SIZE && exists from: Side, i: nat ::
        var fs := if from == s then mine else peers;
        i < |fs| && SealedAs(a, k.SendStart(from).After(i), fs[i], c, msg[..HEADER_SIZE], CipherPart(msg))
  }

  lemma OpenedIsSealed(a: Aead, c: Context, x: Sent, msg: Bytes)
    requires DecodeFrame(a, c, msg).Good? && |msg| >= HEADER_SIZE
    requires SealedAs(a, c, x, c, msg[..HEADER_SIZE], CipherPart(msg))
    ensures DecodeFrame(a, c, msg).frame == x.frame
  {
    hide PutHeader, GetHeader, OpenFrame, CipherOf, Encodable, PutUint;
    OpenOfSeal(a, c, x.frame, |x.pad|);
  }

  /** A message accepted as the n-th carries the peer's n-th frame. */
  lemma AcceptedIsNth(a: Aead, k: Keys, s: Side, mine: seq<Sent>, peers: seq<Sent>, n: nat, msg: Bytes)
    requires k.Fresh() && k.Separated() && |mine| < TWO64 && |peers| < TWO64 && n < TWO64
    requires NotForged(a, k, s, mine, peers, n, msg)
    ensures var d := DecodeFrame(a, k.SendStart(s.Peer()).After(n), msg);
            d.Good? ==> n < |peers| && d.frame == peers[n].frame
  {
    hide DecodeFrame, PutHeader, CipherOf, Encodable, PutUint, CipherPart;
    var c := k.SendStart(s.Peer()).After(n);
    if DecodeFrame(a, c, msg).Good? {
      var from: Side, i: nat :|
        var fs := if from == s then mine else peers;
        i < |fs| && SealedAs(a, k.SendStart(from).After(i), fs[i], c, msg[..HEADER_SIZE], CipherPart(msg));
      OneContext(k, s, n, from, i);
      OpenedIsSealed(a, c, peers[n], msg);
    }
  }

  /** The events of messages taken from a network that cannot forge are those of the peer's first frames. */
  lemma {:induction false} TakenUnderAttack(a: Aead, k: Keys, s: Side, mine: seq<Sent>, peers: seq<Sent>, taken: seq<Bytes>)
    requires k.Fresh() && k.Separated() && |mine| < TWO64 && |peers| < TWO64
    requires forall n | 0 <= n < |taken| :: NotForged(a, k, s, mine, peers, n, taken[n])
    ensures var got := Received(a, k.SendStart(s.Peer()), taken);
            |got| <= |peers| && forall i | 0 <= i < |got| :: EventOf(peers[i].frame) == Ok(got[i])
  {
    hide DecodeFrame, EventOf, NotForged;
    if taken != [] {
      var n := |taken| - 1;
      TakenUnderAttack(a, k, s, mine, peers, taken[..n]);
      if |Received(a, k.SendStart(s.Peer()), taken[..n])| == n {
        AcceptedIsNth(a, k, s, mine, peers, n, taken[n]);
      }
    }
  }

  /** The two connection objects, with anything between them that cannot forge a frame: whatever bytes the reading end was
      handed, what it has returned or buffered is a prefix of what the writing end wrote. */
  lemma OneByteQueueUnderAttack(w: StreamConns.StreamConn, r: StreamConns.StreamConn, k: Keys, s: Side)
    requires w.Valid() && r.Valid() && k.Fresh() && k.Separated() && w.stream.aead == r.stream.aead
    requires w.stream.start == r.stream.recvStart == k.SendStart(s.Peer()) && r.stream.start == k.SendStart(s)
    requires |w.stream.Sealed()| < TWO64 && |r.stream.Sealed()| < TWO64
    requires forall n | 0 <= n < |r.stream.taken| ::
               NotForged(r.stream.aead, k, s, r.stream.Sealed(), w.stream.Sealed(), n, r.stream.taken[n])
    ensures r.delivered + r.readBuf <= w.written
  {
    hide NotForged, EventOf, Received, StreamConns.DataOf, SecureStreams.TcpBytes, SecureStreams.Outbound;
    var sealed, got := w.stream.Sealed(), r.stream.got;
    TakenUnderAttack(r.stream.aead, k, s, r.stream.Sealed(), sealed, r.stream.taken);
    var m := |got|;
    StreamConns.DataOfFrames(got, sealed[..m]);
    assert sealed == sealed[..m] + sealed[m..];
    SecureStreams.TcpBytesAppend(sealed[..m], sealed[m..]);
  }
}
