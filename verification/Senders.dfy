/** Concurrent callers of sendFrame and Close (securestream.go): the closed check outside the lock, the lock, encoding,
    the transport send and the unlock as separate steps, interleaved in any way. */
module Senders {
  import opened Octets
  import opened Crypto
  import opened Frames
  import opened SecureStreams

  /** Where one caller is inside sendFrame. */
  datatype Pc =
    | Idle
    | Checked(frame: Frame)                // passed the closed check, waits for writeMu
    | Holding(frame: Frame)                // holds writeMu
    | Encoded(frame: Frame, wire: Bytes)   // frame built, counter advanced
    | Refused(frame: Frame)                // transport send failed; inside closeUnderlying
    | Leaving(frame: Frame, ok: bool)      // about to release writeMu and return
  {
    predicate InLock() { Holding? || Encoded? || Refused? || Leaving? }
  }

  /** closeOnce: `closed` is stored first, then the transport is closed. Every caller of Do waits for both. */
  datatype Once = NotStarted | Storing | Complete

  /** A frame that was encoded, by whom, and the cipher context it was sealed in. */
  datatype Entry = Entry(caller: nat, sent: Sent, ctx: Context)

  datatype Finished = Finished(frame: Frame, ok: bool)

  /** `log` lists every frame encoded; `accepted` every message the transport took; `calls` what each caller's
      completed calls returned, in its own order. */
  datatype State = State(
    pcs: map<nat, Pc>, lock: Option<nat>, once: Once, ctx: Context,
    log: seq<Entry>, accepted: seq<Bytes>, calls: map<nat, seq<Finished>>)
  {
    function At(t: nat): Pc { if t in pcs then pcs[t] else Idle }
    function Calls(t: nat): seq<Finished> { if t in calls then calls[t] else [] }
    predicate Closed() { once != NotStarted }
    /** A closed transport refuses sends. */
    predicate Open() { once != Complete }
    function Set(t: nat, pc: Pc): State { this.(pcs := pcs[t := pc]) }
    function Return(t: nat, f: Frame, ok: bool): State {
      this.(pcs := pcs[t := Idle], calls := calls[t := Calls(t) + [Finished(f, ok)]])
    }
  }

  function Start(c: Context): State { State(map[], None, NotStarted, c, [], [], map[]) }

  datatype Step =
    | Call(t: nat, frame: Frame)
    | Lock(t: nat)
    | Encode(t: nat, pad: Bytes)
    | PadFails(t: nat)
    | Transmit(t: nat, ok: bool)
    | Closing(t: nat)
    | Unlock(t: nat)
    | StoreClosed
    | CloseTransport

  /** One step; a step that is not enabled changes nothing. */
  function Apply(a: Aead, s: State, step: Step): State {
    match step
    case Call(t, f) =>
      if !s.At(t).Idle? then s
      else if s.Closed() then s.Return(t, f, false)
      else s.Set(t, Checked(f))
    case Lock(t) =>
      if s.At(t).Checked? && s.lock.None? then s.Set(t, Holding(s.At(t).frame)).(lock := Some(t)) else s
    case Encode(t, pad) =>
      if !s.At(t).Holding? then s
      else
        var f := s.At(t).frame;
        if !Encodable(f, |pad|) then s.Set(t, Leaving(f, false))
        else
          s.Set(t, Encoded(f, EncodeFrame(a, s.ctx, f, pad)))
           .(ctx := s.ctx.Next(), log := s.log + [Entry(t, Sent(f, pad), s.ctx)])
    case PadFails(t) =>
      if s.At(t).Holding? then s.Set(t, Leaving(s.At(t).frame, false)) else s
    case Transmit(t, ok) =>
      if !s.At(t).Encoded? then s
      else if ok && s.Open() then s.Set(t, Leaving(s.At(t).frame, true)).(accepted := s.accepted + [s.At(t).wire])
      else s.Set(t, Refused(s.At(t).frame))
    case Closing(t) =>
      if s.At(t).Refused? && s.once == Complete then s.Set(t, Leaving(s.At(t).frame, false)) else s
    case Unlock(t) =>
      if s.At(t).Leaving? then s.Return(t, s.At(t).frame, s.At(t).ok).(lock := None) else s
    case StoreClosed => if s.once == NotStarted then s.(once := Storing) else s
    case CloseTransport => if s.once == Storing then s.(once := Complete) else s
  }

  function Run(a: Aead, c: Context, steps: seq<Step>): State {
    if steps == [] then Start(c) else Apply(a, Run(a, c, steps[..|steps| - 1]), steps[|steps| - 1])
  }

  // ------------------------------------------------------------------
  // What holds at every moment
  // ------------------------------------------------------------------

  function SentOf(log: seq<Entry>): (r: seq<Sent>)
    ensures |r| == |log|
  {
    seq(|log|, i requires 0 <= i < |log| => log[i].sent)
  }

  /** Exactly the lock holder is inside the critical section. */
  ghost predicate Exclusive(s: State) {
    forall t: nat :: s.At(t).InLock() <==> s.lock == Some(t)
  }

  /** Frames encoded but not taken by the transport. */
  function Lost(s: State): int { |s.log| - |s.accepted| }

  /** The frame of the holder's call is the newest log entry. */
  ghost predicate HolderIsLast(s: State, t: nat) {
    && s.At(t).InLock() && s.log != [] && s.log[|s.log| - 1].caller == t
    && s.log[|s.log| - 1].sent.frame == s.At(t).frame
  }

  /** While the transport is open every encoded frame was taken, except one in the hands of the lock holder. */
  ghost predicate InStep(s: State) {
    && Lost(s) >= 0
    && match s.lock
       case None => s.Open() ==> Lost(s) == 0
       case Some(t) =>
         match s.At(t)
         case Encoded(_, wire) => HolderIsLast(s, t) && Lost(s) >= 1 && (s.Open() ==> Lost(s) == 1)
         case Refused(_) => Lost(s) >= 1
         case Leaving(_, true) => HolderIsLast(s, t) && Lost(s) == 0
         case _ => s.Open() ==> Lost(s) == 0
  }

  ghost predicate WiresMatch(a: Aead, c: Context, s: State) {
    && AllEncodable(SentOf(s.log))
    && s.ctx == c.After(|s.log|)
    && (forall i | 0 <= i < |s.log| :: s.log[i].ctx == c.After(i))
    && s.accepted <= Wires(a, c, SentOf(s.log))
    && forall t: nat | s.At(t).Encoded? :: s.log != [] && s.At(t).wire == Wires(a, c, SentOf(s.log))[|s.log| - 1]
  }

  /** The frames of caller `t` among `log`, in log order. */
  function Mine(log: seq<Entry>, t: nat): seq<Frame> {
    if log == [] then []
    else
      var n := |log| - 1;
      Mine(log[..n], t) + if log[n].caller == t then [log[n].sent.frame] else []
  }

  /** The frames of the calls that returned without error, in call order. */
  function Successes(calls: seq<Finished>): seq<Frame> {
    if calls == [] then []
    else
      var n := |calls| - 1;
      Successes(calls[..n]) + if calls[n].ok then [calls[n].frame] else []
  }

  /** The frame of a call whose message was taken and which has not returned yet. */
  function InFlight(s: State, t: nat): seq<Frame> {
    if s.At(t).Leaving? && s.At(t).ok then [s.At(t).frame] else []
  }

  /** The order kept for one caller. */
  ghost predicate OwnOrderOf(s: State, t: nat) {
    && |s.accepted| <= |s.log|
    && Mine(s.log[..|s.accepted|], t) == Successes(s.Calls(t)) + InFlight(s, t)
  }

  // ------------------------------------------------------------------
  // Every step keeps it
  // ------------------------------------------------------------------

  lemma StepExclusive(a: Aead, s: State, step: Step)
    requires Exclusive(s)
    ensures Exclusive(Apply(a, s, step))
  {
    hide EncodeFrame, Encodable;
    var s' := Apply(a, s, step);
    forall t: nat ensures s'.At(t).InLock() <==> s'.lock == Some(t) {
      assert s.At(t).InLock() <==> s.lock == Some(t);
    }
  }

  lemma StepInStep(a: Aead, s: State, step: Step)
    requires Exclusive(s) && InStep(s)
    ensures InStep(Apply(a, s, step))
  {
    hide EncodeFrame, Encodable;
    if !step.StoreClosed? && !step.CloseTransport? {
      assert s.At(step.t).InLock() <==> s.lock == Some(step.t);
    }
  }

  lemma StepWires(a: Aead, c: Context, s: State, step: Step)
    requires Exclusive(s) && InStep(s) && WiresMatch(a, c, s)
    ensures WiresMatch(a, c, Apply(a, s, step))
  {
    hide EncodeFrame, Encodable;
    var s' := Apply(a, s, step);
    if Encodes(s, step) {
      StepEncodes(a, c, s, step);
    } else {
      StepTaken(a, c, s, step);
    }
  }

  predicate Encodes(s: State, step: Step) {
    step.Encode? && s.At(step.t).Holding? && Encodable(s.At(step.t).frame, |step.pad|)
  }

  lemma StepEncodes(a: Aead, c: Context, s: State, step: Step)
    requires Exclusive(s) && InStep(s) && WiresMatch(a, c, s)
    requires Encodes(s, step)
    ensures WiresMatch(a, c, Apply(a, s, step))
  {
    hide EncodeFrame, Encodable;
    var s' := Apply(a, s, step);
    var e := Entry(step.t, Sent(s.At(step.t).frame, step.pad), s.ctx);
    assert s'.log == s.log + [e];
    assert SentOf(s'.log) == SentOf(s.log) + [e.sent];
    NextAfter(c, |s.log|);
    WiresSnoc(a, c, SentOf(s.log), e.sent);
    forall t: nat | s'.At(t).Encoded? ensures t == step.t {
      assert s.At(t).InLock() <==> s.lock == Some(t);
      assert s.At(step.t).InLock() <==> s.lock == Some(step.t);
    }
  }

  /** A message the transport takes is the next one of the log. */
  lemma StepTaken(a: Aead, c: Context, s: State, step: Step)
    requires Exclusive(s) && InStep(s) && WiresMatch(a, c, s) && !Encodes(s, step)
    ensures WiresMatch(a, c, Apply(a, s, step))
  {
    hide EncodeFrame, Encodable, Wires;
    var w, s' := Wires(a, c, SentOf(s.log)), Apply(a, s, step);
    forall t: nat | s'.At(t).Encoded? ensures s'.At(t) == s.At(t) {}
    if step.Transmit? && s.At(step.t).Encoded? && step.ok && s.Open() {
      assert s.At(step.t).InLock() <==> s.lock == Some(step.t);
      assert w == w[..|s.accepted|] + [w[|s.accepted|]];
    }
  }

  lemma MineSnoc(log: seq<Entry>, n: nat, t: nat)
    requires n < |log|
    ensures Mine(log[..n + 1], t) == Mine(log[..n], t) + if log[n].caller == t then [log[n].sent.frame] else []
  {
    assert log[..n + 1][..n] == log[..n];
  }

  lemma SuccessesSnoc(calls: seq<Finished>, f: Finished)
    ensures Successes(calls + [f]) == Successes(calls) + if f.ok then [f.frame] else []
  {
    assert (calls + [f])[..|calls|] == calls;
  }

  lemma StepOwnOrder(a: Aead, s: State, step: Step, t: nat)
    requires Exclusive(s) && InStep(s) && OwnOrderOf(s, t)
    ensures OwnOrderOf(Apply(a, s, step), t)
  {
    hide EncodeFrame, Encodable, Mine, Successes;
    var s' := Apply(a, s, step);
    assert s'.log[..|s.accepted|] == s.log[..|s.accepted|];
    if step.Transmit? && |s'.accepted| == |s.accepted| + 1 {
      assert s.At(step.t).InLock() <==> s.lock == Some(step.t);
      MineSnoc(s.log, |s.accepted|, t);
    } else if step.Call? && step.t == t && s.At(t).Idle? && s.Closed() {
      SuccessesSnoc(s.Calls(t), Finished(step.frame, false));
    } else if step.Unlock? && step.t == t && s.At(t).Leaving? {
      SuccessesSnoc(s.Calls(t), Finished(s.At(t).frame, s.At(t).ok));
    }
  }

  // ------------------------------------------------------------------
  // Every run
  // ------------------------------------------------------------------

  lemma {:induction false} RunInvariant(a: Aead, c: Context, steps: seq<Step>)
    ensures var s := Run(a, c, steps); Exclusive(s) && InStep(s) && WiresMatch(a, c, s)
  {
    if steps == [] {
      NextAfter(c, 0);
    } else {
      hide Apply, Exclusive, InStep, WiresMatch;
      var before, last := Run(a, c, steps[..|steps| - 1]), steps[|steps| - 1];
      RunInvariant(a, c, steps[..|steps| - 1]);
      StepExclusive(a, before, last);
      StepInStep(a, before, last);
      StepWires(a, c, before, last);
    }
  }

  /** Under every interleaving the i-th message the transport accepts carries counter i, whatever was refused or
      failed in between. */
  lemma AcceptedInOrder(a: Aead, c: Context, steps: seq<Step>, i: nat)
    requires i < |Run(a, c, steps).accepted|
    ensures var s := Run(a, c, steps);
            && i < |s.log| && Encodable(s.log[i].sent.frame, |s.log[i].sent.pad|)
            && s.accepted[i] == EncodeFrame(a, c.After(i), s.log[i].sent.frame, s.log[i].sent.pad)
            && GetUint(s.accepted[i][4..12]) == (c.counter + i) % TWO64
  {
    hide EncodeFrame, Run;
    RunInvariant(a, c, steps);
    var s := Run(a, c, steps);
    var x := s.log[i].sent;
    assert SentOf(s.log)[i] == x;
    assert s.accepted[i] == Wires(a, c, SentOf(s.log))[i];
    WireCounter(a, c.After(i), x.frame, x.pad);
  }

  /** Under every interleaving the accepted frames of one caller are, in its own call order, exactly those of its
      calls that returned without error, plus at most the one now returning. */
  lemma {:induction false} CallersKeepOrder(a: Aead, c: Context, steps: seq<Step>, t: nat)
    ensures OwnOrderOf(Run(a, c, steps), t)
  {
    if steps != [] {
      hide Apply, OwnOrderOf, Exclusive, InStep, WiresMatch;
      var before, last := Run(a, c, steps[..|steps| - 1]), steps[|steps| - 1];
      RunInvariant(a, c, steps[..|steps| - 1]);
      CallersKeepOrder(a, c, steps[..|steps| - 1], t);
      StepOwnOrder(a, before, last, t);
    }
  }

  lemma WireCounter(a: Aead, c: Context, f: Frame, pad: Bytes)
    requires Encodable(f, |pad|)
    ensures |EncodeFrame(a, c, f, pad)| >= HEADER_SIZE
    ensures GetUint(EncodeFrame(a, c, f, pad)[4..12]) == c.counter
  {
    hide PutUint, GetUint, CipherOf;
    var h := HeaderOf(c, f, |pad|);
    GetPutHeader(h);
    assert EncodeFrame(a, c, f, pad)[4..12] == PutHeader(h)[4..12];
  }

  /** The ciphertext of an encoded frame was sealed under nonce `n`, with the header as associated data. */
  ghost predicate SealedUnder(a: Aead, e: Entry, n: Bytes12) {
    && Encodable(e.sent.frame, |e.sent.pad|)
    && var w := EncodeFrame(a, e.ctx, e.sent.frame, e.sent.pad);
       w[HEADER_SIZE..|w| - |e.sent.pad|] == a.seal(e.ctx.key, n, e.sent.frame.meta + e.sent.frame.payload, w[..HEADER_SIZE])
  }

  /** No two encoded frames were sealed under one nonce while at most 2^64 have been encoded: the nonce is the prefix
      followed by the counter. */
  lemma NoncesDistinct(a: Aead, c: Context, steps: seq<Step>, i: nat, j: nat)
    requires i < j < |Run(a, c, steps).log| <= TWO64
    ensures var x, y := Run(a, c, steps).log[i], Run(a, c, steps).log[j];
            var m: Bytes12, n: Bytes12 := c.prefix + PutUint(x.ctx.counter, 8), c.prefix + PutUint(y.ctx.counter, 8);
            m != n && SealedUnder(a, x, m) && SealedUnder(a, y, n) && x.ctx.key == y.ctx.key == c.key
  {
    hide EncodeFrame, Run, Encodable, PutUint;
    RunInvariant(a, c, steps);
    var log := Run(a, c, steps).log;
    assert SentOf(log)[i] == log[i].sent && SentOf(log)[j] == log[j].sent;
    NoncesAfter(c, i, j);
    WireLayout(a, log[i].ctx, log[i].sent.frame, log[i].sent.pad);
    WireLayout(a, log[j].ctx, log[j].sent.frame, log[j].sent.pad);
  }

  /** Once the transport is closed nothing more is accepted, even from callers already past the closed check. */
  lemma {:induction false} NothingAfterClose(a: Aead, c: Context, steps: seq<Step>, n: nat)
    requires n <= |steps| && !Run(a, c, steps[..n]).Open()
    ensures !Run(a, c, steps).Open() && Run(a, c, steps).accepted == Run(a, c, steps[..n]).accepted
    decreases |steps|
  {
    hide EncodeFrame, Encodable;
    if n < |steps| {
      var before := steps[..|steps| - 1];
      assert before[..n] == steps[..n];
      NothingAfterClose(a, c, before, n);
    } else {
      assert steps[..n] == steps;
    }
  }

  // ------------------------------------------------------------------
  // Progress
  // ------------------------------------------------------------------

  function ApplyAll(a: Aead, s: State, steps: seq<Step>): State {
    if steps == [] then s else Apply(a, ApplyAll(a, s, steps[..|steps| - 1]), steps[|steps| - 1])
  }

  lemma OneStep(a: Aead, s: State, steps: seq<Step>, step: Step)
    ensures ApplyAll(a, s, steps + [step]) == Apply(a, ApplyAll(a, s, steps), step)
  {
    assert (steps + [step])[..|steps|] == steps;
  }

  /** An encoded frame that an open transport takes is accepted, and its call returns success. */
  lemma EncodedIsTaken(a: Aead, s: State, t: nat)
    requires s.At(t).Encoded? && s.Open()
    ensures var s' := Apply(a, Apply(a, s, Transmit(t, true)), Unlock(t));
            && s'.accepted == s.accepted + [s.At(t).wire] && s'.lock.None? && s'.once == s.once
            && s'.At(t).Idle? && s'.Calls(t) == s.Calls(t) + [Finished(s.At(t).frame, true)]
  {
  }

  /** Nothing blocks a caller of an idle, open stream: its frame is encoded at the next counter, accepted, and the call
      returns success. */
  lemma CallSucceeds(a: Aead, s: State, t: nat, f: Frame, pad: Bytes)
    requires s.At(t).Idle? && s.lock.None? && s.once.NotStarted? && Encodable(f, |pad|)
    ensures var s' := ApplyAll(a, s, [Call(t, f), Lock(t), Encode(t, pad), Transmit(t, true), Unlock(t)]);
            && s'.accepted == s.accepted + [EncodeFrame(a, s.ctx, f, pad)] && s'.ctx == s.ctx.Next()
            && s'.log == s.log + [Entry(t, Sent(f, pad), s.ctx)] && s'.lock.None? && s'.once.NotStarted?
            && s'.At(t).Idle? && s'.Calls(t) == s.Calls(t) + [Finished(f, true)]
  {
    hide EncodeFrame, Encodable;
    var steps := [Call(t, f), Lock(t), Encode(t, pad), Transmit(t, true), Unlock(t)];
    assert steps[..0] == [] && [] + [Call(t, f)] == steps[..1] && steps[..1] + [Lock(t)] == steps[..2];
    assert steps[..2] + [Encode(t, pad)] == steps[..3] && steps[..3] + [Transmit(t, true)] == steps[..4];
    assert steps[..4] + [Unlock(t)] == steps;
    OneStep(a, s, [], Call(t, f));
    OneStep(a, s, steps[..1], Lock(t));
    OneStep(a, s, steps[..2], Encode(t, pad));
    OneStep(a, s, steps[..3], Transmit(t, true));
    OneStep(a, s, steps[..4], Unlock(t));
    EncodedIsTaken(a, ApplyAll(a, s, steps[..3]), t);
  }

  /** A failed transport send closes the stream before the call returns its error; a call on a closed stream returns an
      error at once. */
  lemma FailureCloses(a: Aead, s: State, t: nat, f: Frame)
    ensures s.At(t).Encoded? ==> Apply(a, s, Transmit(t, false)).At(t) == Refused(s.At(t).frame)
    ensures s.At(t).Refused? && s.once != Complete ==> Apply(a, s, Closing(t)) == s
    ensures s.At(t).Refused? && s.once == Complete ==> Apply(a, s, Closing(t)).At(t) == Leaving(s.At(t).frame, false)
    ensures s.At(t).Idle? && s.Closed() ==>
              Apply(a, s, Call(t, f)).Calls(t) == s.Calls(t) + [Finished(f, false)] && Apply(a, s, Call(t, f)).At(t).Idle?
  {
  }
}
