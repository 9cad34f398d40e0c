/** LengthFramer (client.go): messages over a byte stream, with a four-byte big-endian length prefix. */
module Framing {
  import opened Octets
  import opened Crypto
  import opened Frames
  import opened FrameCipher

  function Enframe(m: Bytes): (s: Bytes)
    requires |m| <= MAX_FRAME_SIZE
    ensures |s| == 4 + |m|
  {
    PutUint(|m|, 4) + m
  }

  /** The message at the front of the stream. */
  function Deframe(s: Bytes): (r: Result<Bytes>)
    ensures r.Ok? ==> |r.value| <= MAX_FRAME_SIZE && 4 + |r.value| <= |s| && s[..4 + |r.value|] == Enframe(r.value)
  {
    if |s| < 4 then Err(ShortRead(|s|))
    else
      var n := GetUint(s[..4]);
      if n > MAX_FRAME_SIZE then Err(FrameTooLarge)
      else if |s| < 4 + n then Err(ShortRead(|s| - 4))
      else
        assert s[..4 + n] == s[..4] + s[4..4 + n];
        PutGetUint(s[..4], 4);
        Ok(s[4..4 + n])
  }

  predicate Framable(ms: seq<Bytes>) {
    forall i | 0 <= i < |ms| :: |ms[i]| <= MAX_FRAME_SIZE
  }

  function EnframeAll(ms: seq<Bytes>): Bytes
    requires Framable(ms)
  {
    if ms == [] then [] else Enframe(ms[0]) + EnframeAll(ms[1..])
  }

  /** Every message ReadMessage returns before its first error. */
  function Messages(s: Bytes): seq<Bytes>
    decreases |s|
  {
    match Deframe(s)
    case Err(_) => []
    case Ok(m) => [m] + Messages(s[4 + |m|..])
  }

  /** Four bytes of length, most significant first, then the message and nothing else. */
  lemma FramedBytes(m: Bytes)
    requires |m| <= MAX_FRAME_SIZE
    ensures GetUint(Enframe(m)[..4]) == |m| && Enframe(m)[4..] == m
  {
    hide PutUint, GetUint;
    assert Enframe(m)[..4] == PutUint(|m|, 4);
  }

  lemma DeframeEnframe(m: Bytes, rest: Bytes)
    requires |m| <= MAX_FRAME_SIZE
    ensures Deframe(Enframe(m) + rest) == Ok(m)
  {
    var s := Enframe(m) + rest;
    assert s[..4] == PutUint(|m|, 4);
    assert s[4..4 + |m|] == m;
  }

  lemma MessagesOfEnframed(m: Bytes, tail: Bytes)
    requires |m| <= MAX_FRAME_SIZE
    ensures Messages(Enframe(m) + tail) == [m] + Messages(tail)
  {
    hide Enframe, Deframe;
    DeframeEnframe(m, tail);
    assert (Enframe(m) + tail)[4 + |m|..] == tail;
  }

  /** Messages come back as they were sent, whatever bytes follow them. */
  lemma {:induction false} FramerRoundTrip(ms: seq<Bytes>, rest: Bytes)
    requires Framable(ms)
    ensures Messages(EnframeAll(ms) + rest) == ms + Messages(rest)
  {
    hide Enframe, Deframe, PutUint, GetUint;
    if ms == [] {
      assert EnframeAll(ms) + rest == rest;
    } else {
      var tail := EnframeAll(ms[1..]) + rest;
      assert EnframeAll(ms) + rest == Enframe(ms[0]) + tail;
      MessagesOfEnframed(ms[0], tail);
      FramerRoundTrip(ms[1..], rest);
      assert [ms[0]] + (ms[1..] + Messages(rest)) == ms + Messages(rest);
    }
  }

  /** A stream cut anywhere yields a prefix of the messages: never a partial or a different one. */
  lemma {:induction false} FramerCut(ms: seq<Bytes>, cut: nat)
    requires Framable(ms) && cut <= |EnframeAll(ms)|
    ensures Messages(EnframeAll(ms)[..cut]) <= ms
  {
    var s := EnframeAll(ms)[..cut];
    if ms != [] {
      var first, tail := Enframe(ms[0]), EnframeAll(ms[1..]);
      if cut < |first| {
        assert s == first[..cut];
        if cut >= 4 {
          assert s[..4] == PutUint(|ms[0]|, 4);
        }
      } else {
        assert s == first + tail[..cut - |first|];
        MessagesOfEnframed(ms[0], tail[..cut - |first|]);
        FramerCut(ms[1..], cut - |first|);
      }
    }
  }

  lemma {:induction false} EnframeAllSnoc(ms: seq<Bytes>, m: Bytes)
    requires Framable(ms) && |m| <= MAX_FRAME_SIZE
    ensures Framable(ms + [m]) && EnframeAll(ms + [m]) == EnframeAll(ms) + Enframe(m)
  {
    hide Enframe;
    if ms == [] {
      assert [m][1..] == [] && [] + [m] == [m];
    } else {
      assert (ms + [m])[1..] == ms[1..] + [m];
      EnframeAllSnoc(ms[1..], m);
    }
  }

  /** The three ways ReadMessage fails: a short prefix, an announced length above the limit, a short body. */
  lemma NoMessage(s: Bytes)
    ensures Deframe([]) == Err(ShortRead(0))
    ensures |s| < 4 ==> Deframe(s) == Err(ShortRead(|s|))
    ensures |s| >= 4 && GetUint(s[..4]) > MAX_FRAME_SIZE ==>
              Deframe(s) == Err(FrameTooLarge) && Deframe(s[..4]) == Err(FrameTooLarge)
  {
    hide GetUint;
    assert |s| >= 4 ==> s[..4][..4] == s[..4];
  }

  lemma DeframeSplit(s: Bytes)
    requires |s| >= 4 && GetUint(s[..4]) <= MAX_FRAME_SIZE
    ensures var n := GetUint(s[..4]);
            if |s| < 4 + n then Deframe(s) == Err(ShortRead(|s[4..]|)) && s == s[..4] + s[4..]
            else
              && Deframe(s) == Ok(s[4..][..n]) && s[..4 + n] == s[..4] + s[4..][..n] == Enframe(s[4..][..n])
              && s[4..][n..] == s[4 + n..]
  {
    hide GetUint, Enframe, PutUint;
    var n := GetUint(s[..4]);
    if |s| >= 4 + n {
      assert s[4..4 + n] == s[4..][..n];
    }
  }

  /** A stream of whole messages and a rest that holds none yields those messages. */
  lemma MessagesThenRest(ms: seq<Bytes>, rest: Bytes)
    requires Framable(ms) && Deframe(rest).Err?
    ensures Messages(EnframeAll(ms) + rest) == ms
  {
    hide Enframe, Deframe, EnframeAll;
    FramerRoundTrip(ms, rest);
    assert ms + [] == ms;
  }

  /** A reader of any prefix of a stream of messages has taken the first of them. */
  lemma TakenIsPrefix(ms: seq<Bytes>, taken: seq<Bytes>, leftover: Bytes)
    requires Framable(ms) && Framable(taken) && Deframe(leftover).Err?
    requires EnframeAll(taken) + leftover <= EnframeAll(ms)
    ensures taken <= ms
  {
    hide Messages, EnframeAll, Deframe;
    var read := EnframeAll(taken) + leftover;
    MessagesThenRest(taken, leftover);
    assert read == EnframeAll(ms)[..|read|];
    FramerCut(ms, |read|);
  }

  /** A reader of a stream that starts with `ms` has taken all of them once it has read the whole stream. */
  lemma TakenIsAll(ms: seq<Bytes>, taken: seq<Bytes>, leftover: Bytes)
    requires Framable(ms) && Framable(taken) && Deframe(leftover).Err?
    requires EnframeAll(ms) <= EnframeAll(taken) + leftover
    ensures |ms| <= |taken|
  {
    hide Messages, EnframeAll, Deframe, Framable;
    var all, read := EnframeAll(ms), EnframeAll(taken) + leftover;
    var rest := read[|all|..];
    assert read == all + rest;
    MessagesThenRest(taken, leftover);
    FramerRoundTrip(ms, rest);
  }

  // ------------------------------------------------------------------
  // The framer over a connection
  // ------------------------------------------------------------------

  /** net.Conn: bytes still to arrive before the peer's end of stream, bytes written so far, and bytes read so far. */
  class Conn {
    var incoming: Bytes
    var outgoing: Bytes
    var open: bool
    ghost var read: Bytes
    /** How many calls of Write have failed. */
    ghost var failedWrites: nat

    /** Read returns some of the next bytes, cut wherever the network likes. */
    method Read(max: nat) returns (r: Result<Bytes>)
      requires max > 0
      modifies `incoming, `read
      ensures !open ==> r == Err(ClosedPipe) && incoming == old(incoming) && read == old(read)
      ensures open && old(incoming) == [] ==> r == Err(Eof) && incoming == [] && read == old(read)
      ensures open && old(incoming) != [] ==>
                r.Ok? && 0 < |r.value| <= max && old(incoming) == r.value + incoming && read == old(read) + r.value
    {
      if !open {
        return Err(ClosedPipe);
      }
      if incoming == [] {
        return Err(Eof);
      }
      var most := if max < |incoming| then max else |incoming|;
      var n: nat :| 0 < n <= most;
      r := Ok(incoming[..n]);
      read := read + incoming[..n];
      incoming := incoming[n..];
    }

    /** Write delivers everything, or fails after delivering some or even all of it; any call may fail. */
    method Write(b: Bytes) returns (ok: bool)
      modifies `outgoing, `failedWrites
      ensures ok ==> open && outgoing == old(outgoing) + b
      ensures !ok ==> old(outgoing) <= outgoing <= old(outgoing) + b
      ensures !open ==> outgoing == old(outgoing)
      ensures failedWrites == old(failedWrites) + if ok then 0 else 1
    {
      if !open {
        failedWrites := failedWrites + 1;
        return false;
      }
      if * {
        var n: nat :| n <= |b|;
        outgoing := outgoing + b[..n];
        failedWrites := failedWrites + 1;
        return false;
      }
      outgoing := outgoing + b;
      return true;
    }

    method Close()
      modifies `open
      ensures !open
    {
      open := false;
    }
  }

  class LengthFramer {
    const c: Conn
    var readBuf: array<Byte>
    /** Every message array handed to the caller so far. */
    ghost var returned: set<array<Byte>>

    ghost predicate Valid()
      reads this
    {
      readBuf !in returned
    }

    constructor (c: Conn)
      ensures this.c == c && Valid() && returned == {} && fresh(readBuf)
    {
      this.c, returned := c, {};
      readBuf := new Byte[0];
    }

    /** A message above the limit writes nothing; otherwise success writes the framed message and a failure, which may
        strike in either of the two writes, some part of it. */
    method SendMessage(msg: Bytes) returns (err: Option<Error>)
      modifies c`outgoing, c`failedWrites
      ensures c.failedWrites == old(c.failedWrites) + if err == Some(TransportFailure) then 1 else 0
      ensures |msg| > MAX_FRAME_SIZE ==> err == Some(FrameTooLarge) && c.outgoing == old(c.outgoing)
      ensures |msg| <= MAX_FRAME_SIZE ==> err.None? || err == Some(TransportFailure)
      ensures err.None? ==> |msg| <= MAX_FRAME_SIZE && c.open && c.outgoing == old(c.outgoing) + Enframe(msg)
      ensures err.Some? && |msg| <= MAX_FRAME_SIZE ==> old(c.outgoing) <= c.outgoing <= old(c.outgoing) + Enframe(msg)
    {
      hide PutUint;
      if |msg| > MAX_FRAME_SIZE {
        return Some(FrameTooLarge);
      }
      var ok := c.Write(PutUint(|msg|, 4));
      if !ok {
        return Some(TransportFailure);
      }
      ok := c.Write(msg);
      if !ok {
        return Some(TransportFailure);
      }
      return None;
    }

    /** io.ReadFull(c, buf[:n]) across any segmentation. */
    method ReadFull(buf: array<Byte>, n: nat) returns (err: Option<Error>)
      requires n <= buf.Length
      modifies c`incoming, c`read, buf
      ensures !c.open && n > 0 ==> err == Some(ClosedPipe) && c.incoming == old(c.incoming) && c.read == old(c.read)
      ensures (c.open || n == 0) && |old(c.incoming)| >= n ==>
                && err.None? && buf[..n] == old(c.incoming)[..n]
                && c.incoming == old(c.incoming)[n..] && c.read == old(c.read) + old(c.incoming)[..n]
      ensures c.open && |old(c.incoming)| < n ==>
                err == Some(ShortRead(|old(c.incoming)|)) && c.incoming == [] && c.read == old(c.read) + old(c.incoming)
    {
      var got := 0;
      ghost var all := c.incoming;
      while got < n
        invariant 0 <= got <= n && got <= |all| && (!c.open ==> got == 0)
        invariant buf[..got] == all[..got]
        invariant c.incoming == all[got..] && c.read == old(c.read) + all[..got]
      {
        var piece := c.Read(n - got);
        if piece.Err? {
          assert c.open ==> all[..got] == all;
          return Some(if piece.error == Eof then ShortRead(got) else piece.error);
        }
        assert all[..got + |piece.value|] == all[..got] + piece.value;
        Put(buf, got, piece.value);
        got := got + |piece.value|;
      }
      return None;
    }

    /** One message, in an array of its own: the shared scratch buffer never leaks, so the messages returned
        earlier keep their contents. `used` is what was consumed: the framed message, or on an error bytes that hold
        none. */
    method ReadMessage() returns (r: Result<array<Byte>>, ghost used: Bytes)
      requires Valid()
      modifies this, readBuf, c`incoming, c`read
      ensures Valid()
      ensures !c.open ==> r == Err(ClosedPipe)
      ensures c.open ==> match Deframe(old(c.incoming))
                         case Err(e) => r == Err(e)
                         case Ok(m) => r.Ok? && r.value[..] == m && c.incoming == old(c.incoming)[4 + |m|..]
      ensures c.read == old(c.read) + used
      ensures r.Ok? ==> r.value.Length <= MAX_FRAME_SIZE && used == Enframe(r.value[..])
      ensures r.Err? ==> Deframe(used).Err?
      ensures r.Ok? ==> fresh(r.value) && returned == old(returned) + {r.value}
      ensures r.Err? ==> returned == old(returned)
      ensures forall m | m in old(returned) :: m[..] == old(m[..])
      ensures readBuf == old(readBuf) || fresh(readBuf)
    {
      hide Deframe, Enframe, PutUint, GetUint;
      ghost var all := c.incoming;
      var hdr := new Byte[4](_ => 0);
      var err := ReadFull(hdr, 4);
      if err.Some? {
        NoMessage(all);
        return Err(err.value), if c.open then all else [];
      }
      assert hdr[..] == all[..4];
      var n := GetUint(hdr[..]);
      if n > MAX_FRAME_SIZE {
        NoMessage(all);
        return Err(FrameTooLarge), all[..4];
      }
      r := ReadBody(n);
      used := if r.Ok? then all[..4 + n] else all;
      DeframeSplit(all);
    }

    /** The part of ReadMessage behind the length prefix. */
    method ReadBody(n: nat) returns (r: Result<array<Byte>>)
      requires Valid() && c.open
      modifies this, readBuf, c`incoming, c`read
      ensures Valid()
      ensures |old(c.incoming)| < n ==>
                r == Err(ShortRead(|old(c.incoming)|)) && c.incoming == [] && c.read == old(c.read) + old(c.incoming)
      ensures |old(c.incoming)| >= n ==>
                && r.Ok? && r.value[..] == old(c.incoming)[..n]
                && c.incoming == old(c.incoming)[n..] && c.read == old(c.read) + old(c.incoming)[..n]
      ensures r.Ok? ==> fresh(r.value) && returned == old(returned) + {r.value}
      ensures r.Err? ==> returned == old(returned)
      ensures forall m | m in old(returned) :: m[..] == old(m[..])
      ensures readBuf == old(readBuf) || fresh(readBuf)
    {
      if readBuf.Length < n {
        readBuf := new Byte[n](_ => 0);
      }
      var err := ReadFull(readBuf, n);
      if err.Some? {
        return Err(err.value);
      }
      var out := CopyOf(readBuf, n);
      returned := returned + {out};
      return Ok(out);
    }

    static method CopyOf(buf: array<Byte>, n: nat) returns (out: array<Byte>)
      requires n <= buf.Length
      ensures fresh(out) && out[..] == buf[..n]
    {
      out := new Byte[n](_ => 0);
      Put(out, 0, buf[..n]);
      assert out[..] == out[..0 + |buf[..n]|];
    }

    method Close()
      modifies c`open
      ensures !c.open
    {
      c.Close();
    }
  }
}
