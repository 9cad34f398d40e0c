/** The frame format of frame.go, as a pure encoder and decoder over one direction's cipher context. */
module Frames {
  import opened Octets
  import opened Crypto

  const TCP_DATA: Byte := 0x01
  const UDP_DATA: Byte := 0x02
  const UDP_NEW: Byte := 0x03
  const UDP_END: Byte := 0x04
  const UDP_PROBE_REQ: Byte := 0x05
  const UDP_PROBE_RESP: Byte := 0x06
  const PING: Byte := 0x10
  const PONG: Byte := 0x11
  const REKEY_REQ: Byte := 0x12
  const REKEY_RESP: Byte := 0x13
  const PADDING_ONLY: Byte := 0x20

  predicate ValidType(t: Byte) {
    1 <= t <= 6 || 0x10 <= t <= 0x13 || t == 0x20
  }

  const HEADER_SIZE := 17
  /** Header bytes counted by FrameLen: all but the FrameLen field itself. */
  const COUNTED_HEADER := 13

  type Counter = c: int | 0 <= c < 0x1_0000_0000_0000_0000

  /** One direction's key, nonce prefix and next counter (the FrameAEAD struct). */
  datatype Context = Context(key: Bytes32, prefix: Bytes4, counter: Counter) {
    /** The uint64 counter wraps. */
    function Next(): Context {
      this.(counter := if counter + 1 == TWO64 then 0 else counter + 1)
    }
    function After(n: nat): Context {
      this.(counter := (counter + n) % TWO64)
    }
    function Nonce(): Bytes12 {
      prefix + PutUint(counter, 8)
    }
  }

  datatype Frame = Frame(kind: Byte, meta: Bytes, payload: Bytes)

  /** A frame together with the random pad bytes drawn for it. */
  datatype Sent = Sent(frame: Frame, pad: Bytes)

  // ------------------------------------------------------------------
  // Header: FrameLen(4) || Counter(8) || FrameType(1) || MetaLen(2) || PadLen(2)
  // ------------------------------------------------------------------

  type U16 = n: int | 0 <= n < 0x1_0000
  type U32 = n: int | 0 <= n < 0x1_0000_0000

  datatype Header = Header(frameLen: U32, counter: Counter, kind: Byte, metaLen: U16, padLen: U16)

  function PutHeader(h: Header): (b: Bytes)
    ensures |b| == HEADER_SIZE
  {
    PutUint(h.frameLen, 4) + PutUint(h.counter, 8) + [h.kind] + PutUint(h.metaLen, 2) + PutUint(h.padLen, 2)
  }

  function GetHeader(b: Bytes): Header
    requires |b| == HEADER_SIZE
  {
    Header(GetUint(b[0..4]), GetUint(b[4..12]), b[12], GetUint(b[13..15]), GetUint(b[15..17]))
  }

  lemma GetPutHeader(h: Header)
    ensures GetHeader(PutHeader(h)) == h
  {
    hide PutUint, GetUint;
    var len, counter, kind := PutUint(h.frameLen, 4), PutUint(h.counter, 8), [h.kind];
    var metaLen, padLen := PutUint(h.metaLen, 2), PutUint(h.padLen, 2);
    var b := PutHeader(h);
    FiveParts(len, counter, kind, metaLen, padLen);
    assert b == len + counter + kind + metaLen + padLen;
    assert b[12] == b[12..13][0];
  }

  lemma FiveParts(p: Bytes, q: Bytes, r: Bytes, s: Bytes, t: Bytes)
    requires |p| == 4 && |q| == 8 && |r| == 1 && |s| == 2 && |t| == 2
    ensures var b := p + q + r + s + t;
            && |b| == HEADER_SIZE && b[0..4] == p && b[4..12] == q && b[12..13] == r && b[13..15] == s && b[15..17] == t
  {
    Parts(p + q, r, s + t);
    Parts(p, q, []);
    assert p + q + r + s + t == p + q + r + (s + t);
    var b := p + q + r + s + t;
    assert b[13..] == s + t;
    assert b[13..][..2] == b[13..15] && b[13..][2..] == b[15..17];
  }

  lemma PutGetHeader(b: Bytes)
    requires |b| == HEADER_SIZE
    ensures PutHeader(GetHeader(b)) == b
  {
    hide PutUint, GetUint;
    PutGetUint(b[0..4], 4);
    PutGetUint(b[4..12], 8);
    PutGetUint(b[13..15], 2);
    PutGetUint(b[15..17], 2);
    assert b == b[0..4] + b[4..12] + [b[12]] + b[13..15] + b[15..17];
  }

  lemma NonceDetermines(c1: Context, c2: Context)
    ensures c1.Nonce() == c2.Nonce() <==> c1.prefix == c2.prefix && c1.counter == c2.counter
  {
    var n1, n2 := c1.Nonce(), c2.Nonce();
    assert n1[..4] == c1.prefix && n1[4..] == PutUint(c1.counter, 8);
    assert n2[..4] == c2.prefix && n2[4..] == PutUint(c2.counter, 8);
    assert GetUint(n1[4..]) == c1.counter && GetUint(n2[4..]) == c2.counter;
  }

  // ------------------------------------------------------------------
  // Encoding
  // ------------------------------------------------------------------

  function FrameLen(f: Frame, padLen: nat): nat {
    COUNTED_HEADER + |f.meta| + |f.payload| + AEAD_OVERHEAD + padLen
  }

  /** The first check EncodeFrameAppend fails on, in its own order; negative pad lengths count as 0. */
  function EncodeError(f: Frame, padLen: int): Option<Error> {
    if !ValidType(f.kind) then Some(UnknownFrameType)
    else if |f.meta| > MAX_META_LEN then Some(MetaTooLarge)
    else if padLen > MAX_FRAME_PAD then Some(PadTooLarge)
    else if FrameLen(f, if padLen < 0 then 0 else padLen) > MAX_FRAME_SIZE then Some(FrameTooLarge)
    else None
  }

  predicate Encodable(f: Frame, padLen: nat) {
    && ValidType(f.kind) && |f.meta| <= MAX_META_LEN && padLen <= MAX_FRAME_PAD
    && FrameLen(f, padLen) <= MAX_FRAME_SIZE
  }

  function HeaderOf(c: Context, f: Frame, padLen: nat): Header
    requires Encodable(f, padLen)
  {
    Header(FrameLen(f, padLen), c.counter, f.kind, |f.meta|, padLen)
  }

  function CipherOf(a: Aead, c: Context, f: Frame, padLen: nat): (r: Bytes)
    requires Encodable(f, padLen)
    ensures |r| == |f.meta| + |f.payload| + AEAD_OVERHEAD
  {
    Seal(a, c.key, c.Nonce(), f.meta + f.payload, PutHeader(HeaderOf(c, f, padLen)))
  }

  function EncodeFrame(a: Aead, c: Context, f: Frame, pad: Bytes): (wire: Bytes)
    requires Encodable(f, |pad|)
    ensures |wire| == 4 + FrameLen(f, |pad|)
  {
    PutHeader(HeaderOf(c, f, |pad|)) + CipherOf(a, c, f, |pad|) + pad
  }

  // ------------------------------------------------------------------
  // Decoding
  // ------------------------------------------------------------------

  datatype Decoded = Good(frame: Frame, used: nat) | Bad(error: Error)

  /** io.ReadFull on a reader that has only `got` bytes left when more are wanted. */
  function ShortRead(got: nat): Error {
    if got == 0 then Eof else UnexpectedEof
  }

  /** The header checks of DecodeFrame, made before the body is read. */
  function HeaderError(h: Header): Option<Error> {
    if h.frameLen > MAX_FRAME_SIZE then Some(FrameTooLarge)
    else if h.metaLen > MAX_META_LEN then Some(MetaTooLarge)
    else if h.padLen > MAX_FRAME_PAD then Some(PadTooLarge)
    else if h.frameLen - COUNTED_HEADER < h.padLen + AEAD_OVERHEAD + h.metaLen then Some(FrameTooShort)
    else None
  }

  /** The checks made once the whole frame has been read. */
  function OpenFrame(a: Aead, c: Context, hdr: Bytes, cipher: Bytes): Result<Frame>
    requires |hdr| == HEADER_SIZE
  {
    var h := GetHeader(hdr);
    if h.counter != c.counter then Err(CounterMismatch)
    else if !ValidType(h.kind) then Err(UnknownFrameType)
    else
      match Open(a, c.key, c.Nonce(), cipher, hdr)
      case None => Err(AeadOpenFailed)
      case Some(plain) =>
        if |plain| < h.metaLen then Err(FrameTooShort)
        else Ok(Frame(h.kind, plain[..h.metaLen], plain[h.metaLen..]))
  }

  /** One frame from the front of `r`. */
  function DecodeFrame(a: Aead, c: Context, r: Bytes): Decoded {
    if |r| < HEADER_SIZE then Bad(ShortRead(|r|))
    else
      var h := GetHeader(r[..HEADER_SIZE]);
      match HeaderError(h)
      case Some(e) => Bad(e)
      case None =>
        var cipherLen := h.frameLen - COUNTED_HEADER - h.padLen;
        var body := r[HEADER_SIZE..];
        if |body| < cipherLen then Bad(ShortRead(|body|))
        else if |body| < cipherLen + h.padLen then Bad(Eof)
        else
          match OpenFrame(a, c, r[..HEADER_SIZE], body[..cipherLen])
          case Err(e) => Bad(e)
          case Ok(f) => Good(f, 4 + h.frameLen)
  }

  // ------------------------------------------------------------------
  // The two directions of the codec
  // ------------------------------------------------------------------

  /** Opening what the encoder sealed gives back the frame. */
  lemma OpenOfSeal(a: Aead, c: Context, f: Frame, padLen: nat)
    requires Encodable(f, padLen)
    ensures OpenFrame(a, c, PutHeader(HeaderOf(c, f, padLen)), CipherOf(a, c, f, padLen)) == Ok(f)
  {
    var h := HeaderOf(c, f, padLen);
    GetPutHeader(h);
    var plain := f.meta + f.payload;
    assert Open(a, c.key, c.Nonce(), CipherOf(a, c, f, padLen), PutHeader(h)) == Some(plain);
    assert plain[..|f.meta|] == f.meta && plain[|f.meta|..] == f.payload;
  }

  /** A successful open means the pair is what the encoder seals for the frame it yields. */
  lemma SealOfOpen(a: Aead, c: Context, hdr: Bytes, cipher: Bytes)
    requires |hdr| == HEADER_SIZE && HeaderError(GetHeader(hdr)).None?
    requires OpenFrame(a, c, hdr, cipher).Ok?
    requires |cipher| == GetHeader(hdr).frameLen - COUNTED_HEADER - GetHeader(hdr).padLen
    ensures var f, padLen := OpenFrame(a, c, hdr, cipher).value, GetHeader(hdr).padLen;
            Encodable(f, padLen) && hdr == PutHeader(HeaderOf(c, f, padLen)) && cipher == CipherOf(a, c, f, padLen)
  {
    var f, h := OpenFrame(a, c, hdr, cipher).value, GetHeader(hdr);
    var plain := Open(a, c.key, c.Nonce(), cipher, hdr).value;
    assert f.meta + f.payload == plain;
    assert HeaderOf(c, f, h.padLen) == h;
    PutGetHeader(hdr);
  }

  /** Decoding a stream that starts with a whole frame is opening that frame. */
  lemma DecodeWhole(a: Aead, c: Context, hdr: Bytes, cipher: Bytes, pad: Bytes, rest: Bytes)
    requires |hdr| == HEADER_SIZE && HeaderError(GetHeader(hdr)).None?
    requires |cipher| == GetHeader(hdr).frameLen - COUNTED_HEADER - |pad| && |pad| == GetHeader(hdr).padLen
    ensures DecodeFrame(a, c, hdr + cipher + pad + rest)
            == match OpenFrame(a, c, hdr, cipher)
               case Err(e) => Bad(e)
               case Ok(f) => Good(f, |hdr| + |cipher| + |pad|)
  {
    var r := hdr + cipher + pad + rest;
    var body := cipher + pad + rest;
    assert r == hdr + body;
    assert r[..HEADER_SIZE] == hdr && r[HEADER_SIZE..] == body;
    assert body[..|cipher|] == cipher;
  }

  /** An accepted stream starts with a whole frame. */
  lemma WholeOfDecode(a: Aead, c: Context, r: Bytes) returns (hdr: Bytes, cipher: Bytes, pad: Bytes)
    requires DecodeFrame(a, c, r).Good?
    ensures |hdr| == HEADER_SIZE && HeaderError(GetHeader(hdr)).None?
    ensures |cipher| == GetHeader(hdr).frameLen - COUNTED_HEADER - |pad| && |pad| == GetHeader(hdr).padLen
    ensures OpenFrame(a, c, hdr, cipher) == Ok(DecodeFrame(a, c, r).frame)
    ensures DecodeFrame(a, c, r).used == |hdr| + |cipher| + |pad| <= |r|
    ensures r[..DecodeFrame(a, c, r).used] == hdr + cipher + pad
    ensures hdr == r[..HEADER_SIZE]
  {
    hdr := r[..HEADER_SIZE];
    var h, body := GetHeader(hdr), r[HEADER_SIZE..];
    var cipherLen := h.frameLen - COUNTED_HEADER - h.padLen;
    cipher, pad := body[..cipherLen], body[cipherLen..cipherLen + h.padLen];
    assert r[..HEADER_SIZE + cipherLen + h.padLen] == hdr + cipher + pad;
  }

  /** Whatever follows on the stream, an encoded frame decodes to itself, and exactly its own bytes are used. */
  lemma DecodeOfEncode(a: Aead, c: Context, f: Frame, pad: Bytes, rest: Bytes)
    requires Encodable(f, |pad|)
    ensures DecodeFrame(a, c, EncodeFrame(a, c, f, pad) + rest) == Good(f, 4 + FrameLen(f, |pad|))
  {
    var h := HeaderOf(c, f, |pad|);
    GetPutHeader(h);
    OpenOfSeal(a, c, f, |pad|);
    DecodeWhole(a, c, PutHeader(h), CipherOf(a, c, f, |pad|), pad, rest);
  }

  /** Every accepted frame is, byte for byte, what the encoder emits for the decoded fields at this counter with
      the pad bytes found on the wire. */
  lemma EncodeOfDecode(a: Aead, c: Context, r: Bytes) returns (pad: Bytes)
    requires DecodeFrame(a, c, r).Good?
    ensures var d := DecodeFrame(a, c, r);
            && |pad| == GetHeader(r[..HEADER_SIZE]).padLen
            && Encodable(d.frame, |pad|) && d.used <= |r|
            && r[..d.used] == EncodeFrame(a, c, d.frame, pad)
  {
    var hdr, cipher, pad' := WholeOfDecode(a, c, r);
    pad := pad';
    SealOfOpen(a, c, hdr, cipher);
  }

  /** The bytes of a frame: lengths, counter and type at their places, the ciphertext sealed under the nonce
      prefix || counter with the header as associated data, the pad last. */
  lemma WireLayout(a: Aead, c: Context, f: Frame, pad: Bytes)
    requires Encodable(f, |pad|)
    ensures var w := EncodeFrame(a, c, f, pad);
            && |w| == 33 + |f.meta| + |f.payload| + |pad|
            && GetUint(w[0..4]) == |w| - 4 && GetUint(w[4..12]) == c.counter && w[12] == f.kind
            && GetUint(w[13..15]) == |f.meta| && GetUint(w[15..17]) == |pad|
            && w[17..|w| - |pad|] == a.seal(c.key, c.prefix + PutUint(c.counter, 8), f.meta + f.payload, w[..17])
            && w[|w| - |pad|..] == pad
  {
    hide PutUint, GetUint;
    var h, w := HeaderOf(c, f, |pad|), EncodeFrame(a, c, f, pad);
    var hdr, cipher := PutHeader(h), CipherOf(a, c, f, |pad|);
    Parts(hdr, cipher, pad);
    GetPutHeader(h);
    HeaderBytes(h);
    hide PutHeader;
    assert w[0..4] == hdr[0..4] && w[4..12] == hdr[4..12] && w[12] == hdr[12];
    assert w[13..15] == hdr[13..15] && w[15..17] == hdr[15..17];
    assert w[17..|w| - |pad|] == w[|hdr|..|hdr| + |cipher|];
  }

  lemma HeaderBytes(h: Header)
    ensures var b := PutHeader(h);
            && b[0..4] == PutUint(h.frameLen, 4) && b[4..12] == PutUint(h.counter, 8) && b[12] == h.kind
            && b[13..15] == PutUint(h.metaLen, 2) && b[15..17] == PutUint(h.padLen, 2)
  {
    hide PutUint;
    FiveParts(PutUint(h.frameLen, 4), PutUint(h.counter, 8), [h.kind], PutUint(h.metaLen, 2), PutUint(h.padLen, 2));
    assert PutHeader(h)[12] == PutHeader(h)[12..13][0];
  }

  /** A genuine frame of any other counter, earlier or later, is refused for its counter and nothing else. */
  lemma OtherCounterRefused(a: Aead, c: Context, c': Context, f: Frame, pad: Bytes, rest: Bytes)
    requires Encodable(f, |pad|) && c'.counter != c.counter
    ensures DecodeFrame(a, c, EncodeFrame(a, c', f, pad) + rest) == Bad(CounterMismatch)
  {
    hide DecodeFrame;
    var h := HeaderOf(c', f, |pad|);
    GetPutHeader(h);
    DecodeWhole(a, c, PutHeader(h), CipherOf(a, c', f, |pad|), pad, rest);
  }

  /** A frame whose ciphertext is not a sealing under this context and header fails authentication. */
  lemma AlteredIsRefused(a: Aead, c: Context, f: Frame, pad: Bytes, cipher: Bytes, rest: Bytes)
    requires Encodable(f, |pad|) && |cipher| == |f.meta| + |f.payload| + AEAD_OVERHEAD
    requires var hdr := PutHeader(HeaderOf(c, f, |pad|)); forall p :: cipher != a.seal(c.key, c.Nonce(), p, hdr)
    ensures DecodeFrame(a, c, PutHeader(HeaderOf(c, f, |pad|)) + cipher + pad + rest) == Bad(AeadOpenFailed)
  {
    hide DecodeFrame, PutHeader, GetHeader;
    var h := HeaderOf(c, f, |pad|);
    GetPutHeader(h);
    DecodeWhole(a, c, PutHeader(h), cipher, pad, rest);
  }

  /** Which of its checks the encoder fails on. */
  lemma EncodeErrors(f: Frame, padLen: int)
    ensures EncodeError(f, padLen) == Some(UnknownFrameType) <==> f.kind !in {1, 2, 3, 4, 5, 6, 0x10, 0x11, 0x12, 0x13, 0x20}
    ensures EncodeError(f, padLen) == Some(MetaTooLarge) <==> ValidType(f.kind) && |f.meta| > 1024
    ensures EncodeError(f, padLen) == Some(PadTooLarge) <==> ValidType(f.kind) && |f.meta| <= 1024 && padLen > 4096
    ensures EncodeError(f, padLen) == Some(FrameTooLarge) <==>
              && ValidType(f.kind) && |f.meta| <= 1024 && padLen <= 4096
              && 29 + |f.meta| + |f.payload| + (if padLen < 0 then 0 else padLen) > 65536
    ensures EncodeError(f, padLen).Some? ==>
              EncodeError(f, padLen).value in {UnknownFrameType, MetaTooLarge, PadTooLarge, FrameTooLarge}
  {
  }

  /** Which of the header checks the decoder fails on, before it reads the body. */
  lemma HeaderErrors(h: Header)
    ensures HeaderError(h) == Some(FrameTooLarge) <==> h.frameLen > 65536
    ensures HeaderError(h) == Some(MetaTooLarge) <==> h.frameLen <= 65536 && h.metaLen > 1024
    ensures HeaderError(h) == Some(PadTooLarge) <==> h.frameLen <= 65536 && h.metaLen <= 1024 && h.padLen > 4096
    ensures HeaderError(h) == Some(FrameTooShort) <==>
              h.frameLen <= 65536 && h.metaLen <= 1024 && h.padLen <= 4096 && h.frameLen < 29 + h.metaLen + h.padLen
    ensures HeaderError(h).Some? ==> HeaderError(h).value in {FrameTooLarge, MetaTooLarge, PadTooLarge, FrameTooShort}
  {
  }

  /** Acceptance and the decoded fields do not depend on the pad bytes. */
  lemma PadIsIgnored(a: Aead, c: Context, r: Bytes, other: Bytes, rest: Bytes)
    requires DecodeFrame(a, c, r).Good?
    requires |other| == GetHeader(r[..HEADER_SIZE]).padLen
    ensures var d := DecodeFrame(a, c, r);
            && |other| <= d.used <= |r|
            && DecodeFrame(a, c, r[..d.used - |other|] + other + rest) == d
  {
    hide DecodeFrame, OpenFrame, GetUint;
    var hdr, cipher, pad := WholeOfDecode(a, c, r);
    var d := DecodeFrame(a, c, r);
    assert r[..d.used - |other|] == r[..d.used][..d.used - |other|] == hdr + cipher;
    DecodeWhole(a, c, hdr, cipher, other, rest);
  }

  // ------------------------------------------------------------------
  // Frames back to back
  // ------------------------------------------------------------------

  predicate AllEncodable(fs: seq<Sent>) {
    forall i | 0 <= i < |fs| :: Encodable(fs[i].frame, |fs[i].pad|)
  }

  function FramesOf(fs: seq<Sent>): (r: seq<Frame>)
    ensures |r| == |fs|
  {
    seq(|fs|, i requires 0 <= i < |fs| => fs[i].frame)
  }

  function EncodeAll(a: Aead, c: Context, fs: seq<Sent>): Bytes
    requires AllEncodable(fs)
    decreases |fs|
  {
    if fs == [] then [] else EncodeFrame(a, c, fs[0].frame, fs[0].pad) + EncodeAll(a, c.Next(), fs[1..])
  }

  datatype Run = Run(frames: seq<Frame>, context: Context, rest: Bytes)

  /** `n` calls of DecodeFrame on one reader and one context. */
  function DecodeMany(a: Aead, c: Context, r: Bytes, n: nat): Option<Run>
    decreases n
  {
    if n == 0 then Some(Run([], c, r))
    else
      var d := DecodeFrame(a, c, r);
      if d.Bad? || d.used > |r| then None
      else
        match DecodeMany(a, c.Next(), r[d.used..], n - 1)
        case None => None
        case Some(run) => Some(run.(frames := [d.frame] + run.frames))
  }

  lemma NextAfter(c: Context, n: nat)
    ensures c.Next().After(n) == c.After(n + 1)
    ensures c.After(n).Next() == c.After(n + 1)
    ensures c.After(0) == c
  {
  }

  /** Two of 2^64 consecutive contexts never share a nonce. */
  lemma NoncesAfter(c: Context, i: nat, j: nat)
    requires i < j < i + TWO64
    ensures c.After(i).Nonce() != c.After(j).Nonce()
  {
    hide PutUint;
    CountersDiffer(c.counter + i, c.counter + j);
    NonceDetermines(c.After(i), c.After(j));
  }

  lemma CountersDiffer(x: nat, y: nat)
    requires x < y < x + TWO64
    ensures x % TWO64 != y % TWO64
  {
    var q, r := x / TWO64, y / TWO64;
    assert x == TWO64 * q + x % TWO64 && y == TWO64 * r + y % TWO64;
  }

  /** Frames encoded back to back and followed by anything decode to the same types, metas and payloads, in
      order; the bytes used are exactly theirs and the receiver's counter ends where the sender's does. */
  lemma {:induction false} BackToBack(a: Aead, c: Context, fs: seq<Sent>, rest: Bytes)
    requires AllEncodable(fs)
    ensures DecodeMany(a, c, EncodeAll(a, c, fs) + rest, |fs|) == Some(Run(FramesOf(fs), c.After(|fs|), rest))
    decreases |fs|
  {
    hide DecodeFrame, EncodeFrame, GetHeader, Encodable;
    NextAfter(c, 0);
    if fs == [] {
      assert EncodeAll(a, c, fs) + rest == rest;
    } else {
      var wire, tail := EncodeFrame(a, c, fs[0].frame, fs[0].pad), EncodeAll(a, c.Next(), fs[1..]);
      DecodeOfEncode(a, c, fs[0].frame, fs[0].pad, tail + rest);
      assert EncodeAll(a, c, fs) + rest == wire + (tail + rest);
      assert (wire + (tail + rest))[|wire|..] == tail + rest;
      BackToBack(a, c.Next(), fs[1..], rest);
      NextAfter(c, |fs| - 1);
      assert FramesOf(fs) == [fs[0].frame] + FramesOf(fs[1..]);
    }
  }

  lemma EncodeAllCons(a: Aead, c: Context, s: Sent, later: seq<Sent>)
    requires Encodable(s.frame, |s.pad|) && AllEncodable(later)
    ensures AllEncodable([s] + later) && FramesOf([s] + later) == [s.frame] + FramesOf(later)
    ensures EncodeAll(a, c, [s] + later) == EncodeFrame(a, c, s.frame, s.pad) + EncodeAll(a, c.Next(), later)
  {
    hide EncodeFrame, Encodable;
    assert ([s] + later)[1..] == later;
  }

  lemma DecodeManyFirst(a: Aead, c: Context, r: Bytes, n: nat)
    requires n > 0 && DecodeMany(a, c, r, n).Some?
    ensures var d := DecodeFrame(a, c, r);
            && d.Good? && d.used <= |r|
            && var later := DecodeMany(a, c.Next(), r[d.used..], n - 1);
               && later.Some? && DecodeMany(a, c, r, n).value.rest == later.value.rest
               && DecodeMany(a, c, r, n).value.frames == [d.frame] + later.value.frames
  {
    hide DecodeFrame;
  }

  /** Conversely, a stream on which `n` decodes succeed starts with `n` frames as the encoder emits them. */
  lemma {:induction false} BackToBackConverse(a: Aead, c: Context, r: Bytes, n: nat) returns (fs: seq<Sent>)
    ensures AllEncodable(fs)
    ensures DecodeMany(a, c, r, n).Some? ==>
              && DecodeMany(a, c, r, n).value.frames == FramesOf(fs)
              && r == EncodeAll(a, c, fs) + DecodeMany(a, c, r, n).value.rest
    decreases n
  {
    hide DecodeFrame, EncodeFrame, GetHeader, Encodable, DecodeMany, EncodeAll, FramesOf, AllEncodable;
    fs := [];
    if n == 0 {
      DecodeNone(a, c, r);
    } else if DecodeMany(a, c, r, n).None? {
      NothingEncoded();
    } else {
      DecodeManyFirst(a, c, r, n);
      var d := DecodeFrame(a, c, r);
      var pad := EncodeOfDecode(a, c, r);
      var later := BackToBackConverse(a, c.Next(), r[d.used..], n - 1);
      fs := [Sent(d.frame, pad)] + later;
      EncodeAllCons(a, c, Sent(d.frame, pad), later);
      Rejoin(r, d.used, EncodeAll(a, c.Next(), later), DecodeMany(a, c, r, n).value.rest);
    }
  }

  lemma NothingEncoded()
    ensures AllEncodable([])
  {
  }

  lemma DecodeNone(a: Aead, c: Context, r: Bytes)
    ensures AllEncodable([]) && FramesOf([]) == [] && DecodeMany(a, c, r, 0) == Some(Run([], c, r))
    ensures r == EncodeAll(a, c, []) + r
  {
  }

  lemma Rejoin(r: Bytes, n: nat, tail: Bytes, rest: Bytes)
    requires n <= |r| && r[n..] == tail + rest
    ensures r == r[..n] + tail + rest
  {
    assert r == r[..n] + r[n..];
  }
}
