/** The mutable frame cipher of frame.go: the in-place encoder and the stream decoder, proved against Frames. */
module FrameCipher {
  import opened Octets
  import opened Crypto
  import opened Frames

  /** copy(a[at:], b) */
  method Put(a: array<Byte>, at: nat, b: Bytes)
    requires at + |b| <= a.Length
    modifies a
    ensures a[..at + |b|] == old(a[..at]) + b
    ensures a[at + |b|..] == old(a[at + |b|..])
  {
    var i := 0;
    while i < |b|
      invariant 0 <= i <= |b|
      invariant a[..at + i] == old(a[..at]) + b[..i]
      invariant a[at + i..] == old(a[at + i..])
    {
      a[at + i] := b[i];
      i := i + 1;
    }
  }

  /** bytes.Reader, as much of it as the decoder needs. */
  class ByteReader {
    var rest: Bytes

    constructor (data: Bytes)
      ensures rest == data
    {
      rest := data;
    }

    /** io.ReadFull(r, make([]byte, n)) */
    method ReadFull(n: nat) returns (r: Result<Bytes>)
      modifies this
      ensures n == 0 ==> r == Ok([]) && rest == old(rest)
      ensures n > 0 && |old(rest)| >= n ==> r == Ok(old(rest)[..n]) && rest == old(rest)[n..]
      ensures n > 0 && |old(rest)| < n ==> r == Err(ShortRead(|old(rest)|)) && rest == []
    {
      if |rest| >= n {
        r := Ok(rest[..n]);
        rest := rest[n..];
      } else {
        r := Err(ShortRead(|rest|));
        rest := [];
      }
    }

    /** io.CopyN(io.Discard, r, n) */
    method Discard(n: nat) returns (ok: bool)
      modifies this
      ensures ok == (|old(rest)| >= n)
      ensures rest == if ok then old(rest)[n..] else []
    {
      ok := |rest| >= n;
      rest := if ok then rest[n..] else [];
    }
  }

  class FrameAead {
    const aead: Aead
    const key: Bytes32
    const prefix: Bytes4
    var counter: Counter
    /** How often the system's randomness has failed. */
    ghost var drawsFailed: nat

    ghost function Ctx(): Context
      reads this
    {
      Context(key, prefix, counter)
    }

    constructor (aead: Aead, key: Bytes32, prefix: Bytes4)
      ensures Ctx() == Context(key, prefix, 0) && this.aead == aead
    {
      this.aead, this.key, this.prefix, counter := aead, key, prefix, 0;
      drawsFailed := 0;
    }

    /** io.ReadFull(crand.Reader, a[at:at+n]): fills the range with arbitrary bytes, or fails part-way. */
    method RandomFill(a: array<Byte>, at: nat, n: nat) returns (ok: bool)
      requires at + n <= a.Length
      modifies `drawsFailed, a
      ensures a[..at] == old(a[..at])
      ensures a[at + n..] == old(a[at + n..])
      ensures drawsFailed == old(drawsFailed) + if ok then 0 else 1
    {
      var i := 0;
      while i < n
        invariant 0 <= i <= n && drawsFailed == old(drawsFailed)
        invariant a[..at] == old(a[..at])
        invariant a[at + n..] == old(a[at + n..])
      {
        if * {
          drawsFailed := drawsFailed + 1;
          return false;
        }
        a[at + i] := *;
        i := i + 1;
      }
      return true;
    }

    /** EncodeFrameAppend. `dst[..base]` is the slice appended to and `dst.Length` its capacity; `out[..end]` is
        the slice returned. */
    method EncodeAppend(dst: array<Byte>, base: nat, f: Frame, padLen: int)
      returns (out: array<Byte>, end: nat, err: Option<Error>, ghost pad: Bytes)
      requires base <= dst.Length
      modifies this, dst
      ensures end <= out.Length && (out == dst || fresh(out))
      ensures dst[..base] == old(dst[..base])
      ensures EncodeError(f, padLen).Some? ==> err == EncodeError(f, padLen) && dst[..] == old(dst[..]) && out == dst
      ensures EncodeError(f, padLen).None? ==> err.None? || (err.value.RandomFailure? && padLen > 0)
      ensures drawsFailed == old(drawsFailed) + if err == Some(RandomFailure) then 1 else 0
      ensures err.Some? ==> out[..end] == old(dst[..base]) && Ctx() == old(Ctx())
      ensures err.None? ==>
                && |pad| == (if padLen < 0 then 0 else padLen) && Encodable(f, |pad|)
                && out[..end] == old(dst[..base]) + EncodeFrame(aead, old(Ctx()), f, pad)
                && Ctx() == old(Ctx()).Next()
      ensures EncodeError(f, padLen).None? ==>
                (out == dst <==> base + 4 + FrameLen(f, if padLen < 0 then 0 else padLen) <= dst.Length)
    {
      hide EncodeFrame;
      pad := [];
      if !ValidType(f.kind) {
        return dst, base, Some(UnknownFrameType), pad;
      }
      if |f.meta| > MAX_META_LEN {
        return dst, base, Some(MetaTooLarge), pad;
      }
      var padN: int := if padLen < 0 then 0 else padLen;
      if padN > MAX_FRAME_PAD {
        return dst, base, Some(PadTooLarge), pad;
      }
      var plainLen := |f.meta| + |f.payload|;
      var cipherLen := plainLen + AEAD_OVERHEAD;
      var frameLen := COUNTED_HEADER + cipherLen + padN;
      if frameLen > MAX_FRAME_SIZE {
        return dst, base, Some(FrameTooLarge), pad;
      }
      var total := HEADER_SIZE + cipherLen + padN;
      out := Grow(dst, base, total);
      var ok;
      ok, pad := WriteFrame(out, base, f, padN);
      if !ok {
        return out, base, Some(RandomFailure), [];
      }
      counter := if counter + 1 == TWO64 then 0 else counter + 1;
      return out, base + total, None, pad;
    }

    /** Makes room for `total` more bytes: in place when the capacity allows, in a copy otherwise. */
    method Grow(dst: array<Byte>, base: nat, total: nat) returns (out: array<Byte>)
      requires base <= dst.Length
      ensures base + total <= out.Length && out[..base] == dst[..base]
      ensures if base + total <= dst.Length then out == dst else fresh(out)
    {
      if dst.Length - base < total {
        out := new Byte[base + total](_ => 0);
        Put(out, 0, dst[..base]);
      } else {
        out := dst;
      }
    }

    /** Header, sealed plaintext and pad, written in place behind `out[..base]`. */
    method WriteFrame(out: array<Byte>, base: nat, f: Frame, padN: nat) returns (ok: bool, ghost pad: Bytes)
      requires Encodable(f, padN) && base + 4 + FrameLen(f, padN) <= out.Length
      modifies `drawsFailed, out
      ensures out[..base] == old(out[..base])
      ensures !ok ==> padN > 0
      ensures drawsFailed == old(drawsFailed) + if ok then 0 else 1
      ensures ok ==> |pad| == padN &&
                     out[..base + 4 + FrameLen(f, padN)] == old(out[..base]) + EncodeFrame(aead, Ctx(), f, pad)
    {
      hide PutHeader, CipherOf;
      ghost var front := out[..base];
      var plainStart := base + HEADER_SIZE;
      var frameLen := COUNTED_HEADER + |f.meta| + |f.payload| + AEAD_OVERHEAD + padN;
      var hdr := PutHeader(Header(frameLen, counter, f.kind, |f.meta|, padN));
      Put(out, base, hdr);
      assert out[base..plainStart] == out[..plainStart][base..] == hdr;
      var cipherLen := SealInPlace(out, base, f, padN);
      ghost var sealed := out[..plainStart + cipherLen];
      assert sealed == front + hdr + CipherOf(aead, Ctx(), f, padN);
      ok, pad := WritePad(out, plainStart + cipherLen, padN);
      assert out[..base] == out[..plainStart + cipherLen][..base] == front;
      assert sealed + pad == front + (hdr + CipherOf(aead, Ctx(), f, padN) + pad);
    }

    /** Random bytes behind the ciphertext. */
    method WritePad(out: array<Byte>, at: nat, padN: nat) returns (ok: bool, ghost pad: Bytes)
      requires at + padN <= out.Length
      modifies `drawsFailed, out
      ensures out[..at] == old(out[..at])
      ensures |pad| == padN && out[..at + padN] == old(out[..at]) + pad
      ensures !ok ==> padN > 0
      ensures drawsFailed == old(drawsFailed) + if ok then 0 else 1
    {
      ok := true;
      if padN > 0 {
        ok := RandomFill(out, at, padN);
      }
      pad := out[at..at + padN];
    }

    /** Lays meta || payload behind the header and seals it where it lies, the header being the AAD. */
    method SealInPlace(out: array<Byte>, base: nat, f: Frame, padN: nat) returns (cipherLen: nat)
      requires Encodable(f, padN) && base + 4 + FrameLen(f, padN) <= out.Length
      requires out[base..base + HEADER_SIZE] == PutHeader(HeaderOf(Ctx(), f, padN))
      modifies out
      ensures cipherLen == |f.meta| + |f.payload| + AEAD_OVERHEAD
      ensures out[..base + HEADER_SIZE + cipherLen]
              == old(out[..base + HEADER_SIZE]) + CipherOf(aead, Ctx(), f, padN)
    {
      hide PutHeader;
      var plainStart := base + HEADER_SIZE;
      var hdr := out[base..plainStart];
      ghost var front := out[..plainStart];
      Put(out, plainStart, f.meta);
      Put(out, plainStart + |f.meta|, f.payload);
      var plainEnd := plainStart + |f.meta| + |f.payload|;
      var plain := out[plainStart..plainEnd];
      assert out[..plainEnd] == front + f.meta + f.payload && plain == out[..plainEnd][|front|..];
      Parts(front, f.meta, f.payload);
      var sealed := Seal(aead, key, prefix + PutUint(counter, 8), plain, hdr);
      assert out[..plainStart] == out[..plainEnd][..plainStart] == front;
      Put(out, plainStart, sealed);
      cipherLen := |sealed|;
    }

    /** DecodeFrame. */
    method Decode(r: ByteReader) returns (d: Result<Frame>)
      modifies this, r
      ensures match DecodeFrame(aead, old(Ctx()), old(r.rest))
              case Bad(e) =>
                && d == Err(e) && Ctx() == old(Ctx())
                && (|old(r.rest)| >= HEADER_SIZE && HeaderError(GetHeader(old(r.rest)[..HEADER_SIZE])).Some? ==>
                      r.rest == old(r.rest)[HEADER_SIZE..])
              case Good(f, used) =>
                d == Ok(f) && Ctx() == old(Ctx()).Next() && used <= |old(r.rest)| && r.rest == old(r.rest)[used..]
    {
      hide GetHeader;
      var hdr := r.ReadFull(HEADER_SIZE);
      if hdr.Err? {
        return Err(hdr.error);
      }
      var h := GetHeader(hdr.value);
      if h.frameLen > MAX_FRAME_SIZE {
        return Err(FrameTooLarge);
      }
      if h.metaLen > MAX_META_LEN {
        return Err(MetaTooLarge);
      }
      if h.padLen > MAX_FRAME_PAD {
        return Err(PadTooLarge);
      }
      var bodyLen := h.frameLen - COUNTED_HEADER;
      if bodyLen < h.padLen + AEAD_OVERHEAD + h.metaLen {
        return Err(FrameTooShort);
      }
      var cipherLen := bodyLen - h.padLen;
      ghost var body := r.rest;
      var cipher := r.ReadFull(cipherLen);
      if cipher.Err? {
        return Err(cipher.error);
      }
      if h.padLen > 0 {
        var ok := r.Discard(h.padLen);
        if !ok {
          return Err(Eof);
        }
      }
      assert r.rest == body[cipherLen + h.padLen..] == old(r.rest)[HEADER_SIZE + cipherLen + h.padLen..];
      if h.counter != counter {
        return Err(CounterMismatch);
      }
      if !ValidType(h.kind) {
        return Err(UnknownFrameType);
      }
      var unsealed := Open(aead, key, prefix + PutUint(counter, 8), cipher.value, hdr.value);
      if unsealed.None? {
        return Err(AeadOpenFailed);
      }
      var plain := unsealed.value;
      if |plain| < h.metaLen {
        return Err(FrameTooShort);
      }
      counter := if counter + 1 == TWO64 then 0 else counter + 1;
      return Ok(Frame(h.kind, plain[..h.metaLen], plain[h.metaLen..]));
    }
  }
}
