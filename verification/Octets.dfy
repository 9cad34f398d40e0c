/** Byte sequences, the big-endian integers of the wire format, and the results shared by every layer. */
module Octets {

  type Byte = b: int | 0 <= b < 256
  type Bytes = seq<Byte>

  datatype Option<+T> = None | Some(value: T)

  datatype Result<+T> = Ok(value: T) | Err(error: Error)

  /** The error values of the package, plus the ones it passes through from `io`. */
  datatype Error =
    | Eof | UnexpectedEof | ClosedPipe | TransportFailure | RandomFailure
    | FrameTooLarge | FrameTooShort | UnknownFrameType | MetaTooLarge | PadTooLarge | AeadOpenFailed | CounterMismatch
    | AddressTruncated | UnknownAddressType | DomainLength | InvalidAddress
    | UdpMetaTooShort | UnexpectedFrame
    | HandshakeShort | HandshakeLong | OuterMacMismatch | HandshakeAeadFailed | TimestampOutOfWindow
    | UuidMismatch | UnsupportedCommand | ServerRefused | UnknownUuid | PlaintextMalformed | Replayed | BadPublicKey

  const TWO16: int := 0x1_0000
  const TWO32: int := 0x1_0000_0000
  const TWO64: int := 0x1_0000_0000_0000_0000

  function Zeros(n: nat): (z: Bytes)
    ensures |z| == n
  {
    seq(n, _ => 0)
  }

  // ------------------------------------------------------------------
  // Big-endian integers (encoding/binary.BigEndian)
  // ------------------------------------------------------------------

  /** 256 to the power `width`: the number of values of a `width`-byte integer. */
  function Pow256(width: nat): (p: nat)
    ensures p > 0
    ensures width == 1 ==> p == 0x100
    ensures width == 2 ==> p == TWO16
    ensures width == 3 ==> p == 0x100_0000
    ensures width == 4 ==> p == TWO32
    ensures width == 5 ==> p == 0x100_0000_0000
    ensures width == 6 ==> p == 0x1_0000_0000_0000
    ensures width == 7 ==> p == 0x100_0000_0000_0000
    ensures width == 8 ==> p == TWO64
  {
    if width == 0 then 1 else 256 * Pow256(width - 1)
  }

  function PutUint(n: nat, width: nat): (b: Bytes)
    requires n < Pow256(width)
    ensures |b| == width && GetUint(b) == n
    decreases width, n
  {
    if width == 0 then [] else PutUint(n / 256, width - 1) + [n % 256]
  }

  function GetUint(b: Bytes): (n: nat)
    ensures n < Pow256(|b|)
    decreases |b|
  {
    if b == [] then 0
    else
      var low: int := b[|b| - 1];
      GetUint(b[..|b| - 1]) * 256 + low
  }

  lemma {:induction false} PutGetUint(b: Bytes, width: nat)
    requires |b| == width
    ensures PutUint(GetUint(b), width) == b
    decreases width
  {
    if b != [] {
      var front := b[..|b| - 1];
      PutGetUint(front, width - 1);
      assert GetUint(b) / 256 == GetUint(front);
      assert b == front + [b[|b| - 1]];
    }
  }

  /** Most significant byte first. */
  lemma {:induction false} BigEndian(high: Byte, rest: Bytes)
    ensures GetUint([high] + rest) == high * Pow256(|rest|) + GetUint(rest)
  {
    var b := [high] + rest;
    if rest != [] {
      var front, last := rest[..|rest| - 1], rest[|rest| - 1];
      assert b[..|b| - 1] == [high] + front;
      BigEndian(high, front);
      Times256(high, Pow256(|front|));
    }
  }

  lemma Times256(x: int, y: int)
    ensures x * (256 * y) == (x * y) * 256
  {
  }

  /** The parts of a concatenation sit where their lengths say. */
  lemma Parts(a: Bytes, b: Bytes, c: Bytes)
    ensures (a + b + c)[..|a|] == a
    ensures (a + b + c)[|a|..|a| + |b|] == b
    ensures (a + b + c)[|a| + |b|..] == c
    ensures (a + b + c)[|a|..] == b + c
  {
  }
}
