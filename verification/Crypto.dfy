/** The size constants of kdf.go and the cryptographic primitives, as functions known only by their laws. */
module Crypto {
  import opened Octets

  const AEAD_OVERHEAD := 16
  const MAX_FRAME_PAD := 4096
  const MAX_FRAME_SIZE := 65536
  const MAX_META_LEN := 1024
  const MIN_HANDSHAKE_PAD := 64
  const MAX_HANDSHAKE_PAD := 1024
  const TIMESTAMP_WINDOW := 120

  type Bytes4 = b: Bytes | |b| == 4 witness Zeros(4)
  type Bytes8 = b: Bytes | |b| == 8 witness Zeros(8)
  type Bytes12 = b: Bytes | |b| == 12 witness Zeros(12)
  type Bytes16 = b: Bytes | |b| == 16 witness Zeros(16)
  type Bytes32 = b: Bytes | |b| == 32 witness Zeros(32)
  type MlkemPub = b: Bytes | |b| == 1184 witness Zeros(1184)
  type MlkemCipher = b: Bytes | |b| == 1088 witness Zeros(1088)

  // ------------------------------------------------------------------
  // AEAD (section 2.8 of RFC 8439)
  // ------------------------------------------------------------------

  /** `seal(key, nonce, plaintext, aad)` and `open(key, nonce, ciphertext, aad)`. */
  datatype AeadFunctions = AeadFunctions(
    seal: (Bytes32, Bytes12, Bytes, Bytes) -> Bytes,
    open: (Bytes32, Bytes12, Bytes, Bytes) -> Option<Bytes>)

  ghost predicate AeadLaws(a: AeadFunctions) {
    && (forall k, n, p, d :: |a.seal(k, n, p, d)| == |p| + AEAD_OVERHEAD)
    && (forall k, n, p, d :: a.open(k, n, a.seal(k, n, p, d), d) == Some(p))
    && (forall k, n, c, d :: a.open(k, n, c, d).Some? ==> c == a.seal(k, n, a.open(k, n, c, d).value, d))
  }

  type Aead = a: AeadFunctions | AeadLaws(a) ghost witness WitnessAead()

  function Seal(a: Aead, k: Bytes32, n: Bytes12, p: Bytes, d: Bytes): (c: Bytes)
    ensures |c| == |p| + AEAD_OVERHEAD
    ensures a.open(k, n, c, d) == Some(p)
  {
    a.seal(k, n, p, d)
  }

  function Open(a: Aead, k: Bytes32, n: Bytes12, c: Bytes, d: Bytes): (r: Option<Bytes>)
    ensures r.Some? ==> c == a.seal(k, n, r.value, d) && |c| == |r.value| + AEAD_OVERHEAD
  {
    a.open(k, n, c, d)
  }

  /** A (useless) cipher obeying the laws, so that they are known to be consistent. */
  function WitnessAead(): (a: AeadFunctions)
    ensures AeadLaws(a)
  {
    var a := AeadFunctions(
      (k: Bytes32, n: Bytes12, p: Bytes, d: Bytes) => p + Zeros(AEAD_OVERHEAD),
      (k: Bytes32, n: Bytes12, c: Bytes, d: Bytes) =>
        if |c| >= AEAD_OVERHEAD && c[|c| - AEAD_OVERHEAD..] == Zeros(AEAD_OVERHEAD)
        then Some(c[..|c| - AEAD_OVERHEAD]) else None);
    assert forall k, n, p, d :: a.open(k, n, a.seal(k, n, p, d), d) == Some(p) by {
      forall k, n, p, d ensures a.open(k, n, a.seal(k, n, p, d), d) == Some(p) {
        var c := a.seal(k, n, p, d);
        assert c[|c| - AEAD_OVERHEAD..] == Zeros(AEAD_OVERHEAD) && c[..|c| - AEAD_OVERHEAD] == p;
      }
    }
    a
  }
}
