/** Key derivation and the outer MAC (kdf.go), and the key exchange primitives known by their laws. */
module Kdf {
  import opened Octets
  import opened Crypto
  import opened Frames

  // ------------------------------------------------------------------
  // SHA-256, HMAC (section 2 of RFC 2104) and HKDF (sections 2.2 and 2.3 of RFC 5869)
  // ------------------------------------------------------------------

  datatype HashFunctions = HashFunctions(
    sha256: Bytes -> Bytes32,
    hmac: (Bytes32, Bytes) -> Bytes32,
    extract: (Bytes, Bytes) -> Bytes32,
    expand: (Bytes32, string, nat) -> Bytes)

  ghost predicate HashLaws(h: HashFunctions) {
    forall prk, info, n :: |h.expand(prk, info, n)| == n
  }

  type Hashes = h: HashFunctions | HashLaws(h) ghost witness WitnessHashes()

  ghost function WitnessHashes(): (h: HashFunctions)
    ensures HashLaws(h)
  {
    HashFunctions((b: Bytes) => Zeros(32), (k: Bytes32, b: Bytes) => Zeros(32), (i: Bytes, s: Bytes) => Zeros(32),
                  (p: Bytes32, l: string, n: nat) => Zeros(n))
  }

  function HandshakeKey(h: Hashes, uuid: Bytes16, nonce: Bytes12): Bytes32 {
    h.expand(h.extract(h.sha256(uuid), nonce), "EWPv2 handshake aead", 32)
  }

  function OuterMac(h: Hashes, uuid: Bytes16, msg: Bytes): Bytes16 {
    h.hmac(h.sha256(uuid), msg)[..16]
  }

  datatype SessionKeys = SessionKeys(c2sKey: Bytes32, s2cKey: Bytes32, c2sNonce: Bytes4, s2cNonce: Bytes4)

  function DeriveSessionKeys(h: Hashes, classical: Bytes32, pq: Bytes, clientNonce: Bytes12,
                             echo: Bytes12): SessionKeys {
    var saltPrefix: Bytes := [69, 87, 80, 118, 50, 45, 115, 97, 108, 116]; // "EWPv2-salt"
    var prk := h.extract(classical + pq, saltPrefix + clientNonce + echo);
    SessionKeys(h.expand(prk, "EWPv2 c2s key", 32), h.expand(prk, "EWPv2 s2c key", 32),
                h.expand(prk, "EWPv2 c2s nonce", 4), h.expand(prk, "EWPv2 s2c nonce", 4))
  }

  // ------------------------------------------------------------------
  // What the derived values depend on
  // ------------------------------------------------------------------

  /** The pseudorandom key of a session. */
  function SessionSecret(h: Hashes, classical: Bytes32, pq: Bytes, clientNonce: Bytes12, echo: Bytes12): Bytes32 {
    h.extract(classical + pq, [69, 87, 80, 118, 50, 45, 115, 97, 108, 116] + clientNonce + echo)
  }

  /** Expansion shows the first byte of its key. */
  ghost predicate Transparent(h: HashFunctions) {
    forall p, l, n :: n > 0 ==> |h.expand(p, l, n)| == n && h.expand(p, l, n)[0] == p[0]
  }

  /** A hash that tells one input of each primitive from all others. */
  ghost function ProbeHashes(uuid: Bytes, msg: Bytes, ikm: Bytes, salt: Bytes): (h: HashFunctions)
    ensures HashLaws(h) && Transparent(h)
    ensures forall b :: h.sha256(b) == if b == uuid then seq(32, _ => 1) else Zeros(32)
    ensures forall k, b :: h.hmac(k, b)[0] == if k == seq(32, _ => 1) && b == msg then 1 else 0
    ensures forall i, s :: h.extract(i, s)[0] == if i == ikm && s == salt then 1 else 0
  {
    var yes: Bytes32, no: Bytes32 := seq(32, _ => 1), Zeros(32);
    HashFunctions((b: Bytes) => if b == uuid then yes else no,
                  (k: Bytes32, b: Bytes) => if k == yes && b == msg then yes else no,
                  (i: Bytes, s: Bytes) => if i == ikm && s == salt then yes else no,
                  (p: Bytes32, l: string, n: nat) => seq(n, _ => p[0]))
  }

  lemma SecretShows(h: Hashes, classical: Bytes32, pq: Bytes, nonce: Bytes12, echo: Bytes12)
    requires Transparent(h)
    ensures var k, b := DeriveSessionKeys(h, classical, pq, nonce, echo), SessionSecret(h, classical, pq, nonce, echo)[0];
            k.c2sKey[0] == b && k.s2cKey[0] == b && k.c2sNonce[0] == b && k.s2cNonce[0] == b
  {
  }

  /** Every key and every nonce prefix depends on the X25519 secret, the ML-KEM secret and both nonces: inputs that
      differ anywhere give different outputs under some hash. */
  lemma EverySecretCounts(c1: Bytes32, p1: Bytes, n1: Bytes12, e1: Bytes12, c2: Bytes32, p2: Bytes, n2: Bytes12, e2: Bytes12)
    requires c1 != c2 || p1 != p2 || n1 != n2 || e1 != e2
    ensures exists h: Hashes :: AllDiffer(DeriveSessionKeys(h, c1, p1, n1, e1), DeriveSessionKeys(h, c2, p2, n2, e2))
  {
    hide ProbeHashes, DeriveSessionKeys, Transparent;
    var salt: Bytes := [69, 87, 80, 118, 50, 45, 115, 97, 108, 116];
    var h: Hashes := ProbeHashes([], [], c1 + p1, salt + n1 + e1);
    JoinsDiffer(c1, p1, c2, p2);
    Parts(salt, n1, e1);
    Parts(salt, n2, e2);
    SecretShows(h, c1, p1, n1, e1);
    SecretShows(h, c2, p2, n2, e2);
    assert SessionSecret(h, c1, p1, n1, e1)[0] == 1 && SessionSecret(h, c2, p2, n2, e2)[0] == 0;
    assert AllDiffer(DeriveSessionKeys(h, c1, p1, n1, e1), DeriveSessionKeys(h, c2, p2, n2, e2));
  }

  predicate AllDiffer(k1: SessionKeys, k2: SessionKeys) {
    k1.c2sKey != k2.c2sKey && k1.s2cKey != k2.s2cKey && k1.c2sNonce != k2.c2sNonce && k1.s2cNonce != k2.s2cNonce
  }

  lemma JoinsDiffer(c1: Bytes32, p1: Bytes, c2: Bytes32, p2: Bytes)
    ensures c1 + p1 == c2 + p2 <==> c1 == c2 && p1 == p2
  {
    assert (c1 + p1)[..32] == c1 && (c1 + p1)[32..] == p1 && (c2 + p2)[..32] == c2 && (c2 + p2)[32..] == p2;
  }

  /** Each output is the expansion of its own label: two hashes with the same session secret give the same output exactly
      when they expand that label alike. */
  lemma EachKeyItsLabel(h1: Hashes, h2: Hashes, classical: Bytes32, pq: Bytes, nonce: Bytes12, echo: Bytes12)
    requires SessionSecret(h1, classical, pq, nonce, echo) == SessionSecret(h2, classical, pq, nonce, echo)
    ensures var k1, k2 := DeriveSessionKeys(h1, classical, pq, nonce, echo), DeriveSessionKeys(h2, classical, pq, nonce, echo);
            var prk := SessionSecret(h1, classical, pq, nonce, echo);
            && (k1.c2sKey == k2.c2sKey <==> h1.expand(prk, "EWPv2 c2s key", 32) == h2.expand(prk, "EWPv2 c2s key", 32))
            && (k1.s2cKey == k2.s2cKey <==> h1.expand(prk, "EWPv2 s2c key", 32) == h2.expand(prk, "EWPv2 s2c key", 32))
            && (k1.c2sNonce == k2.c2sNonce <==> h1.expand(prk, "EWPv2 c2s nonce", 4) == h2.expand(prk, "EWPv2 c2s nonce", 4))
            && (k1.s2cNonce == k2.s2cNonce <==> h1.expand(prk, "EWPv2 s2c nonce", 4) == h2.expand(prk, "EWPv2 s2c nonce", 4))
  {
  }

  /** The handshake key is the expansion of a label of its own. */
  lemma HandshakeKeyLabel(h1: Hashes, h2: Hashes, uuid: Bytes16, nonce: Bytes12)
    requires h1.extract(h1.sha256(uuid), nonce) == h2.extract(h2.sha256(uuid), nonce)
    ensures var prk, info := h1.extract(h1.sha256(uuid), nonce), "EWPv2 handshake aead";
            HandshakeKey(h1, uuid, nonce) == HandshakeKey(h2, uuid, nonce)
            <==> h1.expand(prk, info, 32) == h2.expand(prk, info, 32)
  {
  }

  function LabelCode(l: string): Byte {
    if l == "EWPv2 c2s key" then 1 else if l == "EWPv2 s2c key" then 2
    else if l == "EWPv2 c2s nonce" then 3 else if l == "EWPv2 s2c nonce" then 4 else 0
  }

  lemma LabelCodes()
    ensures LabelCode("EWPv2 c2s key") == 1 && LabelCode("EWPv2 s2c key") == 2
    ensures LabelCode("EWPv2 c2s nonce") == 3 && LabelCode("EWPv2 s2c nonce") == 4
  {
    assert "EWPv2 c2s key"[6] != "EWPv2 s2c key"[6] && "EWPv2 c2s nonce"[6] != "EWPv2 s2c nonce"[6];
    assert |"EWPv2 c2s key"| == |"EWPv2 s2c key"| == 13 && |"EWPv2 c2s nonce"| == |"EWPv2 s2c nonce"| == 15;
  }

  ghost function LabelHashes(): (h: HashFunctions)
    ensures HashLaws(h) && ShowsLabel(h)
  {
    HashFunctions((b: Bytes) => Zeros(32), (k: Bytes32, b: Bytes) => Zeros(32), (i: Bytes, s: Bytes) => Zeros(32),
                  (p: Bytes32, l: string, n: nat) => seq(n, _ => LabelCode(l)))
  }

  /** Expansion shows the label. */
  ghost predicate ShowsLabel(h: HashFunctions) {
    forall p, l, n :: n > 0 ==> |h.expand(p, l, n)| == n && h.expand(p, l, n)[0] == LabelCode(l)
  }

  lemma LabelsShow(h: Hashes, classical: Bytes32, pq: Bytes, nonce: Bytes12, echo: Bytes12)
    requires ShowsLabel(h)
    ensures Distinct(DeriveSessionKeys(h, classical, pq, nonce, echo))
  {
    hide LabelCode;
    LabelCodes();
    var k := DeriveSessionKeys(h, classical, pq, nonce, echo);
    assert k.c2sKey[0] == 1 && k.s2cKey[0] == 2 && k.c2sNonce[0] == 3 && k.s2cNonce[0] == 4;
    assert k.c2sKey[..4][0] == 1 && k.s2cKey[..4][0] == 2;
  }

  /** The two directions are kept apart: under some hash, whatever the secrets, all four outputs differ. */
  lemma DirectionsDiffer()
    ensures exists h: Hashes :: KeepsApart(h)
  {
    hide LabelCode, ShowsLabel, Distinct, DeriveSessionKeys, HashLaws;
    var h: Hashes := LabelHashes();
    forall classical: Bytes32, pq: Bytes, nonce: Bytes12, echo: Bytes12
      ensures Distinct(DeriveSessionKeys(h, classical, pq, nonce, echo))
    {
      LabelsShow(h, classical, pq, nonce, echo);
    }
    assert KeepsApart(h);
  }

  ghost predicate KeepsApart(h: Hashes) {
    forall classical, pq, nonce, echo :: Distinct(DeriveSessionKeys(h, classical, pq, nonce, echo))
  }

  predicate Distinct(k: SessionKeys) {
    && k.c2sKey != k.s2cKey && k.c2sNonce != k.s2cNonce
    && k.c2sNonce != k.c2sKey[..4] && k.c2sNonce != k.s2cKey[..4]
    && k.s2cNonce != k.c2sKey[..4] && k.s2cNonce != k.s2cKey[..4]
  }

  /** The handshake key depends on the UUID and the nonce. */
  lemma HandshakeKeyCounts(u1: Bytes16, n1: Bytes12, u2: Bytes16, n2: Bytes12)
    requires u1 != u2 || n1 != n2
    ensures exists h: Hashes :: HandshakeKey(h, u1, n1) != HandshakeKey(h, u2, n2)
  {
    hide ProbeHashes;
    var h: Hashes := ProbeHashes(u1, [], seq(32, _ => 1), n1);
    assert seq(32, _ => 1)[0] != Zeros(32)[0];
    assert HandshakeKey(h, u1, n1)[0] == 1 && HandshakeKey(h, u2, n2)[0] == 0;
  }

  /** The outer MAC depends on the UUID and on every byte of the message. */
  lemma OuterMacCounts(u1: Bytes16, m1: Bytes, u2: Bytes16, m2: Bytes)
    requires u1 != u2 || m1 != m2
    ensures exists h: Hashes :: OuterMac(h, u1, m1) != OuterMac(h, u2, m2)
  {
    hide ProbeHashes;
    var h: Hashes := ProbeHashes(u1, m1, [], []);
    assert seq(32, _ => 1)[0] != Zeros(32)[0];
    assert OuterMac(h, u1, m1)[0] == 1 && OuterMac(h, u2, m2)[0] == 0;
  }

  /** The cipher contexts of NewClientSecureStream and NewServerSecureStream. */
  datatype Contexts = Contexts(send: Context, recv: Context)

  function ClientContexts(k: SessionKeys): Contexts {
    Contexts(Context(k.c2sKey, k.c2sNonce, 0), Context(k.s2cKey, k.s2cNonce, 0))
  }

  function ServerContexts(k: SessionKeys): Contexts {
    Contexts(Context(k.s2cKey, k.s2cNonce, 0), Context(k.c2sKey, k.c2sNonce, 0))
  }

  // ------------------------------------------------------------------
  // X25519 (section 6.1 of RFC 7748) and ML-KEM-768 (sections 7.2 and 7.3 of FIPS 203)
  // ------------------------------------------------------------------

  /** `ecdh` and `encapsulate` fail on public keys the libraries refuse; `encapsulate` takes its randomness. */
  datatype ExchangeFunctions = ExchangeFunctions(
    xPub: Bytes32 -> Bytes32,
    ecdh: (Bytes32, Bytes32) -> Option<Bytes32>,
    kemPub: Bytes -> MlkemPub,
    encapsulate: (MlkemPub, Bytes) -> Option<(Bytes, MlkemCipher)>,
    decapsulate: (Bytes, MlkemCipher) -> Option<Bytes>)

  ghost predicate ExchangeLaws(x: ExchangeFunctions) {
    && (forall a, b :: x.ecdh(a, x.xPub(b)) == x.ecdh(b, x.xPub(a)))
    && (forall sk, r :: x.encapsulate(x.kemPub(sk), r).Some?
                        && x.decapsulate(sk, x.encapsulate(x.kemPub(sk), r).value.1) == Some(x.encapsulate(x.kemPub(sk), r).value.0))
  }

  type Exchange = x: ExchangeFunctions | ExchangeLaws(x) ghost witness WitnessExchange()

  ghost function WitnessExchange(): (x: ExchangeFunctions)
    ensures ExchangeLaws(x)
  {
    ExchangeFunctions((a: Bytes32) => a, (a: Bytes32, b: Bytes32) => Some(Zeros(32)), (sk: Bytes) => Zeros(1184),
                      (p: MlkemPub, r: Bytes) => Some((Zeros(32), Zeros(1088))), (sk: Bytes, c: MlkemCipher) => Some(Zeros(32)))
  }

  /** Every primitive the handshake uses. */
  datatype Suite = Suite(aead: Aead, hash: Hashes, kex: Exchange)
}
