/** The cryptography and serialization the authenticator calls, as a record of functions,
    and the few laws about them that the proofs use. Nothing here is assumed of a
    particular library: a theorem that needs the laws names them in its precondition. */
module Crypto {
  import opened Bytes

  type Key = seq<byte>    // a private key
  type Cert = seq<byte>

  /** A resident credential as stored in a wallet. */
  datatype Cred = Cred(rpId: seq<byte>, userId: seq<byte>, credId: seq<byte>)

  datatype Primitives = Primitives(
    b64enc: seq<byte> -> seq<byte>,
    b64dec: seq<byte> -> Option<seq<byte>>,
    // AES-GCM under a key, with nonce and associated data
    sealTag: (seq<byte>, seq<byte>, seq<byte>, seq<byte>) -> seq<byte>,
    sealText: (seq<byte>, seq<byte>, seq<byte>, seq<byte>) -> seq<byte>,
    open: (seq<byte>, seq<byte>, seq<byte>, seq<byte>, seq<byte>) -> Option<seq<byte>>,
    // elliptic-curve keys: PEM of the public half, loading one, the hashed shared secret
    publicPem: Key -> seq<byte>,
    loadable: seq<byte> -> bool,
    exchange: (Key, seq<byte>) -> seq<byte>,
    // PKCS12 file of a key and certificate under a secret (with salt), and opening one
    pkcs12: (Key, Cert, seq<byte>, seq<byte>) -> seq<byte>,
    unpkcs12: (seq<byte>, seq<byte>) -> Option<(Key, Cert)>,
    // CBOR of a credential list
    dumps: seq<Cred> -> seq<byte>,
    loads: seq<byte> -> Option<seq<Cred>>,
    pinHash: seq<byte> -> seq<byte>,                       // SHA-256 of a PIN
    seed: (seq<byte>, Key, seq<byte>) -> seq<byte>,        // HKDF of RP id, key and info string
    derives: (int, seq<byte>) -> bool)                     // the algorithm accepts the key material

  const PEM_LENGTH: nat := 178   // PEM of a P-256 public key
  const TAG_LENGTH: nat := 16
  const HASH_LENGTH: nat := 32

  ghost predicate Base64Inverts(p: Primitives) {
    forall x :: p.b64dec(p.b64enc(x)) == Some(x)
  }

  ghost predicate AeadInverts(p: Primitives) {
    forall k, n, a, x ::
      && |p.sealTag(k, n, a, x)| == TAG_LENGTH && |p.sealText(k, n, a, x)| == |x|
      && p.open(k, n, a, p.sealTag(k, n, a, x), p.sealText(k, n, a, x)) == Some(x)
  }

  /** What is sealed under key `k` does not open under `k'`. No 16-byte tag can promise this
      of all pairs of keys, so it is not among the laws: theorems name the pairs. */
  ghost predicate Rejects(p: Primitives, k: seq<byte>, k': seq<byte>) {
    forall n, a, x :: p.open(k', n, a, p.sealTag(k, n, a, x), p.sealText(k, n, a, x)) == None
  }

  ghost predicate KeysAgree(p: Primitives) {
    && (forall k :: |p.publicPem(k)| == PEM_LENGTH && p.loadable(p.publicPem(k)))
    && (forall a, b :: p.exchange(a, p.publicPem(b)) == p.exchange(b, p.publicPem(a)))
  }

  /** A PKCS12 file opens under the secret it was made with, and under no other. */
  ghost predicate Pkcs12Exact(p: Primitives) {
    forall k, c, s, salt, s' ::
      p.unpkcs12(p.pkcs12(k, c, s, salt), s') == if s' == s then Some((k, c)) else None
  }

  ghost predicate CborInverts(p: Primitives) {
    forall cs :: p.loads(p.dumps(cs)) == Some(cs)
  }

  ghost predicate HashLength(p: Primitives) {
    forall pin :: |p.pinHash(pin)| == HASH_LENGTH
  }

  ghost predicate Laws(p: Primitives) {
    Base64Inverts(p) && AeadInverts(p) && KeysAgree(p) && Pkcs12Exact(p) && CborInverts(p) && HashLength(p)
  }
}
