/** Credential ids: an 8-byte prefix and an encrypted token of the algorithm and private
    key, written and read by two authenticators, CTAP2
    (soft_fido2/authenticator/fido2.py) and U2F (soft_fido2/authenticator/u2f.py). */
module CredentialId {
  import opened Bytes
  import opened Crypto
  import opened SymmetricKey

  const CRED_PREFIX: seq<byte> := [0x31, 0x33, 0x33, 0x37, 0x43, 0x30, 0x44, 0x33]  // "1337C0D3"
  const MATERIAL: nat := 32
  const ES256: int := -7

  /** The algorithms `reconstruct_key_from_alg_id` knows. */
  const SUPPORTED: set<int> := {-7, -35, -36, -8, -48, -49, -50}

  datatype KeyPair = KeyPair(alg: int, material: seq<byte>)

  /** `to_bytes(2, 'big', signed=True)`. */
  function AlgBytes(alg: int): seq<byte>
    requires -0x8000 <= alg < 0x8000
  {
    var v: nat := if alg < 0 then alg + 0x10000 else alg;
    [v / 256, v % 256]
  }

  /** `from_bytes(b, 'big', signed=True)`. */
  function AlgOf(b: seq<byte>): int
    requires |b| == 2
  {
    var v: int := 256 * (b[0] as int) + b[1];
    if v >= 0x8000 then v - 0x10000 else v
  }

  function BuildPlaintext(alg: int, material: seq<byte>): Result<seq<byte>> {
    if !(-0x8000 <= alg < 0x8000) || |material| != MATERIAL then Raised
    else Success(AlgBytes(alg) + material)
  }

  function ParsePlaintext(plaintext: seq<byte>): Result<KeyPair> {
    if |plaintext| != 2 + MATERIAL then Raised
    else Success(KeyPair(AlgOf(plaintext[..2]), plaintext[2..]))
  }

  function Reconstruct(p: Primitives, k: KeyPair): Result<KeyPair> {
    if k.alg in SUPPORTED && p.derives(k.alg, k.material) then Success(k) else Raised
  }

  /** The CTAP2 credential id of a key pair. */
  function Encode(p: Primitives, sKey: seq<byte>, k: KeyPair, time: nat, nonce: seq<byte>): Result<seq<byte>> {
    match BuildPlaintext(k.alg, k.material)
    case Raised => Raised
    case Success(plaintext) =>
      match Encrypt(p, sKey, plaintext, time, nonce)
      case Raised => Raised
      case Success(token) => Success(CRED_PREFIX + token)
  }

  /** CTAP2: the key pair a credential id holds. */
  function Decode(p: Primitives, sKey: seq<byte>, credId: seq<byte>): Result<KeyPair> {
    if |credId| < |CRED_PREFIX| || credId[..|CRED_PREFIX|] != CRED_PREFIX then Raised
    else
      match Decrypt(p, sKey, credId[|CRED_PREFIX|..], None, 0)
      case Raised => Raised
      case Success(plaintext) =>
        match ParsePlaintext(plaintext)
        case Raised => Raised
        case Success(k) => Reconstruct(p, k)
  }

  /** U2F: always ES256, and no check of the key's length. */
  function U2fEncode(p: Primitives, sKey: seq<byte>, material: seq<byte>, time: nat,
                     nonce: seq<byte>): Result<seq<byte>>
  {
    match Encrypt(p, sKey, AlgBytes(ES256) + material, time, nonce)
    case Raised => Raised
    case Success(token) => Success(CRED_PREFIX + token)
  }

  function U2fDecode(p: Primitives, sKey: seq<byte>, credId: seq<byte>): Result<KeyPair> {
    if !(CRED_PREFIX <= credId) then Raised
    else
      match Decrypt(p, sKey, credId[|CRED_PREFIX|..], None, 0)
      case Raised => Raised
      case Success(plaintext) =>
        if |plaintext| != 34 then Raised
        else
          var alg, material := AlgOf(plaintext[0..2]), plaintext[2..34];
          if alg in SUPPORTED && p.derives(alg, material) then Success(KeyPair(alg, material)) else Raised
  }

  lemma AlgRoundTrip(alg: int)
    requires -0x8000 <= alg < 0x8000
    ensures AlgOf(AlgBytes(alg)) == alg
  {
  }

  lemma DecodeOfToken(p: Primitives, sKey: seq<byte>, plaintext: seq<byte>, time: nat, nonce: seq<byte>)
    requires Base64Inverts(p) && AeadInverts(p) && |nonce| == NONCE_LENGTH && time < Pow256(8) && plaintext != []
    ensures Encrypt(p, sKey, plaintext, time, nonce).Success?
    ensures
      var id := CRED_PREFIX + Encrypt(p, sKey, plaintext, time, nonce).value;
      var parsed := ParsePlaintext(plaintext);
      Decode(p, sKey, id) == if parsed.Success? then Reconstruct(p, parsed.value) else Raised
  {
    DecryptInvertsEncrypt(p, sKey, plaintext, time, nonce, None, 0);
    var token := Encrypt(p, sKey, plaintext, time, nonce).value;
    assert (CRED_PREFIX + token)[|CRED_PREFIX|..] == token;
    hide Decrypt, Encrypt;
  }

  /** A key pair can be given an id exactly if its algorithm fits 16 bits and its material
      is 32 bytes long; decoding that id gives the pair back exactly if the algorithm is
      a supported one that accepts the material. */
  lemma CredentialIdRoundTrip(p: Primitives, sKey: seq<byte>, k: KeyPair, time: nat, nonce: seq<byte>)
    requires Base64Inverts(p) && AeadInverts(p) && |nonce| == NONCE_LENGTH && time < Pow256(8)
    ensures Encode(p, sKey, k, time, nonce).Success? <==> -0x8000 <= k.alg < 0x8000 && |k.material| == MATERIAL
    ensures Encode(p, sKey, k, time, nonce).Success? ==>
      Decode(p, sKey, Encode(p, sKey, k, time, nonce).value)
        == if k.alg in SUPPORTED && p.derives(k.alg, k.material) then Success(k) else Raised
  {
    if -0x8000 <= k.alg < 0x8000 && |k.material| == MATERIAL {
      AlgRoundTrip(k.alg);
      var plaintext := AlgBytes(k.alg) + k.material;
      assert plaintext[..2] == AlgBytes(k.alg) && plaintext[2..] == k.material;
      DecodeOfToken(p, sKey, plaintext, time, nonce);
      hide Decode, Encrypt, AlgOf, AlgBytes;
    }
  }

  /** What an id holds: "1337C0D3" and the token of 34 bytes, the algorithm as a big-endian
      16-bit two's complement number and then the key material; the same over U2F, where
      the algorithm is always -7. */
  lemma IdBytes(p: Primitives, sKey: seq<byte>, k: KeyPair, time: nat, nonce: seq<byte>)
    requires Base64Inverts(p) && AeadInverts(p) && |nonce| == NONCE_LENGTH && time < Pow256(8)
    requires -0x8000 <= k.alg < 0x8000 && |k.material| == 32
    ensures
      var id, code := Encode(p, sKey, k, time, nonce), k.alg % 0x1_0000;
      && id.Success? && id.value[..8] == [0x31, 0x33, 0x33, 0x37, 0x43, 0x30, 0x44, 0x33]
      && Decrypt(p, sKey, id.value[8..], None, 0) == Success([code / 256, code % 256] + k.material)
      && (k.alg == -7 ==> U2fEncode(p, sKey, k.material, time, nonce) == id)
  {
    var plaintext := AlgBytes(k.alg) + k.material;
    AlgIsModular(k.alg);
    hide AlgBytes, Encrypt, Decrypt;
    DecryptInvertsEncrypt(p, sKey, plaintext, time, nonce, None, 0);
    hide Base64Inverts, AeadInverts;
    assert CRED_PREFIX == [0x31, 0x33, 0x33, 0x37, 0x43, 0x30, 0x44, 0x33];
    var token := Encrypt(p, sKey, plaintext, time, nonce).value;
    assert (CRED_PREFIX + token)[8..] == token;
  }

  lemma AlgIsModular(alg: int)
    requires -0x8000 <= alg < 0x8000
    ensures AlgBytes(alg) == [alg % 0x1_0000 / 256, alg % 0x1_0000 % 256]
  {
  }

  /** A credential id decodes exactly if it starts with "1337C0D3", the rest of it decrypts,
      whatever its age, to 34 bytes, and these hold a supported algorithm that accepts the
      32 bytes of material after it. */
  lemma DecodesExactly(p: Primitives, sKey: seq<byte>, id: seq<byte>, k: KeyPair)
    ensures Decode(p, sKey, id) == Success(k) <==>
      && |id| >= 8 && id[..8] == [0x31, 0x33, 0x33, 0x37, 0x43, 0x30, 0x44, 0x33]
      && -0x8000 <= k.alg < 0x8000 && |k.material| == 32
      && Decrypt(p, sKey, id[8..], None, 0)
         == Success([k.alg % 0x1_0000 / 256, k.alg % 0x1_0000 % 256] + k.material)
      && k.alg in {-7, -35, -36, -8, -48, -49, -50} && p.derives(k.alg, k.material)
  {
    hide Decrypt, AlgBytes, AlgOf;
    assert CRED_PREFIX == [0x31, 0x33, 0x33, 0x37, 0x43, 0x30, 0x44, 0x33];
    if -0x8000 <= k.alg < 0x8000 {
      AlgRoundTrip(k.alg);
      AlgIsModular(k.alg);
      assert (AlgBytes(k.alg) + k.material)[..2] == AlgBytes(k.alg);
      assert (AlgBytes(k.alg) + k.material)[2..] == k.material;
    }
    if |id| >= 8 && Decrypt(p, sKey, id[8..], None, 0).Success? {
      var plaintext := Decrypt(p, sKey, id[8..], None, 0).value;
      if |plaintext| == 34 {
        BytesOfAlg(plaintext[..2]);
        assert plaintext == plaintext[..2] + plaintext[2..];
      }
    }
  }

  lemma BytesOfAlg(b: seq<byte>)
    requires |b| == 2
    ensures -0x8000 <= AlgOf(b) < 0x8000 && AlgBytes(AlgOf(b)) == b
  {
  }

  /** Both authenticators read every byte string alike. */
  lemma DecodersAgree(p: Primitives, sKey: seq<byte>, credId: seq<byte>)
    ensures U2fDecode(p, sKey, credId) == Decode(p, sKey, credId)
  {
    hide Decrypt;
    if CRED_PREFIX <= credId {
      assert credId[..|CRED_PREFIX|] == CRED_PREFIX;
      var plaintext := Decrypt(p, sKey, credId[|CRED_PREFIX|..], None, 0);
      if plaintext.Success? && |plaintext.value| == 34 {
        assert plaintext.value[0..2] == plaintext.value[..2] && plaintext.value[2..34] == plaintext.value[2..];
      }
    }
  }

  /** An id made over U2F is read back over CTAP2 exactly if the key was 32 bytes long. */
  lemma U2fIdOverCtap2(p: Primitives, sKey: seq<byte>, material: seq<byte>, time: nat, nonce: seq<byte>)
    requires Base64Inverts(p) && AeadInverts(p) && |nonce| == NONCE_LENGTH && time < Pow256(8)
    ensures U2fEncode(p, sKey, material, time, nonce).Success?
    ensures Decode(p, sKey, U2fEncode(p, sKey, material, time, nonce).value)
         == if |material| == MATERIAL && p.derives(ES256, material) then Success(KeyPair(ES256, material)) else Raised
  {
    AlgRoundTrip(ES256);
    var plaintext := AlgBytes(ES256) + material;
    assert plaintext[..2] == AlgBytes(ES256) && plaintext[2..] == material;
    DecodeOfToken(p, sKey, plaintext, time, nonce);
    hide Decode, Encrypt, AlgOf, AlgBytes;
  }

  /** The key pair can be recovered from an id that holds it. */
  predicate Recoverable(p: Primitives, k: KeyPair) {
    k.alg in SUPPORTED && p.derives(k.alg, k.material)
  }

  /** The CTAP2 authenticator: its key pair, and the credential id once there is one. */
  class Fido2Authenticator {
    var kp: KeyPair
    var cib: Option<seq<byte>>
    const p: Primitives
    const sKey: seq<byte>

    /** The id, once there is one, holds the key pair. */
    predicate Valid()
      reads this
    {
      cib.Some? ==> Decode(p, sKey, cib.value) == Success(kp)
    }

    /** `generated` is the pair generated when there is no credential id to recover one from.
        The precondition is recovery not raising. */
    constructor (p: Primitives, sKey: seq<byte>, credId: Option<seq<byte>>, generated: KeyPair)
      requires credId.Some? ==> Decode(p, sKey, credId.value).Success?
      ensures Valid() && this.p == p && this.sKey == sKey
      ensures cib == credId && (credId.None? ==> kp == generated)
    {
      this.p, this.sKey := p, sKey;
      cib := credId;
      kp := if credId.Some? then Decode(p, sKey, credId.value).value else generated;
    }

    /** Once there is an id, every call gives it, whatever the clock and nonce. Under the
        laws, the first call makes one exactly if the pair has the layout of one, and it
        decodes to the pair exactly if that is recoverable at all. */
    method GetCredentialIdBytes(time: nat, nonce: seq<byte>) returns (id: Result<seq<byte>>)
      requires Valid()
      modifies this
      ensures kp == old(kp) && (old(cib).Some? ==> id == Success(old(cib).value))
      ensures if id.Success? then cib == Some(id.value) else cib == None
      ensures Base64Inverts(p) && AeadInverts(p) && |nonce| == NONCE_LENGTH && time < Pow256(8) ==>
        && (id.Success? <==> old(cib).Some? || (-0x8000 <= kp.alg < 0x8000 && |kp.material| == MATERIAL))
        && (id.Success? ==> (Decode(p, sKey, id.value) == Success(kp) <==> old(cib).Some? || Recoverable(p, kp)))
        && (Recoverable(p, kp) ==> Valid())
    {
      if Base64Inverts(p) && AeadInverts(p) && |nonce| == NONCE_LENGTH && time < Pow256(8) {
        CredentialIdRoundTrip(p, sKey, kp, time, nonce);
      }
      hide Encode, Decode, Base64Inverts, AeadInverts;
      if cib.Some? { return Success(cib.value); }
      id := Encode(p, sKey, kp, time, nonce);
      if id.Success? { cib := Some(id.value); }
    }
  }
}
