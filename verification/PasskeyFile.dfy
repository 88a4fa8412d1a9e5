/** The wallet on disk (soft_fido2/key_pair.py): a `.passkey` file with the key, its
    certificate and the resident credentials, and a `.stash` file with half of the PIN
    hash. Both must agree with one record. */
module PasskeyFile {
  import opened Bytes
  import opened Crypto

  const STASH_LENGTH: nat := 230
  const HALF_HASH: nat := 16
  const IV_LENGTH: nat := 16

  type Iv = s: seq<byte> | |s| == IV_LENGTH witness seq(IV_LENGTH, i => 0)

  /** What a wallet is, whatever bytes its files hold. */
  datatype Wallet = Wallet(key: Key, x5c: Cert, creds: seq<Cred>, pinHash: seq<byte>)

  /** The random values one save draws: two anonymous keys, two IVs, and a salt. */
  datatype Draw = Draw(anon0: Key, iv0: Iv, anon1: Key, iv1: Iv, salt: seq<byte>)

  // ---- Encryption to an EC key ----

  /** Python's `s[lo:hi]`, which stops at the end of `s`. */
  function Slice(s: seq<byte>, lo: nat, hi: nat): seq<byte>
    requires lo <= hi
  {
    s[Min(lo, |s|)..Min(hi, |s|)]
  }

  function EcEncrypt(p: Primitives, plaintext: seq<byte>, key: Key, anon: Key, iv: Iv): Result<seq<byte>> {
    var shared := p.exchange(anon, p.publicPem(key));
    var pem := p.publicPem(anon);
    if |pem| >= Pow256(4) then Raised
    else Success(ToBE(|pem|, 4) + pem + iv + p.sealTag(shared, iv, [], plaintext)
      + p.sealText(shared, iv, [], plaintext))
  }

  function EcDecrypt(p: Primitives, encrypted: seq<byte>, key: Key): Result<seq<byte>> {
    var n := FromBE(Slice(encrypted, 0, 4));
    var pem := Slice(encrypted, 4, 4 + n);
    if !p.loadable(pem) then Raised
    else
      var rest := Slice(encrypted, 4 + n, 4 + n + |encrypted|);
      match p.open(p.exchange(key, pem), Slice(rest, 0, 16), [], Slice(rest, 16, 32), Slice(rest, 32, 32 + |rest|))
      case None => Raised
      case Some(plaintext) => Success(plaintext)
  }

  lemma EcDecryptInverts(p: Primitives, plaintext: seq<byte>, key: Key, anon: Key, iv: Iv)
    requires AeadInverts(p) && KeysAgree(p)
    ensures
      var e := EcEncrypt(p, plaintext, key, anon, iv);
      e.Success? && |e.value| == 4 + PEM_LENGTH + IV_LENGTH + TAG_LENGTH + |plaintext|
      && EcDecrypt(p, e.value, key) == Success(plaintext)
  {
    var shared := p.exchange(anon, p.publicPem(key));
    var pem := p.publicPem(anon);
    assert Pow256(4) == 0x1_0000_0000 by {
      assert Pow256(1) == 256 && Pow256(2) == 0x10000 && Pow256(3) == 0x100_0000;
    }
    FromToBE(|pem|, 4);
    var tag, text := p.sealTag(shared, iv, [], plaintext), p.sealText(shared, iv, [], plaintext);
    var e := EcEncrypt(p, plaintext, key, anon, iv).value;
    assert e == ToBE(|pem|, 4) + pem + iv + tag + text;
    assert Slice(e, 0, 4) == ToBE(|pem|, 4);
    assert Slice(e, 4, 4 + |pem|) == pem;
    var rest := Slice(e, 4 + |pem|, 4 + |pem| + |e|);
    assert rest == iv + tag + text;
    assert Slice(rest, 0, 16) == iv && Slice(rest, 16, 32) == tag && Slice(rest, 32, 32 + |rest|) == text;
    assert p.exchange(key, pem) == shared;
  }

  // ---- Saving and loading ----

  /** `_save_passkey`: the contents of the `.passkey` and `.stash` files. It raises, before
      writing either, for a PIN hash that is not 32 bytes and for a PKCS12 file whose
      length does not fit four bytes. */
  function Save(p: Primitives, platform: Key, w: Wallet, d: Draw): Result<(seq<byte>, seq<byte>)> {
    if |w.pinHash| != HASH_LENGTH then Raised
    else
      var file := p.pkcs12(w.key, w.x5c, p.b64enc(w.pinHash), d.salt);
      var header := EcEncrypt(p, w.pinHash[HALF_HASH..], platform, d.anon0, d.iv0);
      var creds := EcEncrypt(p, p.dumps(w.creds), w.key, d.anon1, d.iv1);
      if header.Raised? || |file| >= Pow256(4) || creds.Raised? then Raised
      else Success((ToLE(|file|, 4) + file + creds.value, header.value))
  }

  /** What the files hold, byte by byte. The stash: the PEM's length 178 in four big-endian
      bytes, the PEM of the anonymous key, the IV, the tag, and the sealed second half of
      the PIN hash. The `.passkey` file: the length of the PKCS12 file in four little-endian
      bytes, that file, and the credentials sealed in the same way to the wallet's key. */
  lemma SavedBytes(p: Primitives, platform: Key, w: Wallet, d: Draw)
    requires Laws(p) && Save(p, platform, w, d).Success?
    ensures
      var (body, stash) := Save(p, platform, w, d).value;
      var file := p.pkcs12(w.key, w.x5c, p.b64enc(w.pinHash), d.salt);
      && |w.pinHash| == 32 && |file| < 0x1_0000_0000 && |body| >= 4 + |file|
      && body[..4] == [|file| % 256, |file| / 0x100 % 256, |file| / 0x1_0000 % 256, |file| / 0x100_0000]
      && body[4..4 + |file|] == file
      && Sealed(p, body[4 + |file|..], p.dumps(w.creds), w.key, d.anon1, d.iv1)
      && Sealed(p, stash, w.pinHash[16..], platform, d.anon0, d.iv0)
  {
    var file := p.pkcs12(w.key, w.x5c, p.b64enc(w.pinHash), d.salt);
    EncryptedBytes(p, w.pinHash[16..], platform, d.anon0, d.iv0);
    EncryptedBytes(p, p.dumps(w.creds), w.key, d.anon1, d.iv1);
    hide EcEncrypt, Sealed, Laws;
    FourBytes();
    LengthBytes(|file|);
    var creds := EcEncrypt(p, p.dumps(w.creds), w.key, d.anon1, d.iv1).value;
    hide Pow256, ToLE;
    var front := ToLE(|file|, 4);
    var body := front + file + creds;
    assert body[..4] == front && body[4..4 + |file|] == file && body[4 + |file|..] == creds;
  }

  lemma FourBytes()
    ensures Pow256(0) == 1 && Pow256(1) == 0x100 && Pow256(2) == 0x1_0000 && Pow256(3) == 0x100_0000
    ensures Pow256(4) == 0x1_0000_0000
  {
  }

  lemma LengthBytes(n: nat)
    requires n < 0x1_0000_0000
    ensures n < Pow256(4)
    ensures ToLE(n, 4) == [n % 256, n / 0x100 % 256, n / 0x1_0000 % 256, n / 0x100_0000]
    ensures ToBE(n, 4) == [n / 0x100_0000, n / 0x1_0000 % 256, n / 0x100 % 256, n % 256]
  {
    FourBytes();
    hide Pow256, ToLE, ToBE;
    forall i | 0 <= i < 4
      ensures ToLE(n, 4)[i] == n / Pow256(i) % 256
      ensures ToBE(n, 4)[i] == n / Pow256(3 - i) % 256
    {
      LEDigit(n, 4, i);
      BEDigit(n, 4, i);
    }
  }

  predicate Sealed(p: Primitives, e: seq<byte>, plaintext: seq<byte>, key: Key, anon: Key, iv: Iv) {
    var shared := p.exchange(anon, p.publicPem(key));
    && |e| == 214 + |plaintext| && e[..4] == [0, 0, 0, 178] && e[4..182] == p.publicPem(anon)
    && e[182..198] == iv && e[198..214] == p.sealTag(shared, iv, [], plaintext)
    && e[214..] == p.sealText(shared, iv, [], plaintext)
  }

  lemma EncryptedBytes(p: Primitives, plaintext: seq<byte>, key: Key, anon: Key, iv: Iv)
    requires Laws(p)
    ensures
      var e := EcEncrypt(p, plaintext, key, anon, iv);
      e.Success? && Sealed(p, e.value, plaintext, key, anon, iv)
  {
    var shared, pem := p.exchange(anon, p.publicPem(key)), p.publicPem(anon);
    assert |pem| == 178;
    FourBytes();
    LengthBytes(178);
    hide ToBE, Pow256;
    var tag, text := p.sealTag(shared, iv, [], plaintext), p.sealText(shared, iv, [], plaintext);
    assert |tag| == 16 && |text| == |plaintext|;
    hide Laws, AeadInverts, KeysAgree;
    SealedParts(ToBE(178, 4), pem, iv, tag, text);
  }

  lemma SealedParts(n: seq<byte>, pem: seq<byte>, iv: seq<byte>, tag: seq<byte>, text: seq<byte>)
    requires |n| == 4 && |pem| == 178 && |iv| == 16 && |tag| == 16
    ensures
      var e := n + pem + iv + tag + text;
      e[..4] == n && e[4..182] == pem && e[182..198] == iv && e[198..214] == tag && e[214..] == text
  {
  }

  function Pkcs12Length(body: seq<byte>): nat { FromLE(Slice(body, 0, 4)) }

  /** The key and certificate in the PKCS12 file, if `secret` opens it. */
  function OpenPkcs12(p: Primitives, body: seq<byte>, secret: seq<byte>): Option<(Key, Cert)> {
    p.unpkcs12(Slice(body, 4, 4 + Pkcs12Length(body)), secret)
  }

  /** The credentials behind the PKCS12 file of length `n`. */
  function LoadCreds(p: Primitives, body: seq<byte>, n: nat, key: Key): Result<seq<Cred>> {
    if |body| <= n + 4 then Raised
    else
      match EcDecrypt(p, Slice(body, 4 + n, 4 + n + |body|), key)
      case Raised => Raised
      case Success(cbor) =>
        match p.loads(cbor)
        case None => Raised
        case Some(creds) => Success(creds)
  }

  /** The hash to open the wallet with: half a hash is completed from the stash. */
  function FullHash(p: Primitives, platform: Key, stash: seq<byte>, ph: seq<byte>): Result<seq<byte>> {
    if |ph| != HALF_HASH then Success(ph)
    else
      match EcDecrypt(p, stash, platform)
      case Raised => Raised
      case Success(upper) => Success(ph + upper)
  }

  /** `_load_passkey`, given the contents of the two files. */
  function Load(p: Primitives, platform: Key, body: seq<byte>, stash: seq<byte>, ph: seq<byte>): Result<Wallet> {
    if |stash| != STASH_LENGTH then Raised
    else
      match FullHash(p, platform, stash, ph)
      case Raised => Raised
      case Success(full) =>
        match OpenPkcs12(p, body, p.b64enc(full))
        case None => Raised
        case Some((key, x5c)) =>
          match LoadCreds(p, body, Pkcs12Length(body), key)
          case Raised => Raised
          case Success(creds) => Success(Wallet(key, x5c, creds, full))
  }

  /** What loading refuses, whatever the PIN hash: a `.stash` file that is not 230 bytes
      long, and a `.passkey` file with nothing behind its PKCS12 file. */
  lemma LoadRefuses(p: Primitives, platform: Key, body: seq<byte>, stash: seq<byte>, ph: seq<byte>)
    ensures |stash| != 230 ==> Load(p, platform, body, stash, ph).Raised?
    ensures |body| < 4 || |body| <= 4 + FromLE(body[..4]) ==> Load(p, platform, body, stash, ph).Raised?
  {
    hide FromLE, OpenPkcs12, FullHash, EcDecrypt;
    if |body| >= 4 {
      assert Slice(body, 0, 4) == body[..4];
    }
  }

  // ---- What the files mean ----

  /** `body` is a `.passkey` file some save of `w` produces. */
  ghost predicate BodyOf(p: Primitives, platform: Key, body: seq<byte>, w: Wallet) {
    exists d :: Save(p, platform, w, d).Success? && Save(p, platform, w, d).value.0 == body
  }

  /** `stash` is a `.stash` file some save of `w` produces. */
  ghost predicate StashOf(p: Primitives, platform: Key, stash: seq<byte>, w: Wallet) {
    exists d :: Save(p, platform, w, d).Success? && Save(p, platform, w, d).value.1 == stash
  }

  lemma StashHoldsUpperHalf(p: Primitives, platform: Key, stash: seq<byte>, w: Wallet)
    requires Laws(p) && StashOf(p, platform, stash, w)
    ensures |w.pinHash| == HASH_LENGTH && |stash| == STASH_LENGTH
    ensures EcDecrypt(p, stash, platform) == Success(w.pinHash[HALF_HASH..])
  {
    var d :| Save(p, platform, w, d).Success? && Save(p, platform, w, d).value.1 == stash;
    EcDecryptInverts(p, w.pinHash[HALF_HASH..], platform, d.anon0, d.iv0);
    hide EcDecrypt, EcEncrypt;
  }

  lemma BodyLayout(p: Primitives, platform: Key, body: seq<byte>, w: Wallet)
    requires Laws(p) && BodyOf(p, platform, body, w)
    ensures |w.pinHash| == HASH_LENGTH
    ensures forall s :: OpenPkcs12(p, body, s) == if s == p.b64enc(w.pinHash) then Some((w.key, w.x5c)) else None
    ensures LoadCreds(p, body, Pkcs12Length(body), w.key) == Success(w.creds)
  {
    var d :| Save(p, platform, w, d).Success? && Save(p, platform, w, d).value.0 == body;
    var file := p.pkcs12(w.key, w.x5c, p.b64enc(w.pinHash), d.salt);
    EcDecryptInverts(p, p.dumps(w.creds), w.key, d.anon1, d.iv1);
    hide EcDecrypt, EcEncrypt;
    var creds := EcEncrypt(p, p.dumps(w.creds), w.key, d.anon1, d.iv1).value;
    BodySlices(body, file, creds);
    hide Slice, Pkcs12Length, Save;
  }

  lemma BodySlices(body: seq<byte>, file: seq<byte>, creds: seq<byte>)
    requires |file| < Pow256(4) && body == ToLE(|file|, 4) + file + creds
    ensures Pkcs12Length(body) == |file|
    ensures Slice(body, 4, 4 + |file|) == file
    ensures Slice(body, 4 + |file|, 4 + |file| + |body|) == creds
  {
    FromToLE(|file|, 4);
    SliceParts(ToLE(|file|, 4), file, creds, 4 + |file| + |body|);
    hide Slice, ToLE, FromLE, Pow256;
  }

  lemma SliceParts(a: seq<byte>, b: seq<byte>, c: seq<byte>, end: nat)
    requires end >= |a| + |b| + |c|
    ensures Slice(a + b + c, 0, |a|) == a
    ensures Slice(a + b + c, |a|, |a| + |b|) == b
    ensures Slice(a + b + c, |a| + |b|, end) == c
  {
  }

  lemma Base64Injective(p: Primitives, x: seq<byte>, y: seq<byte>)
    requires Base64Inverts(p)
    ensures p.b64enc(x) == p.b64enc(y) <==> x == y
  {
    assert p.b64dec(p.b64enc(x)) == Some(x) && p.b64dec(p.b64enc(y)) == Some(y);
  }

  /** Loading a `.passkey` file saved for one record beside a `.stash` file saved for
      another: the full hash of the first always opens it; half a hash does exactly if
      completing it from the stash gives that hash; nothing else does. Whatever opens it
      gives exactly the first record. With both files from one save, that is the current
      hash or its first half. */
  lemma LoadExactly(p: Primitives, platform: Key, body: seq<byte>, stash: seq<byte>, w: Wallet, other: Wallet,
                    ph: seq<byte>)
    requires Laws(p) && BodyOf(p, platform, body, w) && StashOf(p, platform, stash, other)
    ensures |other.pinHash| == |w.pinHash| == HASH_LENGTH
    ensures Load(p, platform, body, stash, ph) ==
      if (if |ph| == HALF_HASH then ph + other.pinHash[HALF_HASH..] else ph) == w.pinHash then Success(w) else Raised
  {
    StashHoldsUpperHalf(p, platform, stash, other);
    BodyLayout(p, platform, body, w);
    var full := if |ph| == HALF_HASH then ph + other.pinHash[HALF_HASH..] else ph;
    Base64Injective(p, full, w.pinHash);
    hide EcDecrypt, LoadCreds, StashOf, BodyOf, OpenPkcs12, Pkcs12Length, Laws;
  }

  /** A save interrupted after the first of its two writes, changing the PIN: the new PIN
      still opens the wallet through its full hash, but through half of it (the PIN
      protocol's form) only if both PINs' hashes have the same second half, and the old
      PIN no longer opens it. */
  lemma InterruptedPinChange(p: Primitives, platform: Key, body: seq<byte>, stash: seq<byte>, w: Wallet,
                             newHash: seq<byte>)
    requires Laws(p) && newHash != w.pinHash
    requires BodyOf(p, platform, body, w.(pinHash := newHash)) && StashOf(p, platform, stash, w)
    ensures |newHash| == |w.pinHash| == HASH_LENGTH
    ensures Load(p, platform, body, stash, newHash) == Success(w.(pinHash := newHash))
    ensures Load(p, platform, body, stash, newHash[..HALF_HASH]).Success? <==>
      newHash[HALF_HASH..] == w.pinHash[HALF_HASH..]
    ensures Load(p, platform, body, stash, w.pinHash) == Raised
  {
    var w' := w.(pinHash := newHash);
    LoadExactly(p, platform, body, stash, w', w, newHash);
    LoadExactly(p, platform, body, stash, w', w, newHash[..HALF_HASH]);
    LoadExactly(p, platform, body, stash, w', w, w.pinHash);
    var mixed := newHash[..HALF_HASH] + w.pinHash[HALF_HASH..];
    assert mixed[HALF_HASH..] == w.pinHash[HALF_HASH..] && mixed[..HALF_HASH] == newHash[..HALF_HASH];
    assert newHash == newHash[..HALF_HASH] + newHash[HALF_HASH..];
    hide Load;
  }
}
