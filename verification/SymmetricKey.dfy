/** The token format of SymmetricKey (soft_fido2/symmetric_key.py):
    version, 8-byte timestamp, 12-byte nonce, 16-byte tag, ciphertext, in base64. */
module SymmetricKey {
  import opened Bytes
  import opened Crypto

  const VERSION: byte := 0x81
  const MIN_TOKEN_SIZE: nat := 38
  const NONCE_LENGTH: nat := 12

  /** Raises when the clock does not fit 64 bits. */
  function Encrypt(p: Primitives, key: seq<byte>, data: seq<byte>, time: nat, nonce: seq<byte>): Result<seq<byte>> {
    if time >= Pow256(8) then Raised
    else
      var stamp := ToBE(time, 8);
      Success(p.b64enc([VERSION] + stamp + nonce + p.sealTag(key, nonce, stamp, data)
        + p.sealText(key, nonce, stamp, data)))
  }

  function Decrypt(p: Primitives, key: seq<byte>, token: seq<byte>, ttl: Option<int>, now: int): Result<seq<byte>> {
    match p.b64dec(token)
    case None => Raised
    case Some(raw) =>
      if |raw| < MIN_TOKEN_SIZE || raw[0] != VERSION then Raised
      else
        var stamp, nonce, tag, text := raw[1..9], raw[9..21], raw[21..37], raw[37..];
        if ttl.Some? && now - FromBE(stamp) > ttl.value then Raised
        else match p.open(key, nonce, stamp, tag, text)
          case None => Raised
          case Some(data) => Success(data)
  }

  /** What a token holds, byte by byte: the version 0x81, eight big-endian bytes of time, the
      nonce, the tag and the text, sealed with the time as associated data. */
  lemma TokenBytes(p: Primitives, key: seq<byte>, data: seq<byte>, time: nat, nonce: seq<byte>)
    requires Base64Inverts(p) && AeadInverts(p) && |nonce| == 12 && time < Pow256(8)
    ensures
      var token := Encrypt(p, key, data, time, nonce);
      && token.Success? && p.b64dec(token.value).Some?
      && var raw := p.b64dec(token.value).value;
         && |raw| == 37 + |data| && raw[0] == 0x81 && raw[9..21] == nonce
         && (forall i | 1 <= i < 9 :: raw[i] == time / Pow256(8 - i) % 256)
         && raw[21..37] == p.sealTag(key, nonce, raw[1..9], data)
         && raw[37..] == p.sealText(key, nonce, raw[1..9], data)
  {
    hide Pow256, ToBE;
    var stamp := ToBE(time, 8);
    var raw := [VERSION] + stamp + nonce + p.sealTag(key, nonce, stamp, data) + p.sealText(key, nonce, stamp, data);
    assert raw[1..9] == stamp && raw[9..21] == nonce;
    forall i | 1 <= i < 9
      ensures raw[i] == time / Pow256(8 - i) % 256
    {
      BEDigit(time, 8, i - 1);
    }
  }

  /** What a token needs: 38 bytes at least, the version byte 0x81, a time not longer ago
      than the limit, if there is one, and a cipher that accepts it. */
  lemma DecryptsExactly(p: Primitives, key: seq<byte>, token: seq<byte>, ttl: Option<int>, now: int, data: seq<byte>)
    ensures Decrypt(p, key, token, ttl, now) == Success(data) <==>
      && p.b64dec(token).Some?
      && var raw := p.b64dec(token).value;
         && |raw| >= 38 && raw[0] == 0x81 && (ttl.Some? ==> now - FromBE(raw[1..9]) <= ttl.value)
         && p.open(key, raw[9..21], raw[1..9], raw[21..37], raw[37..]) == Some(data)
  {
    hide FromBE;
  }

  /** Decryption gives back the data exactly if there is any and the token is not older
      than the limit: the shortest token accepted holds one byte. */
  lemma DecryptInvertsEncrypt(p: Primitives, key: seq<byte>, data: seq<byte>, time: nat, nonce: seq<byte>,
                              ttl: Option<int>, now: int)
    requires Base64Inverts(p) && AeadInverts(p) && |nonce| == NONCE_LENGTH && time < Pow256(8)
    ensures Encrypt(p, key, data, time, nonce).Success?
    ensures
      var r := Decrypt(p, key, Encrypt(p, key, data, time, nonce).value, ttl, now);
      r == if data != [] && (ttl.Some? ==> now - time <= ttl.value) then Success(data) else Raised
  {
    var stamp := ToBE(time, 8);
    FromToBE(time, 8);
    var tag, text := p.sealTag(key, nonce, stamp, data), p.sealText(key, nonce, stamp, data);
    var raw := [VERSION] + stamp + nonce + tag + text;
    assert raw[1..9] == stamp && raw[9..21] == nonce && raw[21..37] == tag && raw[37..] == text;
  }
}
