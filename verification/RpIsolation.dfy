/** What a credential id opens under: its own RP's seed and, as far as the cipher rejects
    them, no other. */
module RpIsolation {
  import opened Bytes
  import opened Crypto
  import opened WalletHome
  import SymmetricKey
  import opened CredentialId
  import opened Ceremonies
  import opened CredentialSelection
  import opened RegisterThenAssert
  import S = SessionStore

  lemma TokenRejected(p: Primitives, k: seq<byte>, k': seq<byte>, data: seq<byte>, time: nat, nonce: seq<byte>)
    requires Base64Inverts(p) && AeadInverts(p) && Rejects(p, k, k') && |nonce| == SymmetricKey.NONCE_LENGTH
    requires SymmetricKey.Encrypt(p, k, data, time, nonce).Success?
    ensures SymmetricKey.Decrypt(p, k', SymmetricKey.Encrypt(p, k, data, time, nonce).value, None, 0).Raised?
  {
    var stamp := ToBE(time, 8);
    var tag, text := p.sealTag(k, nonce, stamp, data), p.sealText(k, nonce, stamp, data);
    var raw := [SymmetricKey.VERSION] + stamp + nonce + tag + text;
    assert raw[1..9] == stamp && raw[9..21] == nonce && raw[21..37] == tag && raw[37..] == text;
  }

  lemma IdRejected(p: Primitives, k: seq<byte>, k': seq<byte>, pair: KeyPair, time: nat, nonce: seq<byte>)
    requires Base64Inverts(p) && AeadInverts(p) && Rejects(p, k, k') && |nonce| == SymmetricKey.NONCE_LENGTH
    requires Encode(p, k, pair, time, nonce).Success?
    ensures Decode(p, k', Encode(p, k, pair, time, nonce).value).Raised?
  {
    hide SymmetricKey.Encrypt, SymmetricKey.Decrypt, ParsePlaintext, Reconstruct, Base64Inverts, AeadInverts, Rejects;
    var data := BuildPlaintext(pair.alg, pair.material).value;
    TokenRejected(p, k, k', data, time, nonce);
    var token := SymmetricKey.Encrypt(p, k, data, time, nonce).value;
    assert (CRED_PREFIX + token)[|CRED_PREFIX|..] == token;
  }

  /** For which RP, with which key, and with which values an id was made. */
  datatype Origin = Origin(rpId: seq<byte>, key: Key, f: Fresh)

  function SeedOf(e: Setup, o: Origin): seq<byte> { Seed(e, o.rpId, o.key) }

  /** Every entry is an id some attestation made. */
  predicate AllMade(e: Setup, list: seq<Allowed>, origins: seq<Origin>) {
    && |origins| == |list|
    && forall j | 0 <= j < |list| ::
      Usable(e.p, origins[j].f) && NewId(e, origins[j].rpId, origins[j].key, origins[j].f) == Success(list[j].id)
  }

  /** `seed` opens no id made under a different seed. */
  ghost predicate Separates(e: Setup, origins: seq<Origin>, seed: seq<byte>) {
    forall j | 0 <= j < |origins| :: SeedOf(e, origins[j]) == seed || Rejects(e.p, SeedOf(e, origins[j]), seed)
  }

  /** The first entry made under `seed`. */
  predicate FirstOwn(e: Setup, origins: seq<Origin>, seed: seq<byte>, k: nat) {
    && k < |origins| && SeedOf(e, origins[k]) == seed
    && forall j | 0 <= j < k :: SeedOf(e, origins[j]) != seed
  }

  predicate NoneOwn(e: Setup, origins: seq<Origin>, seed: seq<byte>) {
    forall j | 0 <= j < |origins| :: SeedOf(e, origins[j]) != seed
  }

  lemma RecoversExactlyOwn(e: Setup, o: Origin, a: Allowed, seed: seq<byte>)
    requires Laws(e.p) && Usable(e.p, o.f) && NewId(e, o.rpId, o.key, o.f) == Success(a.id)
    requires SeedOf(e, o) == seed || Rejects(e.p, SeedOf(e, o), seed)
    ensures Recovers(e.p, seed, a) <==> SeedOf(e, o) == seed
    ensures Recovers(e.p, seed, a) ==> Decode(e.p, seed, a.id) == Success(KeyPair(ES256, o.f.material))
  {
    hide Rejects, Encode, Decode;
    if SeedOf(e, o) == seed {
      NewIdRecovers(e, o.rpId, o.key, o.f);
      hide Laws;
    } else {
      IdRejected(e.p, SeedOf(e, o), seed, KeyPair(ES256, o.f.material), o.f.time, o.f.nonce);
      hide Laws;
    }
  }

  lemma OwnAreRecovered(e: Setup, list: seq<Allowed>, origins: seq<Origin>, seed: seq<byte>)
    requires Laws(e.p) && AllMade(e, list, origins) && Separates(e, origins, seed)
    ensures forall j | 0 <= j < |list| :: Recovers(e.p, seed, list[j]) <==> SeedOf(e, origins[j]) == seed
    ensures forall j | 0 <= j < |list| && Recovers(e.p, seed, list[j]) ::
      Decode(e.p, seed, list[j].id) == Success(KeyPair(ES256, origins[j].f.material))
  {
    hide Laws, Usable, NewId, Rejects, SeedOf, Recovers, Decode;
    forall j | 0 <= j < |list|
      ensures Recovers(e.p, seed, list[j]) <==> SeedOf(e, origins[j]) == seed
      ensures Recovers(e.p, seed, list[j]) ==>
        Decode(e.p, seed, list[j].id) == Success(KeyPair(ES256, origins[j].f.material))
    {
      RecoversExactlyOwn(e, origins[j], list[j], seed);
    }
  }

  /** Trying a list of made ids under a seed finds exactly the first one made under it. */
  lemma FirstOwnIsSelected(e: Setup, list: seq<Allowed>, origins: seq<Origin>, seed: seq<byte>, withUser: bool)
    requires Laws(e.p) && AllMade(e, list, origins) && Separates(e, origins, seed)
    ensures NoneOwn(e, origins, seed) <==> Selected(e.p, seed, list, withUser) == NoCredentials
    ensures forall k: nat | FirstOwn(e, origins, seed, k) ::
      Selected(e.p, seed, list, withUser)
        == Signed(list[k].id, KeyPair(ES256, origins[k].f.material), if withUser then list[k].user else None)
  {
    OwnAreRecovered(e, list, origins, seed);
    SelectedExactly(e.p, seed, list, withUser);
    hide Laws, Usable, NewId, Separates, SeedOf, Recovers, Decode, Selected;
    forall k: nat | FirstOwn(e, origins, seed, k)
      ensures Selected(e.p, seed, list, withUser)
           == Signed(list[k].id, KeyPair(ES256, origins[k].f.material), if withUser then list[k].user else None)
    {
      assert FirstMatch(e.p, seed, list, k);
      FirstMatchUnique(e.p, seed, list, k, withUser);
    }
  }

  // ---- In terms of RPs and keys ----

  /** Among the origins, only this RP with this key has its seed. */
  predicate SeedsDiffer(e: Setup, origins: seq<Origin>, rpId: seq<byte>, key: Key) {
    forall j | 0 <= j < |origins| && SeedOf(e, origins[j]) == Seed(e, rpId, key) ::
      origins[j].rpId == rpId && origins[j].key == key
  }

  predicate MadeFor(o: Origin, rpId: seq<byte>, key: Key) { o.rpId == rpId && o.key == key }

  /** Entry `k` is the first made for this RP with this key. */
  predicate FirstMadeFor(origins: seq<Origin>, rpId: seq<byte>, key: Key, k: nat) {
    && k < |origins| && MadeFor(origins[k], rpId, key)
    && forall j | 0 <= j < k :: !MadeFor(origins[j], rpId, key)
  }

  predicate NoneMadeFor(origins: seq<Origin>, rpId: seq<byte>, key: Key) {
    forall j | 0 <= j < |origins| :: !MadeFor(origins[j], rpId, key)
  }

  /** This RP's seed under this key is told apart from the others' by the key derivation
      and by the cipher. */
  ghost predicate ToldApart(e: Setup, origins: seq<Origin>, rpId: seq<byte>, key: Key) {
    SeedsDiffer(e, origins, rpId, key) && Separates(e, origins, Seed(e, rpId, key))
  }

  lemma OwnIsMadeFor(e: Setup, origins: seq<Origin>, rpId: seq<byte>, key: Key)
    requires SeedsDiffer(e, origins, rpId, key)
    ensures NoneOwn(e, origins, Seed(e, rpId, key)) <==> NoneMadeFor(origins, rpId, key)
    ensures forall k: nat :: FirstOwn(e, origins, Seed(e, rpId, key), k) <==> FirstMadeFor(origins, rpId, key, k)
  {
    forall j | 0 <= j < |origins|
      ensures SeedOf(e, origins[j]) == Seed(e, rpId, key) <==> MadeFor(origins[j], rpId, key)
    {
    }
    hide SeedOf, MadeFor;
  }

  lemma FirstMadeIsSelected(e: Setup, list: seq<Allowed>, origins: seq<Origin>, rpId: seq<byte>, key: Key,
                            withUser: bool)
    requires Laws(e.p) && AllMade(e, list, origins) && ToldApart(e, origins, rpId, key)
    ensures NoneMadeFor(origins, rpId, key) <==> Selected(e.p, Seed(e, rpId, key), list, withUser) == NoCredentials
    ensures forall k: nat | FirstMadeFor(origins, rpId, key, k) ::
      Selected(e.p, Seed(e, rpId, key), list, withUser)
        == Signed(list[k].id, KeyPair(ES256, origins[k].f.material), if withUser then list[k].user else None)
  {
    hide Laws, Usable, NewId, SeedsDiffer, Separates, FirstOwn, NoneOwn, NoneMadeFor, Selected;
    FirstOwnIsSelected(e, list, origins, Seed(e, rpId, key), withUser);
    OwnIsMadeFor(e, origins, rpId, key);
  }

  /** An assertion over ids that attestations made, on a channel with a wallet that loads,
      answers with the first one made for this RP with the wallet's key, else the first one
      made for it with the platform key, and with NO_CREDENTIALS exactly if there is
      neither; without a wallet, with the first one made for it with the platform key, and
      NO_CREDENTIALS exactly if there is none. Ids of other RPs never answer. */
  lemma OnlyOwnRpAnswers(e: Setup, home: Home, s: S.Store, c: Cid, rpId: seq<byte>, list: seq<Allowed>,
                         origins: seq<Origin>)
    requires Laws(e.p) && AllMade(e, Candidates(e, home, s, c, rpId, list), origins)
    requires ToldApart(e, origins, rpId, e.platform)
    requires c in s && s[c].unlocked.Some? ==>
      Loaded(e, home, s, c).Success? && ToldApart(e, origins, rpId, s[c].unlocked.value.kp)
    ensures
      var unlocked := c in s && s[c].unlocked.Some?;
      var all, answer := Candidates(e, home, s, c, rpId, list), Assert(e, home, s, c, rpId, list).1;
      var noneOfWallet := !unlocked || NoneMadeFor(origins, rpId, s[c].unlocked.value.kp);
      && (answer == NoCredentials <==> noneOfWallet && NoneMadeFor(origins, rpId, e.platform))
      && (unlocked ==> forall k: nat | FirstMadeFor(origins, rpId, s[c].unlocked.value.kp, k) ::
            answer == Signed(all[k].id, KeyPair(ES256, origins[k].f.material), all[k].user))
      && (noneOfWallet ==> forall k: nat | FirstMadeFor(origins, rpId, e.platform, k) ::
            answer == Signed(all[k].id, KeyPair(ES256, origins[k].f.material), None))
  {
    hide Laws, ToldApart, Selected, LoadFrom, Residents, FirstMadeFor, NoneMadeFor, Usable, NewId;
    var all := Candidates(e, home, s, c, rpId, list);
    FirstMadeIsSelected(e, all, origins, rpId, e.platform, false);
    assert forall k: nat, key | FirstMadeFor(origins, rpId, key, k) ::
      k < |all| && !NoneMadeFor(origins, rpId, key) by {
      FirstBounds(origins, rpId);
    }
    if c in s && s[c].unlocked.Some? {
      FirstMadeIsSelected(e, all, origins, rpId, s[c].unlocked.value.kp, true);
    }
  }

  lemma FirstBounds(origins: seq<Origin>, rpId: seq<byte>)
    ensures forall k: nat, key | FirstMadeFor(origins, rpId, key, k) ::
      k < |origins| && !NoneMadeFor(origins, rpId, key)
  {
    hide MadeFor;
  }
}
