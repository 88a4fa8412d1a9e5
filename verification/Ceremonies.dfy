/** Making a credential and signing with one (soft_fido2/ctap/api.py, `attestation_out`
    and `assertion_out`), behind the gates of CommandGates. */
module Ceremonies {
  import opened Bytes
  import opened Crypto
  import opened PasskeyFile
  import opened WalletHome
  import opened CredentialId
  import opened PasskeyDevice
  import SymmetricKey
  import S = SessionStore

  /** What one installation fixes: the primitives, its platform key, its info string. */
  datatype Setup = Setup(p: Primitives, platform: Key, info: seq<byte>)

  function Seed(e: Setup, rpId: seq<byte>, key: Key): seq<byte> { e.p.seed(rpId, key, e.info) }

  // ---- Making a credential ----

  /** The values one attestation draws: the new private key, the time, the nonces. */
  datatype Fresh = Fresh(material: seq<byte>, time: nat, nonce: seq<byte>, d: Draw)

  datatype AttestationAnswer = Created(id: seq<byte>) | Excluded | AttestationThrew

  /** The sessions as `_resolve_passkey` finds them: when it asks for the user's state, and
      when it then takes the entry, which may be gone or another by that time. */
  datatype Looks = Looks(state: S.Store, entry: S.Store)

  /** What a channel registers with; the entry being gone is an exception. */
  datatype Passkey = Wallet(u: S.Unlock) | Platform | Gone

  function ResolvePasskey(s: Looks, c: Cid): Passkey {
    if !(c in s.state && s.state[c].upv == Some(S.Verified)) then Platform
    else if c !in s.entry then Gone
    else if s.entry[c].unlocked.Some? then Passkey.Wallet(s.entry[c].unlocked.value)
    else Platform
  }

  function NewId(e: Setup, rpId: seq<byte>, key: Key, f: Fresh): Result<seq<byte>> {
    Encode(e.p, Seed(e, rpId, key), KeyPair(ES256, f.material), f.time, f.nonce)
  }

  function Attest(e: Setup, home: Home, s: Looks, c: Cid, rpId: seq<byte>, userId: seq<byte>, rk: bool, f: Fresh)
    : (Home, AttestationAnswer)
  {
    match ResolvePasskey(s, c)
    case Gone => (home, AttestationThrew)
    case Platform =>
      (match NewId(e, rpId, e.platform, f)
       case Raised => (home, AttestationThrew)
       case Success(id) => (home, Created(id)))
    case Wallet(u) =>
      match LoadFrom(e.p, e.platform, home, u.file, u.ph)
      case Raised => (home, AttestationThrew)
      case Success(w) =>
        if Existing(w.creds, rpId, userId) then (home, Excluded)
        else match NewId(e, rpId, u.kp, f)
          case Raised => (home, AttestationThrew)
          case Success(id) =>
            if !rk then (home, Created(id))
            else match UpdatePasskey(e.p, e.platform, home, u.file, u.ph, Cred(rpId, userId, id), f.d)
              case Raised => (home, AttestationThrew)
              case Success(home') => (home', Created(id))
  }

  // ---- Signing with one ----

  datatype Allowed = Allowed(id: seq<byte>, user: Option<seq<byte>>)

  datatype AssertionAnswer =
    | Signed(id: seq<byte>, key: KeyPair, user: Option<seq<byte>>)
    | NoCredentials
    | AssertionThrew

  function Residents(creds: seq<Cred>, rpId: seq<byte>): seq<Allowed> {
    if creds == [] then []
    else
      var c := creds[|creds| - 1];
      Residents(creds[..|creds| - 1], rpId) + (if c.rpId == rpId then [Allowed(c.credId, Some(c.userId))] else [])
  }

  /** The first entry whose key pair `seed` recovers. */
  function Selected(p: Primitives, seed: seq<byte>, list: seq<Allowed>, withUser: bool): AssertionAnswer {
    if list == [] then NoCredentials
    else match Decode(p, seed, list[0].id)
      case Success(k) => Signed(list[0].id, k, if withUser then list[0].user else None)
      case Raised => Selected(p, seed, list[1..], withUser)
  }

  /** The answer, and the allow list as the call leaves it. */
  function Assert(e: Setup, home: Home, s: S.Store, c: Cid, rpId: seq<byte>, list: seq<Allowed>)
    : (seq<Allowed>, AssertionAnswer)
  {
    if c in s && s[c].unlocked.Some? then
      var u := s[c].unlocked.value;
      match LoadFrom(e.p, e.platform, home, u.file, u.ph)
      case Raised => (list, AssertionThrew)
      case Success(w) =>
        var all := list + Residents(w.creds, rpId);
        var signed := Selected(e.p, Seed(e, rpId, u.kp), all, true);
        (all, if signed.NoCredentials? then Selected(e.p, Seed(e, rpId, e.platform), all, false) else signed)
    else (list, Selected(e.p, Seed(e, rpId, e.platform), list, false))
  }

  class AllowList {
    var entries: seq<Allowed>

    constructor (entries: seq<Allowed>)
      ensures this.entries == entries
    {
      this.entries := entries;
    }
  }

  class Authenticator {
    const fido: FidoHome
    const info: seq<byte>
    var openKeys: S.Store

    constructor (fido: FidoHome, info: seq<byte>, openKeys: S.Store)
      ensures this.fido == fido && this.info == info && this.openKeys == openKeys
    {
      this.fido, this.info, this.openKeys := fido, info, openKeys;
    }

    function Env(): Setup { Setup(fido.p, fido.platform, info) }

    /** `later`: the sessions when the entry is taken, after the user's state was read. */
    method AttestationOut(rpId: seq<byte>, userId: seq<byte>, rk: bool, cid: Cid, later: S.Store, f: Fresh)
      returns (a: AttestationAnswer)
      modifies fido
      ensures (fido.View(), a) == Attest(Env(), old(fido.View()), Looks(openKeys, later), cid, rpId, userId, rk, f)
    {
      hide Encode, LoadFrom, SaveTo;
      var wallet: Option<S.Unlock> := None;
      if cid in openKeys && openKeys[cid].upv == Some(S.Verified) {
        if cid !in later { return AttestationThrew; }
        wallet := later[cid].unlocked;
      }
      var key := fido.platform;
      if wallet.Some? {
        key := wallet.value.kp;
        var w := fido.LoadPasskey(wallet.value.ph, wallet.value.file);
        if w.Raised? { return AttestationThrew; }
        var i := 0;
        while i < |w.value.creds|
          invariant 0 <= i <= |w.value.creds|
          invariant forall j | 0 <= j < i :: !(w.value.creds[j].rpId == rpId && w.value.creds[j].userId == userId)
        {
          if w.value.creds[i].rpId == rpId && w.value.creds[i].userId == userId { return Excluded; }
          i := i + 1;
        }
      }
      var id := Encode(fido.p, fido.p.seed(rpId, key, info), KeyPair(ES256, f.material), f.time, f.nonce);
      if id.Raised? { return AttestationThrew; }
      if wallet.Some? && rk {
        var ok := fido.AppendCredential(Cred(rpId, userId, id.value), wallet.value.ph, wallet.value.file, f.d);
        if !ok { return AttestationThrew; }
      }
      a := Created(id.value);
    }

    /** The attempts with an unlocked wallet's key. */
    method FirstAssertion(rpId: seq<byte>, key: Key, list: seq<Allowed>) returns (a: AssertionAnswer)
      ensures a == Selected(fido.p, Seed(Env(), rpId, key), list, true)
    {
      hide Decode;
      var seed := fido.p.seed(rpId, key, info);
      for i := 0 to |list|
        invariant Selected(fido.p, seed, list, true) == Selected(fido.p, seed, list[i..], true)
      {
        assert list[i..][1..] == list[i + 1..];
        var k := Decode(fido.p, seed, list[i].id);
        if k.Success? { return Signed(list[i].id, k.value, list[i].user); }
      }
      a := NoCredentials;
    }

    /** Entries without the credential-id prefix are passed over unread. */
    method MaybePlatformAssertion(rpId: seq<byte>, list: seq<Allowed>) returns (a: AssertionAnswer)
      ensures a == Selected(fido.p, Seed(Env(), rpId, fido.platform), list, false)
    {
      hide SymmetricKey.Decrypt, ParsePlaintext, Reconstruct;
      var seed := fido.p.seed(rpId, fido.platform, info);
      for i := 0 to |list|
        invariant Selected(fido.p, seed, list, false) == Selected(fido.p, seed, list[i..], false)
      {
        assert list[i..][1..] == list[i + 1..];
        if !(CRED_PREFIX <= list[i].id) { continue; }
        var k := Decode(fido.p, seed, list[i].id);
        if k.Success? { return Signed(list[i].id, k.value, None); }
      }
      a := NoCredentials;
    }

    /** The wallet's resident credentials are appended to the caller's list. */
    method AssertionOut(rpId: seq<byte>, allowed: AllowList, cid: Cid) returns (a: AssertionAnswer)
      modifies allowed
      ensures (allowed.entries, a) == Assert(Env(), fido.View(), openKeys, cid, rpId, old(allowed.entries))
    {
      hide LoadFrom, Selected;
      if cid in openKeys && openKeys[cid].unlocked.Some? {
        var u := openKeys[cid].unlocked.value;
        var w := fido.LoadPasskey(u.ph, u.file);
        if w.Raised? { return AssertionThrew; }
        var creds := w.value.creds;
        for i := 0 to |creds|
          modifies allowed
          invariant allowed.entries == old(allowed.entries) + Residents(creds[..i], rpId)
        {
          assert creds[..i + 1][..i] == creds[..i];
          if creds[i].rpId == rpId {
            allowed.entries := allowed.entries + [Allowed(creds[i].credId, Some(creds[i].userId))];
          }
        }
        assert creds[..|creds|] == creds;
        a := FirstAssertion(rpId, u.kp, allowed.entries);
        if !a.NoCredentials? { return; }
      }
      a := MaybePlatformAssertion(rpId, allowed.entries);
    }
  }
}
