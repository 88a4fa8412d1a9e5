/** What one channel registers, any channel with the same wallet unlocked can sign with,
    over every run of wallet operations in between. */
module RegisterThenAssert {
  import opened Bytes
  import opened Crypto
  import opened PasskeyFile
  import opened IndexDeletion
  import opened WalletHome
  import opened WalletRuns
  import SymmetricKey
  import opened CredentialId
  import PasskeyDevice
  import opened Ceremonies
  import opened CredentialSelection
  import S = SessionStore

  type Cid = PasskeyDevice.Cid

  /** The new key pair's algorithm accepts its material, the nonce has its length, and the
      clock fits 64 bits. */
  predicate Usable(p: Primitives, f: Fresh) {
    && p.derives(ES256, f.material) && |f.material| == MATERIAL
    && |f.nonce| == SymmetricKey.NONCE_LENGTH && f.time < Pow256(8)
  }

  lemma NewIdRecovers(e: Setup, rpId: seq<byte>, key: Key, f: Fresh)
    requires Laws(e.p) && Usable(e.p, f)
    ensures NewId(e, rpId, key, f).Success?
    ensures Decode(e.p, Seed(e, rpId, key), NewId(e, rpId, key, f).value) == Success(KeyPair(ES256, f.material))
  {
    CredentialIdRoundTrip(e.p, Seed(e, rpId, key), KeyPair(ES256, f.material), f.time, f.nonce);
    hide Encode, Decode, Laws;
  }

  /** An id made under a key is never passed over by an assertion that uses that key: the
      answer is that id's key pair, or an earlier candidate's. */
  lemma OwnIdIsFound(e: Setup, seed: seq<byte>, list: seq<Allowed>, k: nat, withUser: bool, key: KeyPair)
    requires k < |list| && Decode(e.p, seed, list[k].id) == Success(key)
    ensures !NoMatch(e.p, seed, list)
    ensures Selected(e.p, seed, list, withUser).Signed?
    ensures (forall j | 0 <= j < k :: !Recovers(e.p, seed, list[j])) ==>
      Selected(e.p, seed, list, withUser) == Signed(list[k].id, key, if withUser then list[k].user else None)
  {
    assert Recovers(e.p, seed, list[k]);
    SelectedExactly(e.p, seed, list, withUser);
    if forall j | 0 <= j < k :: !Recovers(e.p, seed, list[j]) {
      FirstMatchUnique(e.p, seed, list, k, withUser);
    }
    hide Decode;
  }

  /** The key an attestation on `c` makes its credential with. */
  function UsedKey(e: Setup, s: Looks, c: Cid): Key {
    var passkey := ResolvePasskey(s, c);
    if passkey.Wallet? then passkey.u.kp else e.platform
  }

  /** What an attestation on a channel answers, and when. With the platform key: a new id
      exactly if one can be built. With a wallet that loads: excluded exactly if the wallet
      has a credential for that RP and that user; otherwise a new id exactly if one can be
      built and, for a resident credential, the wallet with it appended can be saved. With
      an entry that is gone, or a wallet that does not load: an exception. An id is made
      under the wallet's key or the platform's, and only a resident one changes files. */
  lemma AttestationExactly(e: Setup, home: Home, s: Looks, c: Cid, rpId: seq<byte>, userId: seq<byte>, rk: bool,
                           f: Fresh)
    ensures
      var (home', a) := Attest(e, home, s, c, rpId, userId, rk, f);
      var passkey, built := ResolvePasskey(s, c), NewId(e, rpId, UsedKey(e, s, c), f);
      && (a.Created? ==> built == Success(a.id))
      && (!passkey.Wallet? || !a.Created? || !rk ==> home' == home)
      && (passkey.Gone? ==> a.AttestationThrew?)
      && (passkey.Platform? ==> !a.Excluded? && (a.Created? <==> built.Success?))
      && (passkey.Wallet? ==>
          var w := LoadFrom(e.p, e.platform, home, passkey.u.file, passkey.u.ph);
          && (w.Raised? ==> a.AttestationThrew?)
          && (w.Success? ==>
              var creds := w.value.creds;
              var held := exists i :: 0 <= i < |creds| && creds[i].rpId == rpId && creds[i].userId == userId;
              var saves := built.Success? ==>
                Save(e.p, e.platform, w.value.(creds := creds + [Cred(rpId, userId, built.value)]), f.d).Success?;
              && (a.Excluded? <==> held)
              && (a.Created? <==> !held && built.Success? && (rk ==> saves))))
  {
    hide NewId, LoadFrom, Save;
  }

  /** An id can be built exactly for 32 bytes of key material at a time that fits 64 bits. */
  lemma NewIdBuilds(e: Setup, rpId: seq<byte>, key: Key, f: Fresh)
    ensures NewId(e, rpId, key, f).Success? <==> |f.material| == 32 && f.time < Pow256(8)
  {
  }

  /** In any run, so: on a verified channel whose session's hash opens its wallet, with 32
      bytes of key material and a time that fits, a credential is refused exactly if the
      wallet has one for that RP and that user, and is made otherwise, unless it is resident
      and the wallet's PKCS12 file outgrows its length field. */
  lemma AttestationInRun(e: Setup, ops: seq<Op>, s: Looks, c: Cid, rpId: seq<byte>, userId: seq<byte>, rk: bool,
                         f: Fresh)
    requires Laws(e.p) && ResolvePasskey(s, c).Wallet? && |f.material| == 32 && f.time < Pow256(8)
    requires ResolvePasskey(s, c).u.file in AbstractRun(e.p, ops)
    requires Opens(AbstractRun(e.p, ops)[ResolvePasskey(s, c).u.file], ResolvePasskey(s, c).u.ph)
    ensures
      var w := AbstractRun(e.p, ops)[ResolvePasskey(s, c).u.file];
      var a := Attest(e, Run(e.p, e.platform, ops), s, c, rpId, userId, rk, f).1;
      var held := exists i :: 0 <= i < |w.creds| && w.creds[i].rpId == rpId && w.creds[i].userId == userId;
      && (a.Excluded? <==> held)
      && (a.Created? <==> !held && (rk ==>
            |e.p.pkcs12(w.key, w.x5c, e.p.b64enc(w.pinHash), f.d.salt)| < Pow256(4)))
  {
    hide Laws, Represents, Run, AbstractRun, LoadFrom, Opens, Attest, NewId, Save, Fits;
    var u := ResolvePasskey(s, c).u;
    var w := AbstractRun(e.p, ops)[u.file];
    RunsRefine(e.p, e.platform, ops, u.file, u.ph);
    LoadFromExactly(e.p, e.platform, Run(e.p, e.platform, ops), AbstractRun(e.p, ops), u.file, u.ph);
    AttestationExactly(e, Run(e.p, e.platform, ops), s, c, rpId, userId, rk, f);
    NewIdBuilds(e, rpId, u.kp, f);
    var id := NewId(e, rpId, u.kp, f).value;
    SaveExactly(e.p, e.platform, w.(creds := w.creds + [Cred(rpId, userId, id)]), f.d);
    FitsExactly(e.p, w.(creds := w.creds + [Cred(rpId, userId, id)]), f.d);
  }

  lemma FitsExactly(p: Primitives, w: Wallet, d: Draw)
    ensures Fits(p, w, d) <==> |p.pkcs12(w.key, w.x5c, p.b64enc(w.pinHash), d.salt)| < Pow256(4)
  {
  }

  lemma AssertionFindsOwnId(e: Setup, rpId: seq<byte>, key: Key, f: Fresh, home: Home, s: S.Store, c: Cid,
                            list: seq<Allowed>, k: nat)
    requires Laws(e.p) && Usable(e.p, f)
    requires c in s && s[c].unlocked.Some? && s[c].unlocked.value.kp == key && Loaded(e, home, s, c).Success?
    requires NewId(e, rpId, key, f).Success?
    requires k < |Candidates(e, home, s, c, rpId, list)|
      && Candidates(e, home, s, c, rpId, list)[k].id == NewId(e, rpId, key, f).value
    ensures
      var (_, answer) := Assert(e, home, s, c, rpId, list);
      var all := Candidates(e, home, s, c, rpId, list);
      && answer.Signed?
      && ((forall j | 0 <= j < k :: !Recovers(e.p, Seed(e, rpId, key), all[j])) ==>
          answer == Signed(all[k].id, KeyPair(ES256, f.material), all[k].user))
  {
    hide Laws, Usable, NewId, Decode, Recovers, Selected, LoadFrom, Residents, NoMatch;
    NewIdRecovers(e, rpId, key, f);
    OwnIdIsFound(e, Seed(e, rpId, key), Candidates(e, home, s, c, rpId, list), k, true, KeyPair(ES256, f.material));
  }

  /** Register, then assert: an id an attestation created, offered or resident on any
      channel whose unlocked wallet has the key it was made with, whatever happened to
      the files in between. The answer is never NO_CREDENTIALS, and is exactly the
      registered key pair with the candidate's user unless an earlier candidate also
      belongs to that key. */
  lemma CreatedIsFoundByWallet(e: Setup, home0: Home, s0: Looks, c0: Cid, rpId: seq<byte>, userId: seq<byte>,
                               rk: bool, f: Fresh,
                               home: Home, s: S.Store, c: Cid, list: seq<Allowed>, k: nat)
    requires Laws(e.p) && Usable(e.p, f) && Attest(e, home0, s0, c0, rpId, userId, rk, f).1.Created?
    requires c in s && s[c].unlocked.Some? && s[c].unlocked.value.kp == UsedKey(e, s0, c0)
      && Loaded(e, home, s, c).Success?
    requires k < |Candidates(e, home, s, c, rpId, list)|
    requires Candidates(e, home, s, c, rpId, list)[k].id == Attest(e, home0, s0, c0, rpId, userId, rk, f).1.id
    ensures
      var (_, answer) := Assert(e, home, s, c, rpId, list);
      var all := Candidates(e, home, s, c, rpId, list);
      && answer.Signed?
      && ((forall j | 0 <= j < k :: !Recovers(e.p, Seed(e, rpId, UsedKey(e, s0, c0)), all[j])) ==>
          answer == Signed(all[k].id, KeyPair(ES256, f.material), all[k].user))
  {
    hide *;
    AttestationExactly(e, home0, s0, c0, rpId, userId, rk, f);
    AssertionFindsOwnId(e, rpId, UsedKey(e, s0, c0), f, home, s, c, list, k);
  }

  /** The same for an id made with the platform key, on a channel without a wallet or with
      one that none of the candidates belongs to; no user comes with it. */
  lemma CreatedIsFoundByPlatform(e: Setup, home0: Home, s0: Looks, c0: Cid, rpId: seq<byte>, userId: seq<byte>,
                                 rk: bool, f: Fresh,
                                 home: Home, s: S.Store, c: Cid, list: seq<Allowed>, k: nat)
    requires Laws(e.p) && Usable(e.p, f) && Attest(e, home0, s0, c0, rpId, userId, rk, f).1.Created?
    requires UsedKey(e, s0, c0) == e.platform
    requires c in s && s[c].unlocked.Some? ==> Loaded(e, home, s, c).Success?
    requires c in s && s[c].unlocked.Some? ==>
      NoMatch(e.p, Seed(e, rpId, s[c].unlocked.value.kp), Candidates(e, home, s, c, rpId, list))
    requires k < |Candidates(e, home, s, c, rpId, list)|
    requires Candidates(e, home, s, c, rpId, list)[k].id == Attest(e, home0, s0, c0, rpId, userId, rk, f).1.id
    ensures
      var (_, answer) := Assert(e, home, s, c, rpId, list);
      var all := Candidates(e, home, s, c, rpId, list);
      && answer.Signed?
      && ((forall j | 0 <= j < k :: !Recovers(e.p, Seed(e, rpId, e.platform), all[j])) ==>
          answer == Signed(all[k].id, KeyPair(ES256, f.material), None))
  {
    hide Laws, Usable, NewId, Attest, Decode, Recovers, Selected, LoadFrom, Residents, NoMatch;
    var all := Candidates(e, home, s, c, rpId, list);
    AttestationExactly(e, home0, s0, c0, rpId, userId, rk, f);
    NewIdRecovers(e, rpId, e.platform, f);
    OwnIdIsFound(e, Seed(e, rpId, e.platform), all, k, false, KeyPair(ES256, f.material));
    if c in s && s[c].unlocked.Some? {
      SelectedExactly(e.p, Seed(e, rpId, s[c].unlocked.value.kp), all, true);
    }
  }

  /** On the files, an attestation with a wallet is the operation Register of WalletHome. */
  lemma AttestationIsRegistration(e: Setup, home: Home, s: Looks, c: Cid, rpId: seq<byte>, userId: seq<byte>,
                                  rk: bool, f: Fresh)
    requires ResolvePasskey(s, c).Wallet? && NewId(e, rpId, ResolvePasskey(s, c).u.kp, f).Success?
    ensures
      var u := ResolvePasskey(s, c).u;
      var id := NewId(e, rpId, u.kp, f).value;
      var (home', a) := Attest(e, home, s, c, rpId, userId, rk, f);
      && Step(e.p, e.platform, home, Register(u.file, u.ph, Cred(rpId, userId, id), rk, f.d)) == (home', a.Created?)
      && (a.Created? ==> a.id == id)
  {
    hide NewId, LoadFrom, SaveTo, Existing;
  }

  // ---- Over runs ----

  lemma StepKeepsWallet(p: Primitives, ws: Wallets, op: Op, name: Name)
    requires name in ws
    ensures name in AbstractStep(p, ws, op).0 && AbstractStep(p, ws, op).0[name].key == ws[name].key
  {
    hide Fits, DeleteEach, SortDescending, AllValid, Opens, Existing;
  }

  lemma {:induction false} WalletStays(p: Primitives, ops: seq<Op>, more: seq<Op>, name: Name)
    requires name in AbstractRun(p, ops)
    ensures name in AbstractRun(p, ops + more) && AbstractRun(p, ops + more)[name].key == AbstractRun(p, ops)[name].key
  {
    hide AbstractStep;
    if more == [] {
      assert ops + more == ops;
    } else {
      var last := |more| - 1;
      WalletStays(p, ops, more[..last], name);
      assert (ops + more)[..|ops + more| - 1] == ops + more[..last];
      StepKeepsWallet(p, AbstractRun(p, ops + more[..last]), more[last], name);
    }
  }

  predicate Holds(ws: Wallets, name: Name, cred: Cred) { name in ws && cred in ws[name].creds }

  predicate NoDeletion(ops: seq<Op>, name: Name) {
    forall i | 0 <= i < |ops| :: !(ops[i].Delete? && ops[i].name == name)
  }

  lemma StepKeepsResident(p: Primitives, ws: Wallets, op: Op, name: Name, cred: Cred)
    requires Holds(ws, name, cred) && !(op.Delete? && op.name == name)
    ensures Holds(AbstractStep(p, ws, op).0, name, cred)
  {
    hide Fits, DeleteEach, SortDescending, AllValid, Opens, Existing;
  }

  lemma {:induction false} ResidentStays(p: Primitives, ops: seq<Op>, more: seq<Op>, name: Name, cred: Cred)
    requires Holds(AbstractRun(p, ops), name, cred) && NoDeletion(more, name)
    ensures Holds(AbstractRun(p, ops + more), name, cred)
  {
    hide AbstractStep, Holds;
    if more == [] {
      assert ops + more == ops;
    } else {
      var last := |more| - 1;
      ResidentStays(p, ops, more[..last], name, cred);
      assert (ops + more)[..|ops + more| - 1] == ops + more[..last];
      StepKeepsResident(p, AbstractRun(p, ops + more[..last]), more[last], name, cred);
    }
  }

  /** The wallet a session holds was unlocked after the first `n` operations. */
  predicate UnlockedAt(e: Setup, ops: seq<Op>, n: nat, u: S.Unlock) {
    && n <= |ops|
    && var w := LoadFrom(e.p, e.platform, Run(e.p, e.platform, ops[..n]), u.file, u.ph);
       w.Success? && w.value.key == u.kp
  }

  /** A session's key stays that of the wallet file, so all sessions on it share it. */
  lemma SessionKeyIsCurrent(e: Setup, ops: seq<Op>, n: nat, u: S.Unlock)
    requires Laws(e.p) && UnlockedAt(e, ops, n, u)
    ensures u.file in AbstractRun(e.p, ops) && AbstractRun(e.p, ops)[u.file].key == u.kp
  {
    hide Laws, Represents, Run, AbstractRun, LoadFrom, Opens;
    RunsRefine(e.p, e.platform, ops[..n], u.file, u.ph);
    WalletStays(e.p, ops[..n], ops[n..], u.file);
    assert ops[..n] + ops[n..] == ops;
  }

  lemma {:induction false} ResidentIsCandidate(creds: seq<Cred>, cred: Cred)
    requires cred in creds
    ensures Allowed(cred.credId, Some(cred.userId)) in Residents(creds, cred.rpId)
  {
    var last := |creds| - 1;
    if creds[last] != cred {
      assert creds == creds[..last] + [creds[last]];
      ResidentIsCandidate(creds[..last], cred);
    }
  }

  /** After a registration that answered with a new id, the wallet holds the credential. */
  lemma RegistrationStored(e: Setup, ops: seq<Op>, op: Op)
    requires Laws(e.p) && op.Register? && op.resident
    requires Step(e.p, e.platform, Run(e.p, e.platform, ops), op).1
    ensures Holds(AbstractRun(e.p, ops + [op]), op.name, op.cred)
  {
    hide Laws, Represents, Run, Step, LoadFrom, Opens, Fits, Existing;
    RunsRefine(e.p, e.platform, ops, op.name, op.ph);
    StepRefines(e.p, e.platform, Run(e.p, e.platform, ops), AbstractRun(e.p, ops), op);
    assert (ops + [op])[..|ops + [op]| - 1] == ops;
  }

  // ---- Sessions and PIN changes ----

  /** After any run, an assertion on a channel with an unlocked wallet raises exactly if
      the PIN hash the session keeps no longer opens that wallet. */
  lemma AssertionRaisesExactlyIfStale(e: Setup, ops: seq<Op>, s: S.Store, c: Cid, rpId: seq<byte>, list: seq<Allowed>)
    requires Laws(e.p) && c in s && s[c].unlocked.Some?
    ensures
      var u, ws := s[c].unlocked.value, AbstractRun(e.p, ops);
      var answer := Assert(e, Run(e.p, e.platform, ops), s, c, rpId, list).1;
      answer.AssertionThrew? <==> !(u.file in ws && Opens(ws[u.file], u.ph))
  {
    hide Laws, Run, AbstractRun, LoadFrom, Represents, Opens, Residents, Candidates, Selected, Recovers,
      FirstMatch, NoMatch, SignedWith;
    RunsRefine(e.p, e.platform, ops, s[c].unlocked.value.file, s[c].unlocked.value.ph);
    AssertionExactly(e, Run(e.p, e.platform, ops), s, c, rpId, list);
  }

  /** After a PIN change that went through, an assertion on a session on that wallet raises
      exactly if the hash the session keeps is neither the new PIN's nor its first half. */
  lemma PinChangeStalesExactly(e: Setup, ops: seq<Op>, op: Op, s: S.Store, c: Cid, rpId: seq<byte>, list: seq<Allowed>)
    requires Laws(e.p) && c in s && s[c].unlocked.Some?
    requires op.ChangePin? && op.name == s[c].unlocked.value.file
    requires Step(e.p, e.platform, Run(e.p, e.platform, ops), op).1
    ensures
      var ph, hash := s[c].unlocked.value.ph, e.p.pinHash(op.new_);
      var answer := Assert(e, Run(e.p, e.platform, ops + [op]), s, c, rpId, list).1;
      answer.AssertionThrew? <==> !(ph == hash || (|ph| == HALF_HASH && ph <= hash))
  {
    hide Laws, Represents, Run, Step, LoadFrom, Fits, Candidates, Selected, Residents, Recovers;
    AssertionRaisesExactlyIfStale(e, ops + [op], s, c, rpId, list);
    RunsRefine(e.p, e.platform, ops, op.name, e.p.pinHash(op.current));
    StepRefines(e.p, e.platform, Run(e.p, e.platform, ops), AbstractRun(e.p, ops), op);
    assert (ops + [op])[..|ops + [op]| - 1] == ops;
  }

  /** The PIN hash the last change of `name`'s PIN that went through, after the first `n`
      operations, set. */
  function LatestPin(e: Setup, ops: seq<Op>, n: nat, name: Name): Option<seq<byte>>
    requires n <= |ops|
  {
    if n == |ops| then None
    else
      var was, op := ops[..|ops| - 1], ops[|ops| - 1];
      if op.ChangePin? && op.name == name && Step(e.p, e.platform, Run(e.p, e.platform, was), op).1
      then Some(e.p.pinHash(op.new_)) else LatestPin(e, was, n, name)
  }

  /** Since the session unlocked its wallet, the PIN was changed, to one the session's hash
      is neither the hash of nor its first half. */
  predicate PinLost(e: Setup, ops: seq<Op>, n: nat, u: S.Unlock)
    requires n <= |ops|
  {
    var hash := LatestPin(e, ops, n, u.file);
    hash.Some? && !(u.ph == hash.value || (|u.ph| == HALF_HASH && u.ph <= hash.value))
  }

  lemma StepKeepsHash(p: Primitives, ws: Wallets, op: Op, name: Name)
    requires name in ws
    ensures
      var (ws', ok) := AbstractStep(p, ws, op);
      && name in ws'
      && ws'[name].pinHash == if op.ChangePin? && op.name == name && ok then p.pinHash(op.new_) else ws[name].pinHash
  {
    hide Fits, DeleteEach, SortDescending, AllValid, Opens, Existing;
  }

  lemma {:induction false} HashIsLatest(e: Setup, ops: seq<Op>, n: nat, name: Name)
    requires Laws(e.p) && n <= |ops| && name in AbstractRun(e.p, ops[..n])
    ensures name in AbstractRun(e.p, ops)
    ensures AbstractRun(e.p, ops)[name].pinHash
         == (if LatestPin(e, ops, n, name).Some? then LatestPin(e, ops, n, name).value
             else AbstractRun(e.p, ops[..n])[name].pinHash)
  {
    hide Laws, Represents, Run, Step, AbstractStep, LoadFrom, Opens;
    if n == |ops| {
      assert ops[..n] == ops;
    } else {
      var was, op := ops[..|ops| - 1], ops[|ops| - 1];
      assert was[..n] == ops[..n];
      HashIsLatest(e, was, n, name);
      RunsRefine(e.p, e.platform, was, name, []);
      StepRefines(e.p, e.platform, Run(e.p, e.platform, was), AbstractRun(e.p, was), op);
      StepKeepsHash(e.p, AbstractRun(e.p, was), op, name);
    }
  }

  /** A session's hash opens its wallet exactly if no change of its PIN took that away. */
  lemma StaleExactlyIfPinLost(e: Setup, ops: seq<Op>, n: nat, u: S.Unlock)
    requires Laws(e.p) && UnlockedAt(e, ops, n, u)
    ensures u.file in AbstractRun(e.p, ops)
    ensures Opens(AbstractRun(e.p, ops)[u.file], u.ph) <==> !PinLost(e, ops, n, u)
  {
    hide Laws, Represents, Run, AbstractRun, LoadFrom, LatestPin;
    RunsRefine(e.p, e.platform, ops[..n], u.file, u.ph);
    HashIsLatest(e, ops, n, u.file);
  }

  /** In terms of the run: an assertion raises exactly if, since the session unlocked its
      wallet, the last change of its PIN set one the session's hash does not open. */
  lemma AssertionRaisesExactlyIfPinLost(e: Setup, ops: seq<Op>, n: nat, s: S.Store, c: Cid, rpId: seq<byte>,
                                        list: seq<Allowed>)
    requires Laws(e.p) && c in s && s[c].unlocked.Some? && UnlockedAt(e, ops, n, s[c].unlocked.value)
    ensures n <= |ops|
    ensures Assert(e, Run(e.p, e.platform, ops), s, c, rpId, list).1.AssertionThrew?
       <==> PinLost(e, ops, n, s[c].unlocked.value)
    ensures Loaded(e, Run(e.p, e.platform, ops), s, c).Success? <==> !PinLost(e, ops, n, s[c].unlocked.value)
  {
    hide Laws, Run, AbstractRun, LoadFrom, Represents, Opens, Assert, PinLost;
    StaleExactlyIfPinLost(e, ops, n, s[c].unlocked.value);
    AssertionRaisesExactlyIfStale(e, ops, s, c, rpId, list);
    RunsRefine(e.p, e.platform, ops, s[c].unlocked.value.file, s[c].unlocked.value.ph);
  }

  // ---- Residents are found again ----

  /** The assertion signs, and with this credential, and for its user, unless an earlier
      candidate belongs to the same wallet. */
  ghost predicate SignsWith(e: Setup, home: Home, s: S.Store, c: Cid, rpId: seq<byte>, list: seq<Allowed>,
                            cred: Cred, material: seq<byte>)
    requires c in s && s[c].unlocked.Some?
  {
    var all, answer := Candidates(e, home, s, c, rpId, list), Assert(e, home, s, c, rpId, list).1;
    && answer.Signed?
    && (exists k: nat ::
        && k < |all| && all[k] == Allowed(cred.credId, Some(cred.userId))
        && ((forall j | 0 <= j < k :: !Recovers(e.p, Seed(e, rpId, s[c].unlocked.value.kp), all[j])) ==>
            answer == Signed(cred.credId, KeyPair(ES256, material), Some(cred.userId))))
  }

  /** A resident credential registered on one channel, on every channel that unlocks the
      same wallet and without being named by the caller, until something is deleted from
      that wallet, whatever else happens to any wallet in between: an assertion raises
      exactly if the wallet's PIN was changed, since it was unlocked there, to one the
      session's hash does not open; otherwise it signs with the credential. */
  lemma ResidentIsFoundAgain(e: Setup, ops: seq<Op>, s: Looks, c: Cid, rpId: seq<byte>, userId: seq<byte>, f: Fresh,
                             n: nat, more: seq<Op>, s': S.Store, c': Cid, n': nat, list: seq<Allowed>)
    requires Laws(e.p) && Usable(e.p, f)
    requires ResolvePasskey(s, c).Wallet? && UnlockedAt(e, ops, n, ResolvePasskey(s, c).u)
    requires Attest(e, Run(e.p, e.platform, ops), s, c, rpId, userId, true, f).1.Created?
    requires NewId(e, rpId, ResolvePasskey(s, c).u.kp, f).Success?
    requires NoDeletion(more, ResolvePasskey(s, c).u.file)
    requires c' in s' && s'[c'].unlocked.Some? && s'[c'].unlocked.value.file == ResolvePasskey(s, c).u.file
    requires UnlockedAt(e, Later(e, ops, s, c, rpId, userId, f, more), n', s'[c'].unlocked.value)
    ensures
      var later := Later(e, ops, s, c, rpId, userId, f, more);
      var home := Run(e.p, e.platform, later);
      var cred := Cred(rpId, userId, NewId(e, rpId, ResolvePasskey(s, c).u.kp, f).value);
      var lost := PinLost(e, later, n', s'[c'].unlocked.value);
      && (Assert(e, home, s', c', rpId, list).1.AssertionThrew? <==> lost)
      && (!lost ==> SignsWith(e, home, s', c', rpId, list, cred, f.material))
  {
    hide *;
    var later := Later(e, ops, s, c, rpId, userId, f, more);
    var home := Run(e.p, e.platform, later);
    var u, u' := ResolvePasskey(s, c).u, s'[c'].unlocked.value;
    var cred := Cred(rpId, userId, NewId(e, rpId, u.kp, f).value);
    AssertionRaisesExactlyIfPinLost(e, later, n', s', c', rpId, list);
    if !PinLost(e, later, n', u') {
      ResidentIsHeld(e, ops, s, c, rpId, userId, f, more);
      SessionsShareKey(e, ops, s, c, rpId, userId, f, n, more, n', u');
      var k := HeldIsCandidate(e, later, s', c', cred, list);
      AssertionFindsOwnId(e, rpId, u.kp, f, home, s', c', list, k);
      SignsAt(e, home, s', c', rpId, list, cred, f.material, k);
    }
  }

  lemma SignsAt(e: Setup, home: Home, s: S.Store, c: Cid, rpId: seq<byte>, list: seq<Allowed>,
                cred: Cred, material: seq<byte>, k: nat)
    requires c in s && s[c].unlocked.Some?
    requires
      var all, answer := Candidates(e, home, s, c, rpId, list), Assert(e, home, s, c, rpId, list).1;
      && answer.Signed? && k < |all| && all[k] == Allowed(cred.credId, Some(cred.userId))
      && ((forall j | 0 <= j < k :: !Recovers(e.p, Seed(e, rpId, s[c].unlocked.value.kp), all[j])) ==>
          answer == Signed(all[k].id, KeyPair(ES256, material), all[k].user))
    ensures SignsWith(e, home, s, c, rpId, list, cred, material)
  {
    hide Candidates, Assert, Recovers;
  }

  function Later(e: Setup, ops: seq<Op>, s: Looks, c: Cid, rpId: seq<byte>, userId: seq<byte>, f: Fresh,
                 more: seq<Op>): seq<Op>
    requires ResolvePasskey(s, c).Wallet? && NewId(e, rpId, ResolvePasskey(s, c).u.kp, f).Success?
  {
    var u := ResolvePasskey(s, c).u;
    ops + [Register(u.file, u.ph, Cred(rpId, userId, NewId(e, rpId, u.kp, f).value), true, f.d)] + more
  }

  lemma ResidentIsHeld(e: Setup, ops: seq<Op>, s: Looks, c: Cid, rpId: seq<byte>, userId: seq<byte>, f: Fresh,
                       more: seq<Op>)
    requires Laws(e.p) && ResolvePasskey(s, c).Wallet? && NewId(e, rpId, ResolvePasskey(s, c).u.kp, f).Success?
    requires Attest(e, Run(e.p, e.platform, ops), s, c, rpId, userId, true, f).1.Created?
    requires NoDeletion(more, ResolvePasskey(s, c).u.file)
    ensures
      var u := ResolvePasskey(s, c).u;
      var cred := Cred(rpId, userId, NewId(e, rpId, u.kp, f).value);
      Holds(AbstractRun(e.p, Later(e, ops, s, c, rpId, userId, f, more)), u.file, cred)
  {
    hide Laws, Run, AbstractRun, Attest, Step, NewId, Holds;
    var u := ResolvePasskey(s, c).u;
    var op := Register(u.file, u.ph, Cred(rpId, userId, NewId(e, rpId, u.kp, f).value), true, f.d);
    AttestationIsRegistration(e, Run(e.p, e.platform, ops), s, c, rpId, userId, true, f);
    RegistrationStored(e, ops, op);
    ResidentStays(e.p, ops + [op], more, u.file, op.cred);
  }

  lemma SessionsShareKey(e: Setup, ops: seq<Op>, s: Looks, c: Cid, rpId: seq<byte>, userId: seq<byte>, f: Fresh,
                         n: nat, more: seq<Op>, n': nat, u': S.Unlock)
    requires Laws(e.p) && ResolvePasskey(s, c).Wallet? && NewId(e, rpId, ResolvePasskey(s, c).u.kp, f).Success?
    requires UnlockedAt(e, ops, n, ResolvePasskey(s, c).u)
    requires UnlockedAt(e, Later(e, ops, s, c, rpId, userId, f, more), n', u') && u'.file == ResolvePasskey(s, c).u.file
    ensures u'.kp == ResolvePasskey(s, c).u.kp
  {
    hide Laws, Run, AbstractRun, LoadFrom, NewId;
    var later := Later(e, ops, s, c, rpId, userId, f, more);
    assert later[..n] == ops[..n];
    SessionKeyIsCurrent(e, later, n, ResolvePasskey(s, c).u);
    SessionKeyIsCurrent(e, later, n', u');
  }

  lemma HeldIsCandidate(e: Setup, ops: seq<Op>, s: S.Store, c: Cid, cred: Cred, list: seq<Allowed>) returns (k: nat)
    requires Laws(e.p) && c in s && s[c].unlocked.Some?
    requires Holds(AbstractRun(e.p, ops), s[c].unlocked.value.file, cred)
    requires Loaded(e, Run(e.p, e.platform, ops), s, c).Success?
    ensures
      var all := Candidates(e, Run(e.p, e.platform, ops), s, c, cred.rpId, list);
      k < |all| && all[k] == Allowed(cred.credId, Some(cred.userId))
  {
    hide Laws, Run, AbstractRun, LoadFrom, Represents, Opens, Residents;
    var u := s[c].unlocked.value;
    RunsRefine(e.p, e.platform, ops, u.file, u.ph);
    ResidentIsCandidate(AbstractRun(e.p, ops)[u.file].creds, cred);
    var mine := Residents(AbstractRun(e.p, ops)[u.file].creds, cred.rpId);
    var i :| 0 <= i < |mine| && mine[i] == Allowed(cred.credId, Some(cred.userId));
    k := |list| + i;
  }
}
