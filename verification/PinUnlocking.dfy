/** Which wallet a PIN unlocks, and what the requests behind the gates are answered, in
    runs of sessions and wallets. */
module PinUnlocking {
  import opened Bytes
  import opened Crypto
  import opened WalletHome
  import opened WalletRuns
  import opened WalletEffects
  import opened Ceremonies
  import opened CredentialSelection
  import opened RegisterThenAssert
  import opened AuthenticatorRuns
  import G = CommandGates
  import H = SessionHistory
  import S = SessionStore

  /** The first listed wallet that loads, or their number. */
  lemma {:induction false} FirstThatLoads(e: Setup, home: Home, names: seq<Name>, ph: seq<byte>) returns (i: nat)
    ensures i <= |names| && forall j | 0 <= j < i :: LoadFrom(e.p, e.platform, home, names[j], ph).Raised?
    ensures i < |names| ==>
      && LoadFrom(e.p, e.platform, home, names[i], ph).Success?
      && FirstOpened(e, home, names, ph) == Some((names[i], LoadFrom(e.p, e.platform, home, names[i], ph).value))
    ensures i == |names| ==> FirstOpened(e, home, names, ph) == None
  {
    hide LoadFrom;
    if names == [] || LoadFrom(e.p, e.platform, home, names[0], ph).Success? {
      i := 0;
    } else {
      i := FirstThatLoads(e, home, names[1..], ph);
      i := i + 1;
    }
  }

  predicate OpenedBy(ws: Wallets, name: Name, ph: seq<byte>) { name in ws && Opens(ws[name], ph) }

  predicate FirstOpenedBy(ws: Wallets, names: seq<Name>, ph: seq<byte>, i: int) {
    0 <= i < |names| && OpenedBy(ws, names[i], ph) && forall j | 0 <= j < i :: !OpenedBy(ws, names[j], ph)
  }

  lemma FirstOpenedIs(e: Setup, ops: seq<Op>, names: seq<Name>, ph: seq<byte>)
    requires Laws(e.p)
    ensures
      var ws, r := AbstractRun(e.p, ops), FirstOpened(e, Run(e.p, e.platform, ops), names, ph);
      && ((forall i | 0 <= i < |names| :: !OpenedBy(ws, names[i], ph)) ==> r == None)
      && (forall i | FirstOpenedBy(ws, names, ph, i) :: r == Some((names[i], ws[names[i]])))
  {
    hide FirstOpened, LoadFrom, Laws, Represents, Run, AbstractRun;
    var ws, home := AbstractRun(e.p, ops), Run(e.p, e.platform, ops);
    forall i | 0 <= i < |names|
      ensures OpenedBy(ws, names[i], ph) <==> LoadFrom(e.p, e.platform, home, names[i], ph).Success?
      ensures OpenedBy(ws, names[i], ph) ==> LoadFrom(e.p, e.platform, home, names[i], ph).value == ws[names[i]]
    {
      RunsRefine(e.p, e.platform, ops, names[i], ph);
    }
    hide OpenedBy;
    var first := FirstThatLoads(e, home, names, ph);
    forall i | FirstOpenedBy(ws, names, ph, i)
      ensures i == first
    {
    }
  }

  /** A PIN unlocks the first listed wallet it opens: the channel's session then holds that
      wallet's name, key and certificate, the hash and the new token, counts as verified,
      and starts its clock anew. If it opens none, nothing changes; and it never changes a
      file or another channel. */
  lemma PinUnlocksFirst(e: Setup, es: seq<Event>, c: Cid, ph: seq<byte>, names: seq<Name>, token: seq<byte>, now: real)
    requires Laws(e.p)
    ensures
      var w, w' := PlayAll(e, es), PlayAll(e, es + [PinSent(c, ph, names, token, now)]);
      var ws := AbstractRun(e.p, w.ops);
      && w'.home == w.home && w'.ops == w.ops
      && (forall c': Cid | c' != c ::
            (c' in w'.store <==> c' in w.store) && (c' in w.store ==> w'.store[c'] == w.store[c']))
      && ((forall i | 0 <= i < |names| :: !OpenedBy(ws, names[i], ph)) ==> w' == w)
      && (forall i | FirstOpenedBy(ws, names, ph, i) ::
            && c in w'.store && w'.store[c].tStart == now && w'.store[c].upv == Some(S.Verified)
            && w'.store[c].unlocked == Some(S.Unlock(ws[names[i]].x5c, ws[names[i]].key, names[i], ph, token)))
  {
    var ev := PinSent(c, ph, names, token, now);
    assert (es + [ev])[..|es|] == es;
    RunsKept(e, es);
    var w := PlayAll(e, es);
    var ws := AbstractRun(e.p, w.ops);
    hide PlayAll, HeldFrom, FirstOpened, LoadFrom, Laws, Run, AbstractRun, H.Replay;
    FirstOpenedIs(e, w.ops, names, ph);
    hide OpenedBy, FirstOpenedBy;
  }

  /** Which key an attestation uses, told from the history at its two reads: the one of the
      PIN last accepted on the channel, if at the first the user counted as verified and at
      the second the session still has it; none, and an exception, if by then the session
      is gone; and otherwise the platform's. */
  lemma KeyIsResolved(h: H.History, n: nat, n': nat, c: Cid)
    requires n <= n' <= |h|
    ensures
      var passkey := ResolvePasskey(Looks(H.Replay(h[..n]), H.Replay(h[..n'])), c);
      var verified := H.Since(h[..n], H.Verifies(c), H.EvictsOrDowngrades(c));
      var there := H.Since(h[..n'], H.OpensSession(c), H.Evicts(c));
      && (forall u :: passkey == Passkey.Wallet(u) <==>
            verified && H.Since(h[..n'], H.UnlocksWith(c, u), H.EvictsOrUnlocks(c)))
      && (passkey.Gone? <==> verified && !there)
  {
    hide H.Since, S.ApplyAll;
    H.VerifiedIsLatest(h[..n], c);
    H.SessionIsOpen(h[..n'], c);
    forall u
      ensures (c in H.Replay(h[..n']) && H.Replay(h[..n'])[c].unlocked == Some(u))
        <==> H.Since(h[..n'], H.UnlocksWith(c, u), H.EvictsOrUnlocks(c))
    {
      H.UnlockedIsLatestPin(h[..n'], c, u);
    }
  }

  // ---- What is answered once the gates are passed ----

  /** What lets a MakeCredential through to the credential operation. */
  ghost predicate CreationGates(w: World, c: Cid, request: Option<G.Request>, hmac: Mac) {
    && G.PresenceProved(w.history, Now(w), c) && request.Some? && request.value.complete
    && (request.value.uv ==> G.VerificationProved(w.history, Now(w), c))
    && (G.HasPinAuth(request.value) ==> G.TokenProved(w.history, Now(w), c, request.value, hmac))
  }

  /** Behind its gates MakeCredential answers 0x00 for a credential made, 0x19 for an
      excluded one, and raises with the attestation. */
  lemma CreationAnswers(e: Setup, w: World, ev: Event, request: Option<G.Request>, hmac: Mac)
    requires ev.Registration? && CreationGates(w, ev.c, request, hmac)
    ensures
      var a, made := MakeCredential(e, w, ev, request, hmac), Answered(e, w, ev);
      && (made.Created? ==> a == G.Status(0x00)) && (made.Excluded? ==> a == G.Status(0x19))
      && (made.AttestationThrew? ==> a == G.Threw)
  {
    hide Answered, G.PresenceProved, G.TokenProved, G.VerificationProved, G.MakeCredential;
    var out := match Answered(e, w, ev)
      case Created(_) => G.Produced
      case Excluded => G.Failed(CREDENTIAL_EXCLUDED)
      case AttestationThrew => G.OutcomeThrew;
    G.MakeCredentialAnswers(w.history, Now(w), ev.c, request, hmac, out);
  }

  /** Behind its gates GetAssertion answers 0x00 for a signature, 0x2E if no credential is
      recoverable, and raises with the assertion. */
  lemma AssertionAnswers(e: Setup, w: World, c: Cid, request: Option<G.Request>, hmac: Mac, rpId: seq<byte>,
                         list: seq<Allowed>)
    requires AssertionGates(w, c, request, hmac)
    ensures
      var a, made := GetAssertion(e, w, c, request, hmac, rpId, list), Assert(e, w.home, w.store, c, rpId, list).1;
      && (made.Signed? ==> a == G.Status(0x00)) && (made.NoCredentials? ==> a == G.Status(0x2E))
      && (made.AssertionThrew? ==> a == G.Threw)
  {
    hide Assert, G.PresenceProved, G.TokenProved, G.GetAssertion;
    var out := match Assert(e, w.home, w.store, c, rpId, list).1
      case Signed(_, _, _) => G.Produced
      case NoCredentials => G.Failed(NO_CREDENTIALS)
      case AssertionThrew => G.OutcomeThrew;
    G.GetAssertionAnswers(w.history, Now(w), c, request, hmac, out);
  }

  /** From request to request: a second credential for the same RP and user on a wallet that
      opens is refused with 0x19, and exactly then. */
  lemma SecondIsExcluded(e: Setup, es: seq<Event>, ev: Event, request: Option<G.Request>, hmac: Mac)
    requires Laws(e.p) && ev.Registration? && |ev.f.material| == 32 && ev.f.time < Pow256(8)
    requires CreationGates(PlayAll(e, es), ev.c, request, hmac)
    requires WalletOf(PlayAll(e, es), ev).Wallet?
    requires
      var w := PlayAll(e, es);
      OpenedBy(AbstractRun(e.p, w.ops), WalletOf(w, ev).u.file, WalletOf(w, ev).u.ph)
    ensures
      var w := PlayAll(e, es);
      var creds := AbstractRun(e.p, w.ops)[WalletOf(w, ev).u.file].creds;
      MakeCredential(e, w, ev, request, hmac) == G.Status(0x19) <==>
        exists i :: 0 <= i < |creds| && creds[i].rpId == ev.rpId && creds[i].userId == ev.userId
  {
    var w := PlayAll(e, es);
    RunsKept(e, es);
    hide PlayAll, HeldFrom, Attest, Laws, Run, AbstractRun, H.Replay, CreationGates, MakeCredential;
    CreationAnswers(e, w, ev, request, hmac);
    AttestationInRun(e, w.ops, Looks(w.store, w.store), ev.c, ev.rpId, ev.userId, ev.rk, ev.f);
  }
}
