/** Sessions and wallets together: runs in which PINs unlock wallets, sessions come and go,
    credentials are registered, and wallets are changed from outside. */
module AuthenticatorRuns {
  import opened Bytes
  import opened Crypto
  import opened PasskeyFile
  import opened WalletHome
  import opened WalletRuns
  import opened Ceremonies
  import opened CredentialSelection
  import opened RegisterThenAssert
  import G = CommandGates
  import H = SessionHistory
  import S = SessionStore

  /** The files, the sessions, and the operations and actions that made them what they are. */
  datatype World = World(home: Home, store: S.Store, ops: seq<Op>, history: H.History)

  datatype Event =
    | Session(action: S.Action)
    | PinSent(c: Cid, ph: seq<byte>, names: seq<Name>, token: seq<byte>, now: real)  // `names`: the directory listing
    | Registration(c: Cid, rpId: seq<byte>, userId: seq<byte>, rk: bool, f: Fresh)
    | Management(op: Op)

  /** `_validate_pin`: the first wallet the hash opens. */
  function FirstOpened(e: Setup, home: Home, names: seq<Name>, ph: seq<byte>): Option<(Name, Wallet)> {
    if names == [] then None
    else match LoadFrom(e.p, e.platform, home, names[0], ph)
      case Success(w) => Some((names[0], w))
      case Raised => FirstOpened(e, home, names[1..], ph)
  }

  /** The operation a registration is on the files; none without a wallet. */
  function OpOf(e: Setup, s: S.Store, c: Cid, rpId: seq<byte>, userId: seq<byte>, rk: bool, f: Fresh): seq<Op> {
    match ResolvePasskey(Looks(s, s), c)
    case Wallet(u) =>
      (match NewId(e, rpId, u.kp, f)
       case Success(id) => [Register(u.file, u.ph, Cred(rpId, userId, id), rk, f.d)]
       case Raised => [])
    case _ => []
  }

  function Act(w: World, a: S.Action): World {
    w.(store := S.Apply(w.store, a), history := w.history + [a])
  }

  /** Sessions change by their own actions, except that a wallet is unlocked only by a PIN. */
  function Play(e: Setup, w: World, ev: Event): World {
    match ev
    case Session(a) => if a.PinAccepted? then w else Act(w, a)
    case PinSent(c, ph, names, token, now) =>
      (match FirstOpened(e, w.home, names, ph)
       case None => w
       case Some((name, wallet)) =>
         Act(w, S.PinAccepted(c, S.Unlock(wallet.x5c, wallet.key, name, ph, token), now)))
    case Registration(c, rpId, userId, rk, f) =>
      w.(home := Attest(e, w.home, Looks(w.store, w.store), c, rpId, userId, rk, f).0,
         ops := w.ops + OpOf(e, w.store, c, rpId, userId, rk, f))
    case Management(op) => w.(home := Step(e.p, e.platform, w.home, op).0, ops := w.ops + [op])
  }

  function PlayAll(e: Setup, es: seq<Event>): World {
    if es == [] then World(Home(map[], map[]), map[], [], []) else Play(e, PlayAll(e, es[..|es| - 1]), es[|es| - 1])
  }

  /** The files are those of the operations, and every session took its key from its wallet. */
  ghost predicate Kept(e: Setup, w: World) {
    && w.home == Run(e.p, e.platform, w.ops) && w.store == H.Replay(w.history)
    && forall c | c in w.store && w.store[c].unlocked.Some? :: HeldFrom(e, w.ops, w.store[c].unlocked.value)
  }

  ghost predicate HeldFrom(e: Setup, ops: seq<Op>, u: S.Unlock) {
    exists n: nat :: UnlockedAt(e, ops, n, u)
  }

  lemma HeldFromStays(e: Setup, ops: seq<Op>, more: seq<Op>, u: S.Unlock)
    requires HeldFrom(e, ops, u)
    ensures HeldFrom(e, ops + more, u)
  {
    hide Run, LoadFrom;
    var n: nat :| UnlockedAt(e, ops, n, u);
    assert (ops + more)[..n] == ops[..n];
    assert UnlockedAt(e, ops + more, n, u);
  }

  lemma {:induction false} FirstOpenedLoads(e: Setup, home: Home, names: seq<Name>, ph: seq<byte>)
    ensures
      var r := FirstOpened(e, home, names, ph);
      r.Some? ==> LoadFrom(e.p, e.platform, home, r.value.0, ph) == Success(r.value.1)
  {
    hide LoadFrom;
    if names != [] {
      FirstOpenedLoads(e, home, names[1..], ph);
    }
  }

  lemma RunOneMore(e: Setup, ops: seq<Op>, op: Op)
    ensures Run(e.p, e.platform, ops + [op]) == Step(e.p, e.platform, Run(e.p, e.platform, ops), op).0
  {
    assert (ops + [op])[..|ops + [op]| - 1] == ops;
  }

  /** More operations keep what the sessions hold. */
  lemma MoreOpsKept(e: Setup, w: World, home: Home, more: seq<Op>)
    requires Kept(e, w) && home == Run(e.p, e.platform, w.ops + more)
    ensures Kept(e, w.(home := home, ops := w.ops + more))
  {
    hide Run, HeldFrom;
    forall c | c in w.store && w.store[c].unlocked.Some?
      ensures HeldFrom(e, w.ops + more, w.store[c].unlocked.value)
    {
      HeldFromStays(e, w.ops, more, w.store[c].unlocked.value);
    }
  }

  lemma ReplayAct(w: World, a: S.Action)
    requires w.store == H.Replay(w.history)
    ensures Act(w, a).store == H.Replay(Act(w, a).history)
  {
    assert (w.history + [a])[..|w.history|] == w.history;
  }

  lemma PinSentKept(e: Setup, w: World, ev: Event)
    requires Kept(e, w) && ev.PinSent?
    ensures Kept(e, Play(e, w, ev))
  {
    hide Run, LoadFrom, FirstOpened;
    FirstOpenedLoads(e, w.home, ev.names, ev.ph);
    var r := FirstOpened(e, w.home, ev.names, ev.ph);
    if r.Some? {
      var u := S.Unlock(r.value.1.x5c, r.value.1.key, r.value.0, ev.ph, ev.token);
      assert w.ops[..|w.ops|] == w.ops;
      assert UnlockedAt(e, w.ops, |w.ops|, u);
      assert HeldFrom(e, w.ops, u);
      hide HeldFrom, UnlockedAt, H.Replay;
      ReplayAct(w, S.PinAccepted(ev.c, u, ev.now));
    }
  }

  lemma RegistrationKept(e: Setup, w: World, ev: Event)
    requires Kept(e, w) && ev.Registration?
    ensures Kept(e, Play(e, w, ev))
  {
    var s := Looks(w.store, w.store);
    var ops := OpOf(e, w.store, ev.c, ev.rpId, ev.userId, ev.rk, ev.f);
    var home := Attest(e, w.home, s, ev.c, ev.rpId, ev.userId, ev.rk, ev.f).0;
    assert home == Run(e.p, e.platform, w.ops + ops) by {
      hide Run, Step, NewId, UpdatePasskey, Existing, LoadFrom;
      if ops == [] {
        assert w.ops + ops == w.ops;
      } else {
        AttestationIsRegistration(e, w.home, s, ev.c, ev.rpId, ev.userId, ev.rk, ev.f);
        RunOneMore(e, w.ops, ops[0]);
        assert ops == [ops[0]];
      }
    }
    hide Attest, OpOf, Run, Kept;
    MoreOpsKept(e, w, home, ops);
  }

  lemma PlayKept(e: Setup, w: World, ev: Event)
    requires Kept(e, w)
    ensures Kept(e, Play(e, w, ev))
  {
    match ev {
      case Session(a) =>
        hide Run, HeldFrom, H.Replay;
        ReplayAct(w, a);
      case PinSent(_, _, _, _, _) => PinSentKept(e, w, ev);
      case Registration(_, _, _, _, _) => RegistrationKept(e, w, ev);
      case Management(op) =>
        hide Run, Step, HeldFrom;
        RunOneMore(e, w.ops, op);
        MoreOpsKept(e, w, Step(e.p, e.platform, w.home, op).0, [op]);
    }
  }

  /** In every run, the files are those the operations make, and the key of every session
      is the one its wallet had when its PIN was accepted. */
  lemma {:induction false} RunsKept(e: Setup, es: seq<Event>)
    ensures Kept(e, PlayAll(e, es))
  {
    if es != [] {
      hide Kept, Play;
      RunsKept(e, es[..|es| - 1]);
      PlayKept(e, PlayAll(e, es[..|es| - 1]), es[|es| - 1]);
    }
  }

  /** So in every run an unlocked session's key is its wallet's current key. */
  lemma SessionsHoldCurrentKeys(e: Setup, es: seq<Event>, c: Cid)
    requires Laws(e.p) && c in PlayAll(e, es).store && PlayAll(e, es).store[c].unlocked.Some?
    ensures
      var u, ws := PlayAll(e, es).store[c].unlocked.value, AbstractRun(e.p, PlayAll(e, es).ops);
      u.file in ws && ws[u.file].key == u.kp
  {
    hide Laws, PlayAll, Run, AbstractRun, UnlockedAt;
    RunsKept(e, es);
    var w := PlayAll(e, es);
    var n: nat :| UnlockedAt(e, w.ops, n, w.store[c].unlocked.value);
    SessionKeyIsCurrent(e, w.ops, n, w.store[c].unlocked.value);
  }

  /** No event deletes from the wallet `name`. */
  predicate NoneDeletes(es: seq<Event>, name: Name) {
    forall i | 0 <= i < |es| :: !(es[i].Management? && es[i].op.Delete? && es[i].op.name == name)
  }

  lemma {:induction false} OpsGrow(e: Setup, es: seq<Event>, es': seq<Event>, name: Name) returns (more: seq<Op>)
    requires NoneDeletes(es', name)
    ensures PlayAll(e, es + es').ops == PlayAll(e, es).ops + more && NoDeletion(more, name)
  {
    if es' == [] {
      assert es + es' == es;
      more := [];
      assert PlayAll(e, es).ops + more == PlayAll(e, es).ops;
    } else {
      var last := |es'| - 1;
      assert NoneDeletes(es'[..last], name);
      assert !(es'[last].Management? && es'[last].op.Delete? && es'[last].op.name == name);
      hide Play, NoneDeletes, NoDeletion;
      var rest := OpsGrow(e, es, es'[..last], name);
      assert (es + es')[..|es + es'| - 1] == es + es'[..last];
      var w := PlayAll(e, es + es'[..last]);
      var added := PlayAdds(e, w, es'[last], name);
      more := rest + added;
      assert PlayAll(e, es + es').ops == w.ops + added;
      hide PlayAll;
      assert w.ops + added == PlayAll(e, es).ops + (rest + added);
      NoDeletionJoins(rest, added, name);
    }
  }

  lemma NoDeletionJoins(a: seq<Op>, b: seq<Op>, name: Name)
    requires NoDeletion(a, name) && NoDeletion(b, name)
    ensures NoDeletion(a + b, name)
  {
  }

  lemma PlayAdds(e: Setup, w: World, ev: Event, name: Name) returns (added: seq<Op>)
    requires !(ev.Management? && ev.op.Delete? && ev.op.name == name)
    ensures Play(e, w, ev).ops == w.ops + added && NoDeletion(added, name)
  {
    hide Attest, FirstOpened, Step, NewId;
    added := match ev
      case Registration(c, rpId, userId, rk, f) => OpOf(e, w.store, c, rpId, userId, rk, f)
      case Management(op) => [op]
      case _ => [];
    assert w.ops + [] == w.ops;
  }

  /** Registering with the world as it is, the sessions unchanged between the two looks. */
  function Answered(e: Setup, w: World, ev: Event): AttestationAnswer
    requires ev.Registration?
  {
    Attest(e, w.home, Looks(w.store, w.store), ev.c, ev.rpId, ev.userId, ev.rk, ev.f).1
  }

  /** The wallet a registration uses. */
  function WalletOf(w: World, ev: Event): Passkey
    requires ev.Registration?
  {
    ResolvePasskey(Looks(w.store, w.store), ev.c)
  }

  /** A resident credential, once registered, on every channel that later unlocks the same
      wallet with a PIN, without being named by the caller, in every run and whatever other
      channels, other wallets and evictions there are, until something is deleted from that
      wallet. Let its PIN have been accepted there after the first `n` operations. Then an
      assertion raises exactly if, since, the last change of the wallet's PIN set one the
      session's hash does not open; otherwise it signs with the credential. */
  lemma ResidentIsFoundInRun(e: Setup, es: seq<Event>, ev: Event, es': seq<Event>, c': Cid, n: nat, list: seq<Allowed>)
    requires Laws(e.p) && ev.Registration? && ev.rk && Usable(e.p, ev.f)
    requires WalletOf(PlayAll(e, es), ev).Wallet? && Answered(e, PlayAll(e, es), ev).Created?
    requires NoneDeletes(es', WalletOf(PlayAll(e, es), ev).u.file)
    requires
      var later := PlayAll(e, es + [ev] + es');
      && c' in later.store && later.store[c'].unlocked.Some?
      && later.store[c'].unlocked.value.file == WalletOf(PlayAll(e, es), ev).u.file
      && UnlockedAt(e, later.ops, n, later.store[c'].unlocked.value)
    ensures
      var later := PlayAll(e, es + [ev] + es');
      var lost := PinLost(e, later.ops, n, later.store[c'].unlocked.value);
      var cred := Cred(ev.rpId, ev.userId, Answered(e, PlayAll(e, es), ev).id);
      && (Assert(e, later.home, later.store, c', ev.rpId, list).1.AssertionThrew? <==> lost)
      && (!lost ==> SignsWith(e, later.home, later.store, c', ev.rpId, list, cred, ev.f.material))
  {
    var w := PlayAll(e, es);
    var s := Looks(w.store, w.store);
    var u := ResolvePasskey(s, ev.c).u;
    NewIdRecovers(e, ev.rpId, u.kp, ev.f);
    AttestationIsRegistration(e, w.home, s, ev.c, ev.rpId, ev.userId, ev.rk, ev.f);
    var more := OpsGrow(e, es + [ev], es', u.file);
    assert (es + [ev])[..|es + [ev]| - 1] == es;
    assert PlayAll(e, es + [ev]).ops == w.ops + OpOf(e, w.store, ev.c, ev.rpId, ev.userId, ev.rk, ev.f);
    RunsKept(e, es);
    RunsKept(e, es + [ev] + es');
    var later := PlayAll(e, es + [ev] + es');
    hide Laws, Usable, PlayAll, Run, Attest, NewId, LoadFrom, UnlockedAt, Recovers, Candidates, Assert, PinLost,
      SignsWith;
    assert later.ops == Later(e, w.ops, s, ev.c, ev.rpId, ev.userId, ev.f, more);
    var n0: nat :| UnlockedAt(e, w.ops, n0, u);
    ResidentIsFoundAgain(e, w.ops, s, ev.c, ev.rpId, ev.userId, ev.f, n0, more, later.store, c', n, list);
  }

  /** Such an `n` there is for every unlocked session of every run. */
  lemma SessionsWereUnlocked(e: Setup, es: seq<Event>, c: Cid)
    requires c in PlayAll(e, es).store && PlayAll(e, es).store[c].unlocked.Some?
    ensures exists n: nat :: UnlockedAt(e, PlayAll(e, es).ops, n, PlayAll(e, es).store[c].unlocked.value)
  {
    hide PlayAll, Run, UnlockedAt;
    RunsKept(e, es);
  }

  // ---- Behind the gates ----

  const CREDENTIAL_EXCLUDED: byte := 0x19
  const NO_CREDENTIALS: byte := 0x2E

  type Mac = (seq<byte>, seq<byte>) -> seq<byte>

  /** Every read of the handler meets the session history as it is. */
  function Now(w: World): G.Reads { G.Reads(|w.history|, |w.history|, |w.history|, |w.history|) }

  /** MakeCredential with the credential operation behind its gates. */
  function MakeCredential(e: Setup, w: World, ev: Event, request: Option<G.Request>, hmac: Mac): G.Answer
    requires ev.Registration?
  {
    G.MakeCredential(w.history, Now(w), ev.c, request, hmac,
                     match Answered(e, w, ev)
                     case Created(_) => G.Produced
                     case Excluded => G.Failed(CREDENTIAL_EXCLUDED)
                     case AttestationThrew => G.OutcomeThrew)
  }

  /** GetAssertion with the assertion behind its gates. */
  function GetAssertion(e: Setup, w: World, c: Cid, request: Option<G.Request>, hmac: Mac, rpId: seq<byte>,
                        list: seq<Allowed>): G.Answer
  {
    G.GetAssertion(w.history, Now(w), c, request, hmac,
                   match Assert(e, w.home, w.store, c, rpId, list).1
                   case Signed(_, _, _) => G.Produced
                   case NoCredentials => G.Failed(NO_CREDENTIALS)
                   case AssertionThrew => G.OutcomeThrew)
  }

  /** What lets a GetAssertion through to the assertion: presence gathered, or a PIN
      accepted, on that channel with no eviction since; a complete request; and, where
      verification is demanded, or it is given, a pinUvAuthParam under the token of the
      latest PIN accepted there. */
  ghost predicate AssertionGates(w: World, c: Cid, request: Option<G.Request>, hmac: Mac) {
    && G.PresenceProved(w.history, Now(w), c) && request.Some? && request.value.complete
    && (request.value.uv ==> G.HasPinAuth(request.value))
    && (G.HasPinAuth(request.value) ==> G.TokenProved(w.history, Now(w), c, request.value, hmac))
  }

  lemma GetAssertionOk(e: Setup, w: World, c: Cid, request: Option<G.Request>, hmac: Mac, rpId: seq<byte>,
                       list: seq<Allowed>)
    ensures GetAssertion(e, w, c, request, hmac, rpId, list) == G.Status(G.OK)
       <==> AssertionGates(w, c, request, hmac) && Assert(e, w.home, w.store, c, rpId, list).1.Signed?
  {
    hide Assert, G.PresenceProved, G.TokenProved, G.GetAssertion;
    var out := match Assert(e, w.home, w.store, c, rpId, list).1
      case Signed(_, _, _) => G.Produced
      case NoCredentials => G.Failed(NO_CREDENTIALS)
      case AssertionThrew => G.OutcomeThrew;
    G.GetAssertionOkExactly(w.history, Now(w), c, request, hmac, out);
  }

  lemma MakeCredentialOkCreates(e: Setup, w: World, ev: Event, request: Option<G.Request>, hmac: Mac)
    requires ev.Registration? && MakeCredential(e, w, ev, request, hmac) == G.Status(G.OK)
    ensures Answered(e, w, ev).Created?
  {
    hide Answered, G.PresenceProved, G.TokenProved, G.MakeCredential;
    var out := match Answered(e, w, ev)
      case Created(_) => G.Produced
      case Excluded => G.Failed(CREDENTIAL_EXCLUDED)
      case AttestationThrew => G.OutcomeThrew;
    G.MakeCredentialOkExactly(w.history, Now(w), ev.c, request, hmac, out);
  }

  /** From request to request: a MakeCredential for a resident credential answered CTAP2_OK
      with a wallet, then anything without a deletion from that wallet, then a GetAssertion
      for the same RP on any channel that has unlocked it, naming no credential or any. It
      is answered CTAP2_OK exactly if its gates let it through and the wallet's PIN has not
      been changed, since it was unlocked there, to one the session's hash does not open. */
  lemma RegisteredThenAsserted(e: Setup, es: seq<Event>, ev: Event, made: Option<G.Request>, es': seq<Event>, c': Cid,
                               n: nat, request: Option<G.Request>, hmac: Mac, list: seq<Allowed>)
    requires Laws(e.p) && ev.Registration? && ev.rk && Usable(e.p, ev.f)
    requires MakeCredential(e, PlayAll(e, es), ev, made, hmac) == G.Status(G.OK)
    requires WalletOf(PlayAll(e, es), ev).Wallet? && NoneDeletes(es', WalletOf(PlayAll(e, es), ev).u.file)
    requires
      var later := PlayAll(e, es + [ev] + es');
      && c' in later.store && later.store[c'].unlocked.Some?
      && later.store[c'].unlocked.value.file == WalletOf(PlayAll(e, es), ev).u.file
      && UnlockedAt(e, later.ops, n, later.store[c'].unlocked.value)
    ensures
      var later := PlayAll(e, es + [ev] + es');
      var ok := GetAssertion(e, later, c', request, hmac, ev.rpId, list) == G.Status(G.OK);
      ok <==> AssertionGates(later, c', request, hmac) && !PinLost(e, later.ops, n, later.store[c'].unlocked.value)
  {
    hide PlayAll, MakeCredential, GetAssertion, AssertionGates, Answered, WalletOf, UnlockedAt, PinLost, Assert,
      Laws, Usable;
    var later := PlayAll(e, es + [ev] + es');
    MakeCredentialOkCreates(e, PlayAll(e, es), ev, made, hmac);
    ResidentIsFoundInRun(e, es, ev, es', c', n, list);
    GetAssertionOk(e, later, c', request, hmac, ev.rpId, list);
  }
}
