/** Over every run of wallet operations, the files on disk are exactly the abstract
    wallets, and no wallet holds two resident credentials for one user of one RP. */
module WalletRuns {
  import opened Bytes
  import opened Crypto
  import opened PasskeyFile
  import opened IndexDeletion
  import opened WalletHome

  type Wallets = map<Name, Wallet>

  // ---- The operations on wallets, no files in sight ----

  /** The current PIN hash or its first half opens a wallet. */
  predicate Opens(w: Wallet, ph: seq<byte>) {
    ph == w.pinHash || (|ph| == HALF_HASH && ph <= w.pinHash)
  }

  /** A PKCS12 file whose length does not fit four bytes cannot be saved. */
  predicate Fits(p: Primitives, w: Wallet, d: Draw) {
    |p.pkcs12(w.key, w.x5c, p.b64enc(w.pinHash), d.salt)| < Pow256(4)
  }

  function Put(p: Primitives, ws: Wallets, name: Name, w: Wallet, d: Draw): (Wallets, bool) {
    if Fits(p, w, d) then (ws[name := w], true) else (ws, false)
  }

  function AbstractStep(p: Primitives, ws: Wallets, op: Op): (Wallets, bool) {
    match op
    case Generate(name, pin, key, x5c, d) =>
      if name in ws then (ws, false) else Put(p, ws, name, Wallet(key, x5c, [], p.pinHash(pin)), d)
    case List(name, pin, d) => (ws, name in ws && ws[name].pinHash == p.pinHash(pin) && Fits(p, ws[name], d))
    case Delete(name, pin, indices, d, d') =>
      if name !in ws || ws[name].pinHash != p.pinHash(pin) || !Fits(p, ws[name], d) then (ws, false)
      else
        var w := ws[name];
        if !AllValid(indices, |w.creds|) || DeleteEach(w.creds, SortDescending(indices)).Raised? then (ws, false)
        else Put(p, ws, name, w.(creds := DeleteEach(w.creds, SortDescending(indices)).value), d')
    case ChangePin(name, current, new_, d) =>
      if name !in ws || ws[name].pinHash != p.pinHash(current) then (ws, false)
      else Put(p, ws, name, ws[name].(pinHash := p.pinHash(new_)), d)
    case Register(name, ph, cred, resident, d) =>
      if name !in ws || !Opens(ws[name], ph) || Existing(ws[name].creds, cred.rpId, cred.userId) then (ws, false)
      else if !resident then (ws, true)
      else Put(p, ws, name, ws[name].(creds := ws[name].creds + [cred]), d)
  }

  function AbstractRun(p: Primitives, ops: seq<Op>): Wallets {
    if ops == [] then map[] else AbstractStep(p, AbstractRun(p, ops[..|ops| - 1]), ops[|ops| - 1]).0
  }

  // ---- The files refine them ----

  ghost predicate FilesOf(p: Primitives, platform: Key, home: Home, name: Name, w: Wallet) {
    && name in home.passkeys && name in home.stashes
    && BodyOf(p, platform, home.passkeys[name], w) && StashOf(p, platform, home.stashes[name], w)
  }

  ghost predicate Represents(p: Primitives, platform: Key, home: Home, ws: Wallets) {
    && home.passkeys.Keys == ws.Keys
    && (forall name | name in ws :: FilesOf(p, platform, home, name, ws[name]))
  }

  lemma PinHashLength(p: Primitives, pin: seq<byte>)
    requires Laws(p)
    ensures |p.pinHash(pin)| == HASH_LENGTH
  {
  }

  /** Completing half a hash from the stash gives the whole exactly if it is its first half. */
  lemma HalfCompletes(ph: seq<byte>, full: seq<byte>)
    requires |full| == HASH_LENGTH
    ensures (if |ph| == HALF_HASH then ph + full[HALF_HASH..] else ph) == full
       <==> (ph == full || (|ph| == HALF_HASH && ph <= full))
  {
    assert full == full[..HALF_HASH] + full[HALF_HASH..];
    if |ph| == HALF_HASH {
      assert (ph + full[HALF_HASH..])[..HALF_HASH] == ph;
    }
  }

  lemma LoadFromExactly(p: Primitives, platform: Key, home: Home, ws: Wallets, name: Name, ph: seq<byte>)
    requires Laws(p) && Represents(p, platform, home, ws)
    ensures LoadFrom(p, platform, home, name, ph)
         == if name in ws && Opens(ws[name], ph) then Success(ws[name]) else Raised
    ensures name in ws ==> |ws[name].pinHash| == HASH_LENGTH
  {
    hide Laws, Load, BodyOf, StashOf;
    if name in ws {
      assert FilesOf(p, platform, home, name, ws[name]);
      var w := ws[name];
      LoadExactly(p, platform, home.passkeys[name], home.stashes[name], w, w, ph);
      HalfCompletes(ph, w.pinHash);
    }
  }

  /** A save goes through exactly if the PKCS12 file fits, and writes files of its wallet. */
  lemma SaveExactly(p: Primitives, platform: Key, w: Wallet, d: Draw)
    requires Laws(p) && |w.pinHash| == HASH_LENGTH
    ensures
      var r := Save(p, platform, w, d);
      if Fits(p, w, d)
      then r.Success? && BodyOf(p, platform, r.value.0, w) && StashOf(p, platform, r.value.1, w)
      else r.Raised?
  {
    hide EcEncrypt, EcDecrypt, Pow256;
    EcDecryptInverts(p, w.pinHash[HALF_HASH..], platform, d.anon0, d.iv0);
    EcDecryptInverts(p, p.dumps(w.creds), w.key, d.anon1, d.iv1);
    hide Laws;
  }

  lemma SaveToExactly(p: Primitives, platform: Key, home: Home, ws: Wallets, name: Name, w: Wallet, d: Draw)
    requires Laws(p) && Represents(p, platform, home, ws) && |w.pinHash| == HASH_LENGTH
    ensures
      var r := SaveTo(p, platform, home, name, w, d);
      if Fits(p, w, d) then r.Success? && Represents(p, platform, r.value, ws[name := w]) else r.Raised?
  {
    hide Laws, Fits, Save, BodyOf, StashOf;
    SaveExactly(p, platform, w, d);
    var r := SaveTo(p, platform, home, name, w, d);
    if r.Success? {
      forall n | n in ws && n != name
        ensures FilesOf(p, platform, r.value, n, ws[n])
      {
        assert FilesOf(p, platform, home, n, ws[n]);
      }
    }
  }

  lemma ListRefines(p: Primitives, platform: Key, home: Home, ws: Wallets, name: Name, pin: seq<byte>, d: Draw)
    requires Laws(p) && Represents(p, platform, home, ws)
    ensures
      var (home', r) := ListCredentials(p, platform, home, name, pin, d);
      && Represents(p, platform, home', ws)
      && r == if name in ws && ws[name].pinHash == p.pinHash(pin) && Fits(p, ws[name], d)
              then Success(ws[name]) else Raised
  {
    hide Represents, LoadFrom, SaveTo, Fits, Laws;
    PinHashLength(p, pin);
    LoadFromExactly(p, platform, home, ws, name, p.pinHash(pin));
    if name in ws && ws[name].pinHash == p.pinHash(pin) {
      SaveToExactly(p, platform, home, ws, name, ws[name], d);
      assert ws[name := ws[name]] == ws;
    }
  }

  /** One operation on the files and on the wallets: the same outcome, and the files still
      those of the wallets. */
  ghost predicate Refines(p: Primitives, platform: Key, home: Home, ws: Wallets, op: Op) {
    var (home', ok) := Step(p, platform, home, op);
    var (ws', ok') := AbstractStep(p, ws, op);
    ok == ok' && Represents(p, platform, home', ws')
  }

  lemma GenerateRefines(p: Primitives, platform: Key, home: Home, ws: Wallets, op: Op)
    requires op.Generate? && Laws(p) && Represents(p, platform, home, ws)
    ensures Refines(p, platform, home, ws, op)
  {
    hide Laws, SaveTo, Fits, FilesOf;
    PinHashLength(p, op.pin);
    SaveToExactly(p, platform, home, ws, op.name, Wallet(op.key, op.x5c, [], p.pinHash(op.pin)), op.d);
    assert op.name in home.passkeys <==> op.name in ws;
  }

  lemma DeleteRefines(p: Primitives, platform: Key, home: Home, ws: Wallets, op: Op)
    requires op.Delete? && Laws(p) && Represents(p, platform, home, ws)
    ensures Refines(p, platform, home, ws, op)
  {
    hide Represents, LoadFrom, SaveTo, Fits, Laws, ListCredentials, DeleteEach, SortDescending, AllValid;
    PinHashLength(p, op.pin);
    var (home', r) := ListCredentials(p, platform, home, op.name, op.pin, op.d);
    ListRefines(p, platform, home, ws, op.name, op.pin, op.d);
    LoadFromExactly(p, platform, home', ws, op.name, p.pinHash(op.pin));
    if r.Success? && DeleteEach(r.value.creds, SortDescending(op.indices)).Success? {
      var rest := DeleteEach(r.value.creds, SortDescending(op.indices)).value;
      SaveToExactly(p, platform, home', ws, op.name, r.value.(creds := rest), op.d');
    }
  }

  lemma ChangePinRefines(p: Primitives, platform: Key, home: Home, ws: Wallets, op: Op)
    requires op.ChangePin? && Laws(p) && Represents(p, platform, home, ws)
    ensures Refines(p, platform, home, ws, op)
  {
    hide Represents, LoadFrom, SaveTo, Fits, Laws;
    PinHashLength(p, op.current);
    PinHashLength(p, op.new_);
    LoadFromExactly(p, platform, home, ws, op.name, p.pinHash(op.current));
    if op.name in ws {
      SaveToExactly(p, platform, home, ws, op.name, ws[op.name].(pinHash := p.pinHash(op.new_)), op.d);
    }
  }

  lemma RegisterRefines(p: Primitives, platform: Key, home: Home, ws: Wallets, op: Op)
    requires op.Register? && Laws(p) && Represents(p, platform, home, ws)
    ensures Refines(p, platform, home, ws, op)
  {
    hide Represents, LoadFrom, SaveTo, Fits, Laws, Existing, Opens;
    LoadFromExactly(p, platform, home, ws, op.name, op.ph);
    if op.name in ws {
      SaveToExactly(p, platform, home, ws, op.name, ws[op.name].(creds := ws[op.name].creds + [op.cred]), op.d);
    }
  }

  lemma StepRefines(p: Primitives, platform: Key, home: Home, ws: Wallets, op: Op)
    requires Laws(p) && Represents(p, platform, home, ws)
    ensures Refines(p, platform, home, ws, op)
  {
    hide Represents, Fits, Laws, ListCredentials, DeleteCredentials, RegisterIn, SaveTo, LoadFrom;
    match op {
      case Generate(_, _, _, _, _) => GenerateRefines(p, platform, home, ws, op);
      case List(name, pin, d) => ListRefines(p, platform, home, ws, name, pin, d);
      case Delete(_, _, _, _, _) => DeleteRefines(p, platform, home, ws, op);
      case ChangePin(_, _, _, _) => ChangePinRefines(p, platform, home, ws, op);
      case Register(_, _, _, _, _) => RegisterRefines(p, platform, home, ws, op);
    }
  }

  /** After any run the wallet files are those of the abstract wallets; so loading gives
      exactly the current record, with its full PIN hash, to whoever has that hash or its
      first half, and nothing to anyone else. */
  lemma {:induction false} RunsRefine(p: Primitives, platform: Key, ops: seq<Op>, name: Name, ph: seq<byte>)
    requires Laws(p)
    ensures Represents(p, platform, Run(p, platform, ops), AbstractRun(p, ops))
    ensures
      var ws := AbstractRun(p, ops);
      LoadFrom(p, platform, Run(p, platform, ops), name, ph)
        == if name in ws && Opens(ws[name], ph) then Success(ws[name]) else Raised
  {
    if ops != [] {
      RunsRefine(p, platform, ops[..|ops| - 1], name, ph);
      StepRefines(p, platform, Run(p, platform, ops[..|ops| - 1]), AbstractRun(p, ops[..|ops| - 1]), ops[|ops| - 1]);
      hide Represents, Step, AbstractStep, Laws;
    }
    LoadFromExactly(p, platform, Run(p, platform, ops), AbstractRun(p, ops), name, ph);
    hide Represents, LoadFrom, Laws;
  }

  /** An operation that fails, for whatever reason and wherever it stops, takes nothing
      away: every wallet loads afterwards as it did before, even if it was rewritten. */
  lemma FailureLosesNothing(p: Primitives, platform: Key, ops: seq<Op>, op: Op, name: Name, ph: seq<byte>)
    requires Laws(p) && !Step(p, platform, Run(p, platform, ops), op).1
    ensures LoadFrom(p, platform, Step(p, platform, Run(p, platform, ops), op).0, name, ph)
         == LoadFrom(p, platform, Run(p, platform, ops), name, ph)
  {
    hide Represents, Laws, Step, Run, AbstractRun, LoadFrom, Opens;
    var home, ws := Run(p, platform, ops), AbstractRun(p, ops);
    RunsRefine(p, platform, ops, name, ph);
    StepRefines(p, platform, home, ws, op);
    FailedStep(p, ws, op);
    LoadFromExactly(p, platform, Step(p, platform, home, op).0, ws, name, ph);
  }

  lemma FailedStep(p: Primitives, ws: Wallets, op: Op)
    requires !AbstractStep(p, ws, op).1
    ensures AbstractStep(p, ws, op).0 == ws
  {
    hide Fits, DeleteEach, SortDescending, AllValid, Opens, Existing;
  }

  // ---- One resident credential per user and RP ----

  predicate NoRepeats(creds: seq<Cred>) {
    forall i, j | 0 <= i < j < |creds| :: !(creds[i].rpId == creds[j].rpId && creds[i].userId == creds[j].userId)
  }

  lemma {:induction false} DeletingKeepsNoRepeats(creds: seq<Cred>, order: seq<int>)
    requires NoRepeats(creds) && DeleteEach(creds, order).Success?
    ensures NoRepeats(DeleteEach(creds, order).value)
  {
    if order != [] {
      DeletingKeepsNoRepeats(creds[..order[0]] + creds[order[0] + 1..], order[1..]);
    }
  }

  lemma {:induction false} WalletsHaveNoRepeats(p: Primitives, ops: seq<Op>)
    ensures forall name | name in AbstractRun(p, ops) :: NoRepeats(AbstractRun(p, ops)[name].creds)
  {
    if ops != [] {
      WalletsHaveNoRepeats(p, ops[..|ops| - 1]);
      var ws, op := AbstractRun(p, ops[..|ops| - 1]), ops[|ops| - 1];
      if op.Delete? && op.name in ws && DeleteEach(ws[op.name].creds, SortDescending(op.indices)).Success? {
        DeletingKeepsNoRepeats(ws[op.name].creds, SortDescending(op.indices));
      }
      hide Fits, SortDescending, DeleteEach, AllValid;
    }
  }

  /** Whatever a run of registrations, deletions and PIN changes, and whoever loads a
      wallet afterwards, finds at most one resident credential for each user of each RP. */
  lemma ResidentsAreUnique(p: Primitives, platform: Key, ops: seq<Op>, name: Name, ph: seq<byte>)
    requires Laws(p) && LoadFrom(p, platform, Run(p, platform, ops), name, ph).Success?
    ensures NoRepeats(LoadFrom(p, platform, Run(p, platform, ops), name, ph).value.creds)
  {
    RunsRefine(p, platform, ops, name, ph);
    WalletsHaveNoRepeats(p, ops);
    hide LoadFrom, Represents, Laws;
  }
}
