/** What each wallet operation does, told by what loads before it and after it. */
module WalletEffects {
  import opened Bytes
  import opened Crypto
  import opened PasskeyFile
  import opened IndexDeletion
  import opened WalletHome
  import opened WalletRuns

  /** Loading from the files after some operations. */
  function Loads(p: Primitives, platform: Key, ops: seq<Op>, name: Name, ph: seq<byte>): Result<Wallet> {
    LoadFrom(p, platform, Run(p, platform, ops), name, ph)
  }

  /** Whether an operation succeeds after some others. */
  function Succeeds(p: Primitives, platform: Key, ops: seq<Op>, op: Op): bool {
    Step(p, platform, Run(p, platform, ops), op).1
  }

  /** A PKCS12 file of this key, certificate and PIN hash has a length that fits 32 bits. */
  predicate Storable(p: Primitives, w: Wallet, salt: seq<byte>) {
    |p.pkcs12(w.key, w.x5c, p.b64enc(w.pinHash), salt)| < 0x1_0000_0000
  }

  /** The wallet is there for its 32-byte PIN hash and for the first 16 bytes of it. */
  function Held(w: Wallet, ph: seq<byte>): Result<Wallet> {
    if ph == w.pinHash || (|ph| == 16 && ph <= w.pinHash) then Success(w) else Raised
  }

  /** After `op` every wallet loads as before, but `name` as `w`. */
  ghost predicate Puts(p: Primitives, platform: Key, ops: seq<Op>, op: Op, name: Name, w: Wallet) {
    forall n, ph ::
      Loads(p, platform, ops + [op], n, ph) == if n == name then Held(w, ph) else Loads(p, platform, ops, n, ph)
  }

  ghost predicate Unchanged(p: Primitives, platform: Key, ops: seq<Op>, op: Op) {
    forall n, ph :: Loads(p, platform, ops + [op], n, ph) == Loads(p, platform, ops, n, ph)
  }

  lemma StorableFits(p: Primitives, w: Wallet, d: Draw)
    ensures Fits(p, w, d) <==> Storable(p, w, d.salt)
  {
    assert Pow256(4) == 0x1_0000_0000 by {
      assert Pow256(1) == 0x100 && Pow256(2) == 0x1_0000 && Pow256(3) == 0x100_0000;
    }
  }

  /** Both views of one more operation. */
  lemma OneMoreOp(p: Primitives, platform: Key, ops: seq<Op>, op: Op, n: Name, ph: seq<byte>)
    requires Laws(p)
    ensures
      var ws, (ws', ok) := AbstractRun(p, ops), AbstractStep(p, AbstractRun(p, ops), op);
      && Succeeds(p, platform, ops, op) == ok
      && Loads(p, platform, ops, n, ph) == (if n in ws then Held(ws[n], ph) else Raised)
      && Loads(p, platform, ops + [op], n, ph) == (if n in ws' then Held(ws'[n], ph) else Raised)
      && (n in ws ==> |ws[n].pinHash| == 32)
  {
    hide Laws, Represents, Step, AbstractStep, LoadFrom;
    assert (ops + [op])[..|ops|] == ops;
    RunsRefine(p, platform, ops, n, ph);
    RunsRefine(p, platform, ops + [op], n, ph);
    LoadFromExactly(p, platform, Run(p, platform, ops), AbstractRun(p, ops), n, ph);
    StepRefines(p, platform, Run(p, platform, ops), AbstractRun(p, ops), op);
  }

  /** A wallet comes to be under an unused name, without credentials. */
  lemma GenerateMakes(p: Primitives, platform: Key, ops: seq<Op>, name: Name, pin: seq<byte>, key: Key, x5c: Cert,
                      d: Draw)
    requires Laws(p)
    ensures
      var op, w := Generate(name, pin, key, x5c, d), Wallet(key, x5c, [], p.pinHash(pin));
      && (Succeeds(p, platform, ops, op) <==>
          (forall ph :: Loads(p, platform, ops, name, ph).Raised?) && Storable(p, w, d.salt))
      && (Succeeds(p, platform, ops, op) ==> Puts(p, platform, ops, op, name, w))
  {
    var op, w := Generate(name, pin, key, x5c, d), Wallet(key, x5c, [], p.pinHash(pin));
    hide Loads, Succeeds, Storable, Fits, AbstractRun, Laws;
    StorableFits(p, w, d);
    forall n, ph { OneMoreOp(p, platform, ops, op, n, ph); }
    OneMoreOp(p, platform, ops, op, name, []);
    var ws := AbstractRun(p, ops);
    if name in ws {
      assert Loads(p, platform, ops, name, ws[name].pinHash).Success?;
    }
  }

  /** Listing takes the PIN, and leaves every wallet as it was. */
  lemma ListShows(p: Primitives, platform: Key, ops: seq<Op>, name: Name, pin: seq<byte>, d: Draw)
    requires Laws(p)
    ensures
      var was := Loads(p, platform, ops, name, p.pinHash(pin));
      Succeeds(p, platform, ops, List(name, pin, d)) <==> was.Success? && Storable(p, was.value, d.salt)
    ensures Unchanged(p, platform, ops, List(name, pin, d))
  {
    hide Loads, Succeeds, Storable, Fits, AbstractRun;
    var ws := AbstractRun(p, ops);
    PinHashLength(p, pin);
    hide Laws;
    forall n, ph { OneMoreOp(p, platform, ops, List(name, pin, d), n, ph); }
    if name in ws {
      StorableFits(p, ws[name], d);
    }
  }

  /** Changing the PIN takes the current one; key, certificate and credentials stay. */
  lemma ChangePinRekeys(p: Primitives, platform: Key, ops: seq<Op>, name: Name, current: seq<byte>, new_: seq<byte>,
                        d: Draw)
    requires Laws(p)
    ensures
      var op, was := ChangePin(name, current, new_, d), Loads(p, platform, ops, name, p.pinHash(current));
      if was.Raised? then !Succeeds(p, platform, ops, op)
      else
        var w := Wallet(was.value.key, was.value.x5c, was.value.creds, p.pinHash(new_));
        && (Succeeds(p, platform, ops, op) <==> Storable(p, w, d.salt))
        && (Succeeds(p, platform, ops, op) ==> Puts(p, platform, ops, op, name, w))
  {
    hide Loads, Succeeds, Storable, Fits, AbstractRun;
    var op, ws := ChangePin(name, current, new_, d), AbstractRun(p, ops);
    PinHashLength(p, current);
    hide Laws;
    forall n, ph { OneMoreOp(p, platform, ops, op, n, ph); }
    if name in ws {
      StorableFits(p, ws[name].(pinHash := p.pinHash(new_)), d);
    }
  }

  /** Registering takes a hash that loads the wallet, and no credential for that RP and user
      in it. A resident credential goes behind those there; another changes nothing. */
  lemma RegisterAppends(p: Primitives, platform: Key, ops: seq<Op>, name: Name, ph: seq<byte>, cred: Cred,
                        resident: bool, d: Draw)
    requires Laws(p)
    ensures
      var op, was := Register(name, ph, cred, resident, d), Loads(p, platform, ops, name, ph);
      if was.Raised? then !Succeeds(p, platform, ops, op)
      else
        var creds := was.value.creds;
        var held := exists i :: 0 <= i < |creds| && creds[i].rpId == cred.rpId && creds[i].userId == cred.userId;
        && (Succeeds(p, platform, ops, op) <==> !held && (resident ==> Storable(p, was.value, d.salt)))
        && (Succeeds(p, platform, ops, op) && resident ==>
            Puts(p, platform, ops, op, name, was.value.(creds := creds + [cred])))
        && (Succeeds(p, platform, ops, op) && !resident ==> Unchanged(p, platform, ops, op))
  {
    hide Loads, Succeeds, Fits, AbstractRun, Laws;
    var op, ws := Register(name, ph, cred, resident, d), AbstractRun(p, ops);
    forall n, h { OneMoreOp(p, platform, ops, op, n, h); }
    if name in ws {
      StorableFits(p, ws[name].(creds := ws[name].creds + [cred]), d);
    }
  }

  /** `rest` are the elements of `all` at the positions outside `gone`, in their order. */
  ghost predicate Leaves<T>(all: seq<T>, gone: seq<int>, rest: seq<T>) {
    exists at: seq<nat> :: LeavesAt(all, gone, rest, at)
  }

  predicate LeavesAt<T(==)>(all: seq<T>, gone: seq<int>, rest: seq<T>, at: seq<nat>) {
    && |at| == |rest|
    && (forall j | 0 <= j < |at| :: at[j] < |all| && at[j] !in gone && rest[j] == all[at[j]])
    && (forall j, k | 0 <= j < k < |at| :: at[j] < at[k])
    && (forall i: nat | i < |all| && i !in gone :: i in at)
  }

  lemma {:induction false} KeepingLeaves<T>(all: seq<T>, gone: seq<int>) returns (at: seq<nat>)
    ensures LeavesAt(all, gone, Keeping(all, Elements(gone)), at)
  {
    if all == [] {
      at := [];
    } else {
      var n := |all| - 1;
      at := KeepingLeaves(all[..n], gone);
      if n !in gone {
        assert n !in Elements(gone);
        at := at + [n];
      }
    }
  }

  lemma KeepingIsRest<T>(all: seq<T>, gone: seq<int>)
    ensures Leaves(all, gone, Keeping(all, Elements(gone)))
  {
    var at := KeepingLeaves(all, gone);
  }

  /** Deleting takes the PIN, and removes exactly the credentials at the indices given,
      which must be of the list and distinct; the others stay in their order. */
  lemma DeleteRemoves(p: Primitives, platform: Key, ops: seq<Op>, name: Name, pin: seq<byte>, indices: seq<int>,
                      d: Draw, d': Draw)
    requires Laws(p)
    requires forall i, j | 0 <= i < j < |indices| :: indices[i] != indices[j]
    ensures
      var op, was := Delete(name, pin, indices, d, d'), Loads(p, platform, ops, name, p.pinHash(pin));
      if was.Raised? then !Succeeds(p, platform, ops, op)
      else
        && (Succeeds(p, platform, ops, op) <==>
            && (forall i | 0 <= i < |indices| :: 0 <= indices[i] < |was.value.creds|)
            && Storable(p, was.value, d.salt) && Storable(p, was.value, d'.salt))
        && (Succeeds(p, platform, ops, op) ==>
            exists rest :: Leaves(was.value.creds, indices, rest)
                        && Puts(p, platform, ops, op, name, was.value.(creds := rest)))
  {
    hide Loads, Succeeds, Fits, AbstractRun, DeleteEach, SortDescending, Keeping, Leaves;
    var op, ws := Delete(name, pin, indices, d, d'), AbstractRun(p, ops);
    PinHashLength(p, pin);
    hide Laws;
    forall n, h { OneMoreOp(p, platform, ops, op, n, h); }
    if name in ws && ws[name].pinHash == p.pinHash(pin) {
      var w := ws[name];
      StorableFits(p, w, d);
      if AllValid(indices, |w.creds|) {
        DeletesExactlyIfDistinct(w.creds, indices);
        var rest := Keeping(w.creds, Elements(indices));
        StorableFits(p, w.(creds := rest), d');
        KeepingIsRest(w.creds, indices);
      }
    }
  }
}
