/** The directory of wallets and the operations on it: key_pair.py's load, save and
    update, and the credential service (soft_fido2/qt/svc/credential_service.py). */
module WalletHome {
  import opened Bytes
  import opened Crypto
  import opened PasskeyFile
  import opened IndexDeletion

  type Name = string

  datatype Home = Home(passkeys: map<Name, seq<byte>>, stashes: map<Name, seq<byte>>)

  function LoadFrom(p: Primitives, platform: Key, home: Home, name: Name, ph: seq<byte>): Result<Wallet> {
    if name !in home.passkeys || name !in home.stashes then Raised
    else Load(p, platform, home.passkeys[name], home.stashes[name], ph)
  }

  function SaveTo(p: Primitives, platform: Key, home: Home, name: Name, w: Wallet, d: Draw): Result<Home> {
    match Save(p, platform, w, d)
    case Raised => Raised
    case Success((body, stash)) => Success(Home(home.passkeys[name := body], home.stashes[name := stash]))
  }

  /** Saves, and says whether that went through; an exception leaves the files alone. */
  function Try(home: Home, r: Result<Home>): (Home, bool) {
    if r.Success? then (r.value, true) else (home, false)
  }

  function Existing(creds: seq<Cred>, rpId: seq<byte>, userId: seq<byte>): bool {
    exists i | 0 <= i < |creds| :: creds[i].rpId == rpId && creds[i].userId == userId
  }

  datatype Op =
    | Generate(name: Name, pin: seq<byte>, key: Key, x5c: Cert, d: Draw)
    | List(name: Name, pin: seq<byte>, d: Draw)
    | Delete(name: Name, pin: seq<byte>, indices: seq<int>, d: Draw, d': Draw)
    | ChangePin(name: Name, current: seq<byte>, new_: seq<byte>, d: Draw)
    | Register(name: Name, ph: seq<byte>, cred: Cred, resident: bool, d: Draw)

  /** `load_credentials`: also writes the wallet back. */
  function ListCredentials(p: Primitives, platform: Key, home: Home, name: Name, pin: seq<byte>, d: Draw)
    : (Home, Result<Wallet>)
  {
    match LoadFrom(p, platform, home, name, p.pinHash(pin))
    case Raised => (home, Raised)
    case Success(w) =>
      match SaveTo(p, platform, home, name, w, d)
      case Raised => (home, Raised)
      case Success(home') => (home', Success(w))
  }

  function DeleteCredentials(p: Primitives, platform: Key, home: Home, name: Name, pin: seq<byte>,
                             indices: seq<int>, d: Draw, d': Draw): (Home, bool) {
    var (home', r) := ListCredentials(p, platform, home, name, pin, d);
    if r.Raised? || !AllValid(indices, |r.value.creds|) then (home', false)
    else
      var rest := DeleteEach(r.value.creds, SortDescending(indices));
      var again := LoadFrom(p, platform, home', name, p.pinHash(pin));
      if rest.Raised? || again.Raised? then (home', false)
      else Try(home', SaveTo(p, platform, home', name, again.value.(creds := rest.value), d'))
  }

  /** `update_passkey`: append a resident credential. */
  function UpdatePasskey(p: Primitives, platform: Key, home: Home, name: Name, ph: seq<byte>, cred: Cred,
                         d: Draw): Result<Home>
  {
    match LoadFrom(p, platform, home, name, ph)
    case Raised => Raised
    case Success(w) => SaveTo(p, platform, home, name, w.(creds := w.creds + [cred]), d)
  }

  /** What a registration does to the files: refuse a user the RP already has a credential
      for, and append the new one if it is to be resident. */
  function RegisterIn(p: Primitives, platform: Key, home: Home, name: Name, ph: seq<byte>, cred: Cred, resident: bool,
                      d: Draw): (Home, bool)
  {
    match LoadFrom(p, platform, home, name, ph)
    case Raised => (home, false)
    case Success(w) =>
      if Existing(w.creds, cred.rpId, cred.userId) then (home, false)
      else if !resident then (home, true)
      else Try(home, UpdatePasskey(p, platform, home, name, ph, cred, d))
  }

  function Step(p: Primitives, platform: Key, home: Home, op: Op): (Home, bool) {
    match op
    case Generate(name, pin, key, x5c, d) =>
      if name in home.passkeys then (home, false)
      else Try(home, SaveTo(p, platform, home, name, Wallet(key, x5c, [], p.pinHash(pin)), d))
    case List(name, pin, d) =>
      var (home', r) := ListCredentials(p, platform, home, name, pin, d);
      (home', r.Success?)
    case Delete(name, pin, indices, d, d') => DeleteCredentials(p, platform, home, name, pin, indices, d, d')
    case ChangePin(name, current, new_, d) =>
      (match LoadFrom(p, platform, home, name, p.pinHash(current))
       case Raised => (home, false)
       case Success(w) => Try(home, SaveTo(p, platform, home, name, w.(pinHash := p.pinHash(new_)), d)))
    case Register(name, ph, cred, resident, d) => RegisterIn(p, platform, home, name, ph, cred, resident, d)
  }

  function Run(p: Primitives, platform: Key, ops: seq<Op>): Home {
    if ops == [] then Home(map[], map[])
    else Step(p, platform, Run(p, platform, ops[..|ops| - 1]), ops[|ops| - 1]).0
  }

  class FidoHome {
    const p: Primitives
    const platform: Key
    var passkeys: map<Name, seq<byte>>
    var stashes: map<Name, seq<byte>>

    function View(): Home
      reads this
    {
      Home(passkeys, stashes)
    }

    constructor (p: Primitives, platform: Key)
      ensures this.p == p && this.platform == platform && View() == Home(map[], map[])
    {
      this.p, this.platform := p, platform;
      passkeys, stashes := map[], map[];
    }

    method LoadPasskey(ph: seq<byte>, name: Name) returns (r: Result<Wallet>)
      ensures r == LoadFrom(p, platform, View(), name, ph)
    {
      if name !in passkeys || name !in stashes { return Raised; }
      r := Load(p, platform, passkeys[name], stashes[name], ph);
    }

    method SavePasskey(w: Wallet, name: Name, d: Draw) returns (ok: bool)
      modifies this
      ensures (View(), ok) == Try(old(View()), SaveTo(p, platform, old(View()), name, w, d))
    {
      var files := Save(p, platform, w, d);
      if files.Raised? { return false; }
      passkeys := passkeys[name := files.value.0];
      stashes := stashes[name := files.value.1];
      ok := true;
    }

    method GeneratePasskey(name: Name, pin: seq<byte>, key: Key, x5c: Cert, d: Draw) returns (ok: bool)
      modifies this
      ensures (View(), ok) == Step(p, platform, old(View()), Generate(name, pin, key, x5c, d))
    {
      if name in passkeys { return false; }
      ok := SavePasskey(Wallet(key, x5c, [], p.pinHash(pin)), name, d);
    }

    method AppendCredential(cred: Cred, ph: seq<byte>, name: Name, d: Draw) returns (ok: bool)
      modifies this
      ensures (View(), ok) == Try(old(View()), UpdatePasskey(p, platform, old(View()), name, ph, cred, d))
    {
      var r := LoadPasskey(ph, name);
      if r.Raised? { return false; }
      ok := SavePasskey(r.value.(creds := r.value.creds + [cred]), name, d);
    }

    method LoadCredentials(name: Name, pin: seq<byte>, d: Draw) returns (r: Result<Wallet>)
      modifies this
      ensures (View(), r) == ListCredentials(p, platform, old(View()), name, pin, d)
    {
      r := LoadPasskey(p.pinHash(pin), name);
      if r.Raised? { return; }
      var ok := SavePasskey(r.value, name, d);
      if !ok { r := Raised; }
    }

    method DeleteCredentialsByIndex(name: Name, pin: seq<byte>, indices: seq<int>, d: Draw, d': Draw) returns (ok: bool)
      modifies this
      ensures (View(), ok) == Step(p, platform, old(View()), Delete(name, pin, indices, d, d'))
    {
      hide ListCredentials, LoadFrom, SaveTo, DeleteEach, SortDescending;
      var r := LoadCredentials(name, pin, d);
      if r.Raised? { return false; }
      for i := 0 to |indices|
        invariant View() == ListCredentials(p, platform, old(View()), name, pin, d).0
        invariant AllValid(indices[..i], |r.value.creds|)
      {
        if indices[i] < 0 || indices[i] >= |r.value.creds| { return false; }
        assert indices[..i + 1] == indices[..i] + [indices[i]];
      }
      assert indices[..|indices|] == indices;
      var rest := DeleteByIndex(r.value.creds, indices);
      if rest.Raised? { return false; }
      var again := LoadPasskey(p.pinHash(pin), name);
      if again.Raised? { return false; }
      ok := SavePasskey(again.value.(creds := rest.value), name, d');
    }

    method UpdatePin(name: Name, current: seq<byte>, new_: seq<byte>, d: Draw) returns (ok: bool)
      modifies this
      ensures (View(), ok) == Step(p, platform, old(View()), ChangePin(name, current, new_, d))
    {
      var r := LoadPasskey(p.pinHash(current), name);
      if r.Raised? { return false; }
      ok := SavePasskey(r.value.(pinHash := p.pinHash(new_)), name, d);
    }
  }
}
