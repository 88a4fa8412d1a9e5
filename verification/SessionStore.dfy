/** The authenticator's per-channel state (soft_fido2/ctap/api.py, class-level
    `_open_keys`): who was present, the PIN protocol key, the unlocked wallet. Every
    access happens under one lock, so each action here is one atomic step. */
module SessionStore {
  import opened Bytes
  import opened PasskeyDevice

  const EXPIRY: int := 30          // seconds
  const PRESENCE_TIMEOUT := 15.0   // seconds

  type Key = seq<byte>
  type Cert = seq<byte>
  type Name = string

  /** The entry `pin_token_kp`: not in the dictionary, in it as None, or a key pair. */
  datatype KeySlot = Absent | Null | Present(key: Key)

  datatype UserState = Verified | PresentOnly

  /** What a successful PIN validation stores. */
  datatype Unlock = Unlock(x5c: Cert, kp: Key, file: Name, ph: seq<byte>, pinAuth: seq<byte>)

  datatype Entry = Entry(tStart: real, upv: Option<UserState>, pinTokenKp: KeySlot, unlocked: Option<Unlock>)

  type Store = map<Cid, Entry>

  datatype Action =
    | CacheUp(cid: Cid, state: UserState, now: real)
    | KeyAgreement(cid: Cid, drawn: Key, now: real)      // `drawn`: the pair generated if one is needed
    | Decapsulate(cid: Cid, now: real)                   // a PIN is sent: its shared secret is computed
    | PinAccepted(cid: Cid, unlock: Unlock, now: real)
    | Check(cid: Cid, now: real)                         // the watchdog looks at one entry

  predicate Expired(e: Entry, now: real) {
    (now - e.tStart).Floor == EXPIRY
  }

  function Slot(s: Store, c: Cid): KeySlot {
    if c in s then s[c].pinTokenKp else Absent
  }

  predicate HasUp(s: Store, c: Cid) {
    c in s && s[c].upv.Some?
  }

  function Token(s: Store, c: Cid): Option<seq<byte>> {
    if c in s && s[c].unlocked.Some? then Some(s[c].unlocked.value.pinAuth) else None
  }

  function Apply(s: Store, a: Action): Store {
    match a
    case CacheUp(c, state, now) =>
      if c in s then s[c := s[c].(upv := Some(state))]
      else s[c := Entry(now, Some(state), Absent, None)]
    case KeyAgreement(c, drawn, now) =>
      if c !in s then s[c := Entry(now, None, Present(drawn), None)]
      else if s[c].pinTokenKp.Absent? then s[c := s[c].(pinTokenKp := Present(drawn))]
      else s
    case Decapsulate(c, now) => s
    case PinAccepted(c, unlock, now) =>
      s[c := Entry(now, Some(Verified), if Slot(s, c).Present? then Slot(s, c) else Null, Some(unlock))]
    case Check(c, now) =>
      if c in s && Expired(s[c], now) then s - {c} else s
  }

  function ApplyAll(s: Store, h: seq<Action>): Store {
    if h == [] then s else Apply(ApplyAll(s, h[..|h| - 1]), h[|h| - 1])
  }

  /** One pass of the polling loop: whether a fingerprint result or a click is waiting
      (true for success, or for accepting), and the time read at its start. */
  datatype Poll = Poll(now: real, fprint: Option<bool>, click: Option<bool>)

  predicate Accepts(fprintAvailable: bool, p: Poll) {
    (fprintAvailable && p.fprint == Some(true)) || p.click == Some(true)
  }

  predicate Rejects(fprintAvailable: bool, p: Poll) {
    !Accepts(fprintAvailable, p) && p.click == Some(false)
  }

  /** The user accepted before rejecting and before the time ran out. */
  predicate Granted(fprintAvailable: bool, start: real, polls: seq<Poll>) {
    exists i | 0 <= i < |polls| ::
      && Accepts(fprintAvailable, polls[i])
      && (forall j | 0 <= j < i :: polls[j].now - start < PRESENCE_TIMEOUT && !Rejects(fprintAvailable, polls[j]))
  }

  class AuthenticatorApi {
    var openKeys: Store

    constructor ()
      ensures openKeys == map[]
    {
      openKeys := map[];
    }

    method CacheUserPresence(cid: Cid, state: UserState, now: real)
      modifies this
      ensures openKeys == Apply(old(openKeys), CacheUp(cid, state, now))
    {
      if cid in openKeys {
        openKeys := openKeys[cid := openKeys[cid].(upv := Some(state))];
      } else {
        openKeys := openKeys[cid := Entry(now, Some(state), Absent, None)];
      }
    }

    /** None is what the code returns for a channel whose pair was stored as None. */
    method GetOrCreatePinTokenKp(cid: Cid, drawn: Key, now: real) returns (kp: Option<Key>)
      modifies this
      ensures openKeys == Apply(old(openKeys), KeyAgreement(cid, drawn, now))
      ensures kp == if Slot(openKeys, cid).Present? then Some(Slot(openKeys, cid).key) else None
    {
      if cid !in openKeys {
        openKeys := openKeys[cid := Entry(now, None, Present(drawn), None)];
      } else if openKeys[cid].pinTokenKp.Absent? {
        openKeys := openKeys[cid := openKeys[cid].(pinTokenKp := Present(drawn))];
      }
      kp := if openKeys[cid].pinTokenKp.Present? then Some(openKeys[cid].pinTokenKp.key) else None;
    }

    /** None is an exception: no entry, no pair in it, or a pair stored as None. */
    method DecapsulationKey(cid: Cid, now: real) returns (kp: Option<Key>)
      ensures openKeys == Apply(openKeys, Decapsulate(cid, now))
      ensures kp == if Slot(openKeys, cid).Present? then Some(Slot(openKeys, cid).key) else None
    {
      if cid !in openKeys || openKeys[cid].pinTokenKp.Absent? { return None; }
      kp := if openKeys[cid].pinTokenKp.Present? then Some(openKeys[cid].pinTokenKp.key) else None;
    }

    method ProcessPasskeyFile(cid: Cid, unlock: Unlock, now: real)
      modifies this
      ensures openKeys == Apply(old(openKeys), PinAccepted(cid, unlock, now))
    {
      var existing := if cid in openKeys && openKeys[cid].pinTokenKp.Present? then openKeys[cid].pinTokenKp else Null;
      openKeys := openKeys[cid := Entry(now, Some(Verified), existing, Some(unlock))];
    }

    /** One pass of the watchdog over the channels present when it took the lock, each
        compared with its own reading of the clock. */
    method TokenExpiryCheck(cidList: seq<Cid>, clock: seq<real>)
      requires |cidList| == |clock|
      requires forall i | 0 <= i < |cidList| :: cidList[i] in openKeys
      requires forall i, j | 0 <= i < j < |cidList| :: cidList[i] != cidList[j]
      modifies this
      ensures openKeys == ApplyAll(old(openKeys), Checks(cidList, clock))
      ensures forall c | c in old(openKeys) :: c !in openKeys <==>
        exists i | 0 <= i < |cidList| :: cidList[i] == c && Expired(old(openKeys)[c], clock[i])
      ensures forall c | c in openKeys :: c in old(openKeys) && openKeys[c] == old(openKeys)[c]
    {
      hide ApplyAll, Checks, Expired;
      var i := 0;
      NoChecks(old(openKeys), cidList, clock);
      while i < |cidList|
        invariant i <= |cidList|
        invariant openKeys == ApplyAll(old(openKeys), Checks(cidList[..i], clock[..i]))
        invariant forall c | c in openKeys :: c in old(openKeys) && openKeys[c] == old(openKeys)[c]
        invariant forall c | c in old(openKeys) :: c !in openKeys <==>
          exists j | 0 <= j < i :: cidList[j] == c && Expired(old(openKeys)[c], clock[j])
      {
        OneMoreCheck(old(openKeys), cidList, clock, i);
        if Expired(openKeys[cidList[i]], clock[i]) {
          openKeys := openKeys - {cidList[i]};
        }
        i := i + 1;
      }
      assert cidList[..i] == cidList && clock[..i] == clock;
    }

    /** `polls` are the passes of the polling loop until it ends or the time is up, and
        `meanwhile` what other threads do to the store before each; `passes` were made. */
    method GatherUserPresence(cid: Cid, skip: bool, fprintAvailable: bool, start: real, polls: seq<Poll>,
                              meanwhile: seq<seq<Action>>, now: real)
      returns (ok: bool, passes: nat)
      requires |meanwhile| == |polls|
      modifies this
      ensures passes <= |polls|
      ensures ok <==> skip || HasUp(old(openKeys), cid) || Granted(fprintAvailable, start, polls)
      ensures skip || HasUp(old(openKeys), cid) ==> passes == 0
      ensures openKeys ==
        var reached := Elapse(old(openKeys), meanwhile[..passes]);
        if skip || (ok && !HasUp(old(openKeys), cid)) then Apply(reached, CacheUp(cid, Verified, now)) else reached
    {
      passes := 0;
      if skip {
        CacheUserPresence(cid, Verified, now);
        return true, 0;
      }
      if cid in openKeys && openKeys[cid].upv.Some? { return true, 0; }
      var current := start;
      while passes < |polls| && current - start < PRESENCE_TIMEOUT
        invariant passes <= |polls| && openKeys == Elapse(old(openKeys), meanwhile[..passes])
        invariant current == if passes == 0 then start else polls[passes - 1].now
        invariant forall j | 0 <= j < passes ::
          !Accepts(fprintAvailable, polls[j]) && !Rejects(fprintAvailable, polls[j])
        invariant forall j | 0 <= j < passes - 1 :: polls[j].now - start < PRESENCE_TIMEOUT
      {
        assert meanwhile[..passes + 1][..passes] == meanwhile[..passes];
        openKeys := ApplyAll(openKeys, meanwhile[passes]);
        var poll := polls[passes];
        current := poll.now;
        passes := passes + 1;
        if fprintAvailable && poll.fprint == Some(true) {
          CacheUserPresence(cid, Verified, now);
          return true, passes;
        }
        if poll.click.Some? {
          if poll.click.value {
            CacheUserPresence(cid, Verified, now);
            return true, passes;
          }
          return false, passes;
        }
      }
      ok := false;
    }
  }

  lemma {:induction false} FirstAccepted(fprintAvailable: bool, polls: seq<Poll>, n: nat) returns (i: nat)
    requires n < |polls| && Accepts(fprintAvailable, polls[n])
    ensures i <= n && Accepts(fprintAvailable, polls[i])
    ensures forall j | 0 <= j < i :: !Accepts(fprintAvailable, polls[j])
  {
    if j :| 0 <= j < n && Accepts(fprintAvailable, polls[j]) {
      i := FirstAccepted(fprintAvailable, polls, j);
    } else {
      i := n;
    }
  }

  lemma ClickCases(p: Poll)
    ensures p.click == None || p.click == Some(true) || p.click == Some(false)
  {
    match p.click
    case None =>
    case Some(accepted) => assert p.click == if accepted then Some(true) else Some(false);
  }

  /** Presence is granted exactly if some pass of the loop finds a matching fingerprint,
      where there is a reader, or a click on accept, and until then every pass began less
      than 15 seconds after the start and found neither nor a click on reject. */
  lemma GrantedExactly(fprintAvailable: bool, start: real, polls: seq<Poll>)
    ensures Granted(fprintAvailable, start, polls) <==>
      exists i | 0 <= i < |polls| ::
        && ((fprintAvailable && polls[i].fprint == Some(true)) || polls[i].click == Some(true))
        && forall j | 0 <= j < i ::
             && polls[j].now - start < 15.0 && polls[j].click == None
             && !(fprintAvailable && polls[j].fprint == Some(true))
  {
    if Granted(fprintAvailable, start, polls) {
      var n :| 0 <= n < |polls| && Accepts(fprintAvailable, polls[n])
            && forall j | 0 <= j < n ::
                 polls[j].now - start < PRESENCE_TIMEOUT && !Rejects(fprintAvailable, polls[j]);
      var i := FirstAccepted(fprintAvailable, polls, n);
      forall j | 0 <= j < i
        ensures polls[j].click == None && !(fprintAvailable && polls[j].fprint == Some(true))
      {
        ClickCases(polls[j]);
        assert !Accepts(fprintAvailable, polls[j]) && !Rejects(fprintAvailable, polls[j]);
      }
    }
  }

  /** The store after each of several bursts of actions. */
  function Elapse(s: Store, bursts: seq<seq<Action>>): Store {
    if bursts == [] then s else ApplyAll(Elapse(s, bursts[..|bursts| - 1]), bursts[|bursts| - 1])
  }

  lemma NoChecks(s: Store, cidList: seq<Cid>, clock: seq<real>)
    requires |cidList| == |clock|
    ensures ApplyAll(s, Checks(cidList[..0], clock[..0])) == s
  {
  }

  lemma OneMoreCheck(s: Store, cidList: seq<Cid>, clock: seq<real>, i: nat)
    requires i < |cidList| == |clock|
    ensures ApplyAll(s, Checks(cidList[..i + 1], clock[..i + 1]))
         == Apply(ApplyAll(s, Checks(cidList[..i], clock[..i])), Check(cidList[i], clock[i]))
  {
    hide Apply;
    assert cidList[..i + 1][..i] == cidList[..i] && clock[..i + 1][..i] == clock[..i];
    var checks := Checks(cidList[..i + 1], clock[..i + 1]);
    assert checks[..i] == Checks(cidList[..i], clock[..i]);
  }

  function Checks(cidList: seq<Cid>, clock: seq<real>): (h: seq<Action>)
    requires |cidList| == |clock|
    ensures |h| == |cidList| && forall i | 0 <= i < |h| :: h[i] == Check(cidList[i], clock[i])
  {
    if cidList == [] then []
    else Checks(cidList[..|cidList| - 1], clock[..|clock| - 1]) + [Check(cidList[|cidList| - 1], clock[|clock| - 1])]
  }
}
