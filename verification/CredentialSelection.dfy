/** Which credential an assertion picks, and that what was registered is found again. */
module CredentialSelection {
  import opened Bytes
  import opened Crypto
  import opened PasskeyFile
  import opened WalletHome
  import opened CredentialId
  import opened PasskeyDevice
  import opened Ceremonies
  import S = SessionStore

  // ---- First match ----

  predicate Recovers(p: Primitives, seed: seq<byte>, a: Allowed) { Decode(p, seed, a.id).Success? }

  /** Entry `k` is recoverable under `seed` and no earlier one is. */
  predicate FirstMatch(p: Primitives, seed: seq<byte>, list: seq<Allowed>, k: nat) {
    k < |list| && Recovers(p, seed, list[k]) && forall j | 0 <= j < k :: !Recovers(p, seed, list[j])
  }

  predicate NoMatch(p: Primitives, seed: seq<byte>, list: seq<Allowed>) {
    forall j | 0 <= j < |list| :: !Recovers(p, seed, list[j])
  }

  function SignedWith(p: Primitives, seed: seq<byte>, a: Allowed, withUser: bool): AssertionAnswer
    requires Recovers(p, seed, a)
  {
    Signed(a.id, Decode(p, seed, a.id).value, if withUser then a.user else None)
  }

  lemma {:induction false} SelectedExactly(p: Primitives, seed: seq<byte>, list: seq<Allowed>, withUser: bool)
    ensures NoMatch(p, seed, list) ==> Selected(p, seed, list, withUser) == NoCredentials
    ensures !NoMatch(p, seed, list) ==>
      exists k: nat :: FirstMatch(p, seed, list, k)
        && Selected(p, seed, list, withUser) == SignedWith(p, seed, list[k], withUser)
  {
    hide Decode;
    if list != [] {
      if Recovers(p, seed, list[0]) {
        assert FirstMatch(p, seed, list, 0);
      } else {
        SelectedExactly(p, seed, list[1..], withUser);
        if !NoMatch(p, seed, list[1..]) {
          var k: nat :| FirstMatch(p, seed, list[1..], k)
            && Selected(p, seed, list[1..], withUser) == SignedWith(p, seed, list[1..][k], withUser);
          assert forall j | 0 < j < |list| :: list[j] == list[1..][j - 1];
          assert FirstMatch(p, seed, list, k + 1);
        }
      }
    }
  }

  lemma FirstMatchUnique(p: Primitives, seed: seq<byte>, list: seq<Allowed>, k: nat, withUser: bool)
    requires FirstMatch(p, seed, list, k)
    ensures !NoMatch(p, seed, list)
    ensures Selected(p, seed, list, withUser) == SignedWith(p, seed, list[k], withUser)
  {
    hide Decode, Recovers;
    SelectedExactly(p, seed, list, withUser);
    assert Recovers(p, seed, list[k]);
    var j: nat :| FirstMatch(p, seed, list, j)
      && Selected(p, seed, list, withUser) == SignedWith(p, seed, list[j], withUser);
    assert j == k;
  }

  /** The wallet an assertion on `c` loads. */
  function Loaded(e: Setup, home: Home, s: S.Store, c: Cid): Result<Wallet>
    requires c in s && s[c].unlocked.Some?
  {
    LoadFrom(e.p, e.platform, home, s[c].unlocked.value.file, s[c].unlocked.value.ph)
  }

  /** The candidates: the caller's list, then the RP's credentials in the wallet, if any. */
  function Candidates(e: Setup, home: Home, s: S.Store, c: Cid, rpId: seq<byte>, list: seq<Allowed>): seq<Allowed> {
    if c in s && s[c].unlocked.Some? && Loaded(e, home, s, c).Success?
    then list + Residents(Loaded(e, home, s, c).value.creds, rpId) else list
  }

  /** With a wallet unlocked: an exception exactly if its files no longer load; otherwise
      the first candidate the wallet's seed recovers, with its user; failing any, the
      first the platform's seed recovers, without; and NO_CREDENTIALS exactly if neither
      recovers one. With no wallet, the platform's seed alone. */
  lemma AssertionExactly(e: Setup, home: Home, s: S.Store, c: Cid, rpId: seq<byte>, list: seq<Allowed>)
    ensures
      var (list', answer) := Assert(e, home, s, c, rpId, list);
      var all := Candidates(e, home, s, c, rpId, list);
      var unlocked := c in s && s[c].unlocked.Some?;
      var platform := Seed(e, rpId, e.platform);
      && (answer.AssertionThrew? <==> unlocked && Loaded(e, home, s, c).Raised?)
      && list' == all
      && (!answer.AssertionThrew? && unlocked ==>
          var wallet := Seed(e, rpId, s[c].unlocked.value.kp);
          && (forall k: nat | FirstMatch(e.p, wallet, all, k) :: answer == SignedWith(e.p, wallet, all[k], true))
          && (NoMatch(e.p, wallet, all) ==> forall k: nat | FirstMatch(e.p, platform, all, k) ::
            answer == SignedWith(e.p, platform, all[k], false))
          && (answer.NoCredentials? <==> NoMatch(e.p, wallet, all) && NoMatch(e.p, platform, all)))
      && (!unlocked ==>
          && (forall k: nat | FirstMatch(e.p, platform, all, k) :: answer == SignedWith(e.p, platform, all[k], false))
          && (answer.NoCredentials? <==> NoMatch(e.p, platform, all)))
  {
    hide Decode, Recovers, FirstMatch, NoMatch, LoadFrom, Selected, Residents;
    var all := Candidates(e, home, s, c, rpId, list);
    var platform := Seed(e, rpId, e.platform);
    SelectedExactly(e.p, platform, all, false);
    forall k: nat | FirstMatch(e.p, platform, all, k)
      ensures k < |all| && Recovers(e.p, platform, all[k])
        && Selected(e.p, platform, all, false) == SignedWith(e.p, platform, all[k], false)
    {
      MatchBounds(e.p, platform, all, k);
      FirstMatchUnique(e.p, platform, all, k, false);
    }
    if c in s && s[c].unlocked.Some? {
      var wallet := Seed(e, rpId, s[c].unlocked.value.kp);
      SelectedExactly(e.p, wallet, all, true);
      forall k: nat | FirstMatch(e.p, wallet, all, k)
        ensures k < |all| && Recovers(e.p, wallet, all[k])
          && Selected(e.p, wallet, all, true) == SignedWith(e.p, wallet, all[k], true)
      {
        MatchBounds(e.p, wallet, all, k);
        FirstMatchUnique(e.p, wallet, all, k, true);
      }
    }
  }

  lemma MatchBounds(p: Primitives, seed: seq<byte>, list: seq<Allowed>, k: nat)
    requires FirstMatch(p, seed, list, k)
    ensures k < |list| && Recovers(p, seed, list[k])
  {
  }

  // ---- The residents, by their places in the wallet ----

  /** `list` has one entry for each credential of the RP in the wallet, in the wallet's
      order: `at` says which. */
  predicate ListsResidents(list: seq<Allowed>, creds: seq<Cred>, rpId: seq<byte>, at: seq<nat>) {
    && |at| == |list|
    && (forall k | 0 <= k < |at| :: at[k] < |creds| && creds[at[k]].rpId == rpId)
    && (forall k | 0 <= k < |at| :: list[k] == Allowed(creds[at[k]].credId, Some(creds[at[k]].userId)))
    && (forall k, l | 0 <= k < l < |at| :: at[k] < at[l])
    && (forall i | 0 <= i < |creds| && creds[i].rpId == rpId :: i in at)
  }

  lemma {:induction false} ResidentsInFileOrder(creds: seq<Cred>, rpId: seq<byte>) returns (at: seq<nat>)
    ensures ListsResidents(Residents(creds, rpId), creds, rpId, at)
  {
    at := [];
    if creds != [] {
      var last := |creds| - 1;
      var front := ResidentsInFileOrder(creds[..last], rpId);
      at := if creds[last].rpId == rpId then front + [last] else front;
      hide ListsResidents;
      ListsOneMore(Residents(creds[..last], rpId), creds, rpId, front);
    } else {
      assert ListsResidents([], creds, rpId, []);
    }
  }

  lemma ListsOneMore(list: seq<Allowed>, creds: seq<Cred>, rpId: seq<byte>, at: seq<nat>)
    requires creds != [] && ListsResidents(list, creds[..|creds| - 1], rpId, at)
    ensures
      var last := creds[|creds| - 1];
      if last.rpId == rpId
      then ListsResidents(list + [Allowed(last.credId, Some(last.userId))], creds, rpId, at + [|creds| - 1])
      else ListsResidents(list, creds, rpId, at)
  {
    var n := |creds| - 1;
    var front := creds[..n];
    assert forall i | 0 <= i < n :: front[i] == creds[i];
    if creds[n].rpId == rpId {
      var at' := at + [n];
      assert at'[|at|] == n && forall k | 0 <= k < |at| :: at'[k] == at[k];
      forall i | 0 <= i < |creds| && creds[i].rpId == rpId
        ensures i in at'
      {
        if i < n {
          assert front[i].rpId == rpId;
        }
      }
    }
  }

  /** The credential at place `i` of the wallet is the first of its RP the seed recovers. */
  predicate LeastRecoverable(p: Primitives, seed: seq<byte>, creds: seq<Cred>, rpId: seq<byte>, i: nat) {
    && i < |creds| && creds[i].rpId == rpId && Decode(p, seed, creds[i].credId).Success?
    && forall j | 0 <= j < i && creds[j].rpId == rpId :: Decode(p, seed, creds[j].credId).Raised?
  }

  /** What an assertion on a channel with a wallet that loads makes of the caller's list and
      of the wallet: it extends the list by the RP's credentials in the wallet's order, and
      if the wallet's seed recovers none of the caller's, it signs with the first of the
      wallet's, in the wallet's order, that it recovers, and for its user. */
  lemma ResidentsAnswerInFileOrder(e: Setup, home: Home, s: S.Store, c: Cid, rpId: seq<byte>, list: seq<Allowed>)
    returns (at: seq<nat>)
    requires c in s && s[c].unlocked.Some?
    requires LoadFrom(e.p, e.platform, home, s[c].unlocked.value.file, s[c].unlocked.value.ph).Success?
    ensures
      var u := s[c].unlocked.value;
      var creds := LoadFrom(e.p, e.platform, home, u.file, u.ph).value.creds;
      var seed := Seed(e, rpId, u.kp);
      var (entries, answer) := Assert(e, home, s, c, rpId, list);
      && |list| <= |entries| && entries[..|list|] == list && ListsResidents(entries[|list|..], creds, rpId, at)
      && ((forall j | 0 <= j < |list| :: Decode(e.p, seed, list[j].id).Raised?) ==>
          forall i: nat | LeastRecoverable(e.p, seed, creds, rpId, i) ::
            answer == Signed(creds[i].credId, Decode(e.p, seed, creds[i].credId).value, Some(creds[i].userId)))
  {
    var u := s[c].unlocked.value;
    var creds := LoadFrom(e.p, e.platform, home, u.file, u.ph).value.creds;
    at := ResidentsInFileOrder(creds, rpId);
    hide Decode, Residents, LoadFrom, Selected;
    AssertionExactly(e, home, s, c, rpId, list);
    var all, seed := Candidates(e, home, s, c, rpId, list), Seed(e, rpId, u.kp);
    assert all[..|list|] == list && all[|list|..] == Residents(creds, rpId);
    if forall j | 0 <= j < |list| :: Decode(e.p, seed, list[j].id).Raised? {
      forall i: nat | LeastRecoverable(e.p, seed, creds, rpId, i)
        ensures Assert(e, home, s, c, rpId, list).1
             == Signed(creds[i].credId, Decode(e.p, seed, creds[i].credId).value, Some(creds[i].userId))
      {
        var k := LeastIsFirst(e.p, seed, list, creds, rpId, at, all, i);
      }
    }
  }

  lemma LeastIsFirst(p: Primitives, seed: seq<byte>, list: seq<Allowed>, creds: seq<Cred>, rpId: seq<byte>,
                     at: seq<nat>, all: seq<Allowed>, i: nat) returns (k: nat)
    requires |list| <= |all| && all[..|list|] == list && ListsResidents(all[|list|..], creds, rpId, at)
    requires forall j | 0 <= j < |list| :: Decode(p, seed, list[j].id).Raised?
    requires LeastRecoverable(p, seed, creds, rpId, i)
    ensures FirstMatch(p, seed, all, k) && all[k] == Allowed(creds[i].credId, Some(creds[i].userId))
  {
    hide Decode;
    assert i in at;
    var x :| 0 <= x < |at| && at[x] == i;
    k := |list| + x;
    assert all[k] == all[|list|..][x];
    forall j | 0 <= j < k
      ensures !Recovers(p, seed, all[j])
    {
      if j < |list| {
        assert all[j] == all[..|list|][j];
      } else {
        assert all[j] == all[|list|..][j - |list|];
        assert at[j - |list|] < i;
      }
    }
  }
}
