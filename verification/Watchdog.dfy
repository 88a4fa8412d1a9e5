/** How long a session lasts: the watchdog only removes an entry when its age, rounded
    down, is exactly 30 seconds, so it works as long as it looks often enough. */
module Watchdog {
  import opened Bytes
  import opened PasskeyDevice
  import opened SessionStore
  import opened SessionHistory

  /** The time of the last action, or `t0`. */
  function EndTime(h: History, t0: real): real {
    if h == [] then t0 else h[|h| - 1].now
  }

  /** When the watchdog last looked at `c`, or `t0`. */
  function LastCheck(h: History, c: Cid, t0: real): real {
    if h == [] then t0
    else
      var last := h[|h| - 1];
      if last.Check? && last.cid == c then last.now else LastCheck(h[..|h| - 1], c, t0)
  }

  /** Time does not run backwards, and whenever anything happens the watchdog has looked
      at `c` at most a second before. */
  predicate Watched(h: History, c: Cid, t0: real) {
    h == [] ||
    (&& Watched(h[..|h| - 1], c, t0)
     && EndTime(h[..|h| - 1], t0) <= h[|h| - 1].now <= LastCheck(h[..|h| - 1], c, t0) + 1.0)
  }

  /** At the watchdog's last look the entry was younger than 30 seconds, or not there yet. */
  lemma {:induction false} YoungWhenChecked(h: History, c: Cid, t0: real)
    requires Watched(h, c, t0)
    ensures t0 <= LastCheck(h, c, t0) <= EndTime(h, t0)
    ensures c in Replay(h) ==>
      LastCheck(h, c, t0) - Replay(h)[c].tStart < 30.0 && Replay(h)[c].tStart <= EndTime(h, t0)
  {
    if h != [] {
      YoungWhenChecked(h[..|h| - 1], c, t0);
    }
  }

  /** Looked at every second, no session reaches the age of 31 seconds. */
  lemma SessionsEndInTime(h: History, c: Cid, t0: real, now: real)
    requires Watched(h, c, t0) && EndTime(h, t0) <= now <= LastCheck(h, c, t0) + 1.0
    ensures c in Replay(h) ==> 0.0 <= now - Replay(h)[c].tStart < 31.0
  {
    YoungWhenChecked(h, c, t0);
  }

  /** No session ends before it is 30 seconds old. */
  lemma NoSessionEndsEarly(h: History, i: nat, c: Cid)
    requires i < |h| && At(h, i, Evicts(c))
    ensures c in Replay(h[..i]) && 30.0 <= h[i].now - Replay(h[..i])[c].tStart < 31.0
  {
    assert Expired(Replay(h[..i])[c], h[i].now);
    ExpiresAtThirty(h[i].now - Replay(h[..i])[c].tStart);
  }

  lemma ExpiresAtThirty(age: real)
    ensures age.Floor == EXPIRY <==> 30.0 <= age < 31.0
  {
    var f := age.Floor;
    assert f as real <= age < (f + 1) as real;
  }

  /** Without a new PIN validation, an entry is removed exactly if some look at it falls
      within the one second in which its age rounds down to 30; otherwise it stays. */
  lemma {:induction false} RemovedExactlyInWindow(h: History, n: nat, c: Cid)
    requires n <= |h| && c in Replay(h[..n])
    requires forall j | n <= j < |h| :: !(h[j].PinAccepted? && h[j].cid == c)
    ensures var t := Replay(h[..n])[c].tStart;
      && (NoneFrom(h, n, Evicts(c)) <==> forall j | n <= j < |h| :: !InWindow(h[j], c, t))
      && (NoneFrom(h, n, Evicts(c)) ==> c in Replay(h) && Replay(h)[c].tStart == t)
  {
    if n == |h| {
      assert h[..n] == h;
    } else {
      var was := h[..|h| - 1];
      assert was[..n] == h[..n];
      RemovedExactlyInWindow(was, n, c);
      NoneFromPrefix(h, n, Evicts(c));
      var t := Replay(h[..n])[c].tStart;
      hide NoneFrom;
      assert (forall j | n <= j < |h| :: !InWindow(h[j], c, t))
        <==> (forall j | n <= j < |was| :: !InWindow(was[j], c, t)) && !InWindow(h[|h| - 1], c, t);
      if NoneFrom(was, n, Evicts(c)) {
        ExpiresAtThirty(h[|h| - 1].now - t);
        assert Expired(Replay(was)[c], h[|h| - 1].now) <==> 30.0 <= h[|h| - 1].now - t < 31.0;
        assert At(h, |h| - 1, Evicts(c)) <==> InWindow(h[|h| - 1], c, t);
      }
    }
  }

  /** The watchdog looks at `c` when an entry started at `t` is 30 seconds old, rounded down. */
  predicate InWindow(a: Action, c: Cid, t: real) {
    a.Check? && a.cid == c && 30.0 <= a.now - t < 31.0
  }

  // ---- Told from the history ----

  /** Action `i` starts the clock of `c`: it validates a PIN, or it is the gathering of
      presence or the key agreement that opens the session. No PIN is validated later. */
  predicate StartsClock(h: History, i: nat, c: Cid) {
    && i < |h| && h[i].cid == c
    && (h[i].PinAccepted? || ((h[i].KeyAgreement? || h[i].CacheUp?) && !Since(h[..i], OpensSession(c), Evicts(c))))
    && forall j | i < j < |h| :: !(h[j].PinAccepted? && h[j].cid == c)
  }

  lemma ClockIsStarted(h: History, i: nat, c: Cid)
    requires StartsClock(h, i, c)
    ensures c in Replay(h[..i + 1]) && Replay(h[..i + 1])[c].tStart == h[i].now
  {
    hide Since;
    SessionIsOpen(h[..i], c);
    ReplayOneMore(h, i);
  }

  /** Such a session stays exactly as long as no look at it falls from 30 up to 31 seconds
      after action `i`. */
  lemma SessionStaysExactly(h: History, i: nat, c: Cid)
    requires StartsClock(h, i, c)
    ensures NoneFrom(h, i + 1, Evicts(c)) <==>
      forall j | i < j < |h| && h[j].Check? && h[j].cid == c :: !(30.0 <= h[j].now - h[i].now < 31.0)
    ensures NoneFrom(h, i + 1, Evicts(c)) ==> c in Replay(h) && Replay(h)[c].tStart == h[i].now
  {
    hide NoneFrom, Replay;
    ClockIsStarted(h, i, c);
    RemovedExactlyInWindow(h, i + 1, c);
  }

  lemma {:induction false} FirstOf(h: History, i: nat, kind: Kind) returns (j: nat)
    requires i <= |h| && !NoneFrom(h, i, kind)
    ensures i <= j < |h| && At(h, j, kind) && NoneFrom(h[..j], i, kind)
  {
    var was := h[..|h| - 1];
    NoneFromPrefix(h, i, kind);
    if NoneFrom(was, i, kind) {
      j := |h| - 1;
    } else {
      j := FirstOf(was, i, kind);
      assert was[..j] == h[..j];
    }
  }

  /** A session ends, if at all, from 30 up to 31 seconds after its clock was started. */
  lemma FirstEnd(h: History, i: nat, c: Cid) returns (j: nat)
    requires StartsClock(h, i, c) && !NoneFrom(h, i + 1, Evicts(c))
    ensures i < j < |h| && At(h, j, Evicts(c)) && NoneFrom(h[..j], i + 1, Evicts(c))
    ensures 30.0 <= h[j].now - h[i].now < 31.0
  {
    j := FirstOf(h, i + 1, Evicts(c));
    hide NoneFrom, Since, At, Replay;
    assert h[..j][..i] == h[..i];
    SessionStaysExactly(h[..j], i, c);
    NoSessionEndsEarly(h, j, c);
  }

  /** While time does not run backwards, no session is removed within 30 seconds of the PIN
      validation, or of the action that opened it: a PIN validation starts the clock anew. */
  lemma ThirtySecondsFromPin(h: History, i: nat, j: nat, c: Cid)
    requires StartsClock(h, i, c) && i < j < |h| && At(h, j, Evicts(c))
    requires forall a, b | 0 <= a < b < |h| :: h[a].now <= h[b].now
    ensures h[j].now >= h[i].now + 30.0
  {
    assert !NoneFrom(h, i + 1, Evicts(c));
    hide At;
    var k := FirstEnd(h, i, c);
    if j < k {
      AtPrefix(h, k, j, Evicts(c));
    }
  }

  lemma AtPrefix(h: History, k: nat, j: nat, kind: Kind)
    requires j < k <= |h|
    ensures At(h[..k], j, kind) <==> At(h, j, kind)
  {
    assert h[..k][..j] == h[..j];
  }

  lemma {:induction false} LookedAtLately(h: History, c: Cid, t0: real)
    requires Watched(h, c, t0)
    ensures EndTime(h, t0) <= LastCheck(h, c, t0) + 1.0
  {
  }

  /** Under a watchdog that looks every second, it is removed within 31 seconds of that. */
  lemma GoneAfterThirtyOne(h: History, i: nat, c: Cid, t0: real)
    requires StartsClock(h, i, c) && Watched(h, c, t0) && EndTime(h, t0) >= h[i].now + 31.0
    ensures exists j | i < j < |h| :: At(h, j, Evicts(c)) && 30.0 <= h[j].now - h[i].now < 31.0
  {
    hide NoneFrom, Since, At, Replay;
    LookedAtLately(h, c, t0);
    SessionsEndInTime(h, c, t0, EndTime(h, t0));
    SessionStaysExactly(h, i, c);
    var j := FirstEnd(h, i, c);
  }

  /** A session started at `t`, looked at twice, `gap` apart, and then whatever follows. */
  function MissedRun(c: Cid, t: real, gap: real, later: History): History {
    var start, before, after := CacheUp(c, Verified, t), Check(c, t + 31.0 - gap), Check(c, t + 31.0);
    (if gap <= 31.0 then [start, before, after] else [before, start, after]) + later
  }

  /** One second is the longest safe interval: whatever longer one the watchdog uses, a
      session can slip through, and then lasts until the next PIN validation. */
  lemma LongerGapsMissSessions(c: Cid, t: real, gap: real, later: History)
    requires gap > 1.0
    requires forall j | 0 <= j < |later| ::
      later[j].now >= t + 31.0 && !(later[j].PinAccepted? && later[j].cid == c)
    ensures c in Replay(MissedRun(c, t, gap, later)) && Replay(MissedRun(c, t, gap, later))[c].tStart == t
  {
    var h := MissedRun(c, t, gap, later);
    ReplayOneMore(h, 0);
    ReplayOneMore(h, 1);
    var n := if gap <= 31.0 then 1 else 2;
    assert h[..0] == [];
    assert Replay(h[..n]) == map[c := Entry(t, Some(Verified), Absent, None)];
    RemovedExactlyInWindow(h, n, c);
  }
}
