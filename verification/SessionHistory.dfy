/** What the state of a channel says about its past, over every run of the session
    actions: PIN tokens, user presence, and the key-agreement pair. */
module SessionHistory {
  import opened Bytes
  import opened PasskeyDevice
  import opened SessionStore

  type History = seq<Action>

  function Replay(h: History): Store { ApplyAll(map[], h) }

  // ---- Events: an action together with the state it meets ----

  type Kind = (Store, Action) -> bool

  /** The watchdog removes channel `c`. */
  function Evicts(c: Cid): Kind {
    (s: Store, a: Action) => a.Check? && a.cid == c && c in s && Expired(s[c], a.now)
  }

  /** A PIN is accepted on `c`, storing `u`. */
  function UnlocksWith(c: Cid, u: Unlock): Kind {
    (s: Store, a: Action) => a.PinAccepted? && a.cid == c && a.unlock == u
  }

  function EvictsOrUnlocks(c: Cid): Kind {
    (s: Store, a: Action) => a.cid == c && (a.PinAccepted? || (a.Check? && c in s && Expired(s[c], a.now)))
  }

  /** The user's presence on `c` is established: by gathering it, or by the right PIN. */
  function Establishes(c: Cid): Kind {
    (s: Store, a: Action) => a.cid == c && (a.CacheUp? || a.PinAccepted?)
  }

  predicate At(h: History, i: nat, kind: Kind)
    requires i < |h|
  {
    kind(Replay(h[..i]), h[i])
  }

  /** No such event from action `i` on. */
  predicate NoneFrom(h: History, i: nat, kind: Kind) {
    forall j | i <= j < |h| :: !At(h, j, kind)
  }

  /** A `starts` event has happened, and no `ends` event after it. */
  predicate Since(h: History, starts: Kind, ends: Kind) {
    exists i | 0 <= i < |h| :: At(h, i, starts) && NoneFrom(h, i + 1, ends)
  }

  lemma NoneFromPrefix(h: History, i: nat, kind: Kind)
    requires i < |h|
    ensures NoneFrom(h, i, kind) <==> NoneFrom(h[..|h| - 1], i, kind) && !At(h, |h| - 1, kind)
  {
    var was := h[..|h| - 1];
    forall j | 0 <= j < |was|
      ensures At(was, j, kind) <==> At(h, j, kind)
    {
      assert was[..j] == h[..j];
    }
  }

  lemma SinceStep(h: History, starts: Kind, ends: Kind)
    requires h != []
    ensures Since(h, starts, ends)
       <==> At(h, |h| - 1, starts) || (Since(h[..|h| - 1], starts, ends) && !At(h, |h| - 1, ends))
  {
    var n := |h| - 1;
    var was := h[..n];
    forall i | 0 <= i < n
      ensures NoneFrom(h, i + 1, ends) <==> NoneFrom(was, i + 1, ends) && !At(h, n, ends)
      ensures At(was, i, starts) <==> At(h, i, starts)
    {
      NoneFromPrefix(h, i + 1, ends);
      assert was[..i] == h[..i];
    }
    hide At, NoneFrom;
    if At(h, n, starts) {
      NoneFromEnd(h, ends);
    } else if Since(was, starts, ends) && !At(h, n, ends) {
      var i :| 0 <= i < n && At(was, i, starts) && NoneFrom(was, i + 1, ends);
      assert At(h, i, starts) && NoneFrom(h, i + 1, ends);
    }
  }

  lemma NoneFromEnd(h: History, kind: Kind)
    ensures NoneFrom(h, |h|, kind)
  {
  }

  // ---- What the state says about the past ----

  /** A channel holds an unlocked wallet, and its PIN token, exactly if some PIN validation
      on that channel stored it and neither an eviction nor another validation followed. */
  lemma {:induction false} UnlockedIsLatestPin(h: History, c: Cid, u: Unlock)
    ensures (c in Replay(h) && Replay(h)[c].unlocked == Some(u)) <==> Since(h, UnlocksWith(c, u), EvictsOrUnlocks(c))
  {
    if h != [] {
      UnlockedIsLatestPin(h[..|h| - 1], c, u);
      SinceStep(h, UnlocksWith(c, u), EvictsOrUnlocks(c));
      hide Since;
    }
  }

  /** User presence is cached exactly if it was established, by gathering it or by a PIN
      validation, with no eviction since. */
  lemma {:induction false} PresenceIsEstablished(h: History, c: Cid)
    ensures HasUp(Replay(h), c) <==> Since(h, Establishes(c), Evicts(c))
  {
    if h != [] {
      PresenceIsEstablished(h[..|h| - 1], c);
      SinceStep(h, Establishes(c), Evicts(c));
      hide Since;
    }
  }

  /** An action that opens a session on `c`, or finds it open. */
  function OpensSession(c: Cid): Kind {
    (s: Store, a: Action) => a.cid == c && (a.CacheUp? || a.KeyAgreement? || a.PinAccepted?)
  }

  /** A channel has a session exactly if such an action has happened and no removal since. */
  lemma {:induction false} SessionIsOpen(h: History, c: Cid)
    ensures c in Replay(h) <==> Since(h, OpensSession(c), Evicts(c))
  {
    if h != [] {
      SessionIsOpen(h[..|h| - 1], c);
      SinceStep(h, OpensSession(c), Evicts(c));
      hide Since;
    }
  }

  /** User verification is recorded: by gathering it, or by the right PIN. */
  function Verifies(c: Cid): Kind {
    (s: Store, a: Action) => a.cid == c && ((a.CacheUp? && a.state == Verified) || a.PinAccepted?)
  }

  function EvictsOrDowngrades(c: Cid): Kind {
    (s: Store, a: Action) =>
      a.cid == c && ((a.CacheUp? && a.state == PresentOnly) || (a.Check? && c in s && Expired(s[c], a.now)))
  }

  /** A channel counts as verified exactly if verification is what was last recorded there,
      with no eviction since. */
  lemma {:induction false} VerifiedIsLatest(h: History, c: Cid)
    ensures (c in Replay(h) && Replay(h)[c].upv == Some(Verified)) <==> Since(h, Verifies(c), EvictsOrDowngrades(c))
  {
    if h != [] {
      VerifiedIsLatest(h[..|h| - 1], c);
      SinceStep(h, Verifies(c), EvictsOrDowngrades(c));
      hide Since;
    }
  }

  /** Key agreement draws the pair `k` for `c`, which has no pair entry. */
  function DrawsPair(c: Cid, k: Key): Kind {
    (s: Store, a: Action) => a.KeyAgreement? && a.cid == c && a.drawn == k && Slot(s, c).Absent?
  }

  /** The pair of a channel is the one the key agreement that found none there drew, with no
      eviction since. */
  lemma {:induction false} PairIsDrawn(h: History, c: Cid, k: Key)
    ensures Slot(Replay(h), c) == Present(k) <==> Since(h, DrawsPair(c, k), Evicts(c))
  {
    if h != [] {
      PairIsDrawn(h[..|h| - 1], c, k);
      SinceStep(h, DrawsPair(c, k), Evicts(c));
      hide Since;
    }
  }

  // ---- When a channel is left without a pair ----

  /** Key agreement draws a pair for `c`. */
  function Draws(c: Cid): Kind {
    (s: Store, a: Action) => a.KeyAgreement? && a.cid == c && Slot(s, c).Absent?
  }

  /** PINs are only accepted in an exchange that began with a decapsulation, which takes a
      pair: `began[i]` is where the exchange that action `i` ends did. */
  predicate Exchanges(h: History, began: seq<nat>) {
    && |began| == |h|
    && forall i | 0 <= i < |h| && h[i].PinAccepted? ::
      && began[i] < i && h[began[i]].Decapsulate? && h[began[i]].cid == h[i].cid
      && Slot(Replay(h[..began[i]]), h[i].cid).Present?
  }

  /** From action `n` on, `c` is evicted, and draws no pair after that. */
  predicate LosesPair(h: History, n: nat, c: Cid) {
    exists j | n <= j < |h| :: At(h, j, Evicts(c)) && NoneFrom(h, j + 1, Draws(c))
  }

  lemma LosesPairStep(h: History, n: nat, c: Cid)
    requires n < |h|
    ensures LosesPair(h, n, c)
       <==> At(h, |h| - 1, Evicts(c)) || (LosesPair(h[..|h| - 1], n, c) && !At(h, |h| - 1, Draws(c)))
  {
    var last := |h| - 1;
    var was := h[..last];
    forall j | 0 <= j < last
      ensures NoneFrom(h, j + 1, Draws(c)) <==> NoneFrom(was, j + 1, Draws(c)) && !At(h, last, Draws(c))
      ensures At(was, j, Evicts(c)) <==> At(h, j, Evicts(c))
    {
      NoneFromPrefix(h, j + 1, Draws(c));
      assert was[..j] == h[..j];
    }
    NoneFromEnd(h, Draws(c));
    hide At, NoneFrom;
    if LosesPair(was, n, c) && !At(h, last, Draws(c)) {
      var j :| n <= j < |was| && At(was, j, Evicts(c)) && NoneFrom(was, j + 1, Draws(c));
      assert At(h, j, Evicts(c)) && NoneFrom(h, j + 1, Draws(c));
    }
  }

  /** A channel that had a pair has none now exactly if it was evicted since and has drawn
      no pair after that. */
  lemma {:induction false} PairLostExactly(h: History, n: nat, c: Cid)
    requires n <= |h| && Slot(Replay(h[..n]), c).Present?
    ensures !Slot(Replay(h), c).Present? <==> LosesPair(h, n, c)
  {
    if n == |h| {
      assert h[..n] == h;
    } else {
      assert h[..|h| - 1][..n] == h[..n];
      PairLostExactly(h[..|h| - 1], n, c);
      LosesPairStep(h, n, c);
      hide LosesPair;
    }
  }

  /** The PIN accepted at `i` was overtaken: between its decapsulation and it, the channel
      was evicted and drew no pair after that. */
  predicate Overtaken(h: History, began: seq<nat>, i: nat)
    requires i < |h| && i < |began|
  {
    h[i].PinAccepted? && LosesPair(h[..i], began[i], h[i].cid)
  }

  lemma OvertakenHadNoPair(h: History, began: seq<nat>, i: nat)
    requires Exchanges(h, began) && i < |h| && h[i].PinAccepted?
    ensures Overtaken(h, began, i) <==> !Slot(Replay(h[..i]), h[i].cid).Present?
  {
    assert h[..i][..began[i]] == h[..began[i]];
    PairLostExactly(h[..i], began[i], h[i].cid);
  }

  /** A channel's pair is None exactly if, in an exchange on it, an eviction with no new
      pair fell between the decapsulation and the acceptance of the PIN, and the channel
      has not been evicted since. Key agreement does not repair it. */
  lemma {:induction false} MissingPairIsRacedPin(h: History, began: seq<nat>, c: Cid)
    requires Exchanges(h, began)
    ensures Slot(Replay(h), c).Null? <==>
      exists i | 0 <= i < |h| :: h[i].cid == c && Overtaken(h, began, i) && NoneFrom(h, i + 1, Evicts(c))
  {
    if Slot(Replay(h), c).Null? {
      var i := NullHasCauseAt(h, c);
      OvertakenHadNoPair(h, began, i);
    }
    forall i | 0 <= i < |h| && h[i].cid == c && Overtaken(h, began, i) && NoneFrom(h, i + 1, Evicts(c))
      ensures Slot(Replay(h), c).Null?
    {
      OvertakenHadNoPair(h, began, i);
      NullStays(h, i, c);
    }
  }

  /** The acceptance that left the pair None. */
  lemma {:induction false} NullHasCauseAt(h: History, c: Cid) returns (i: nat)
    requires Slot(Replay(h), c).Null?
    ensures i < |h| && h[i].PinAccepted? && h[i].cid == c && !Slot(Replay(h[..i]), c).Present?
    ensures NoneFrom(h, i + 1, Evicts(c))
  {
    var last := |h| - 1;
    if h[last].PinAccepted? && h[last].cid == c {
      i := last;
    } else {
      i := NullHasCauseAt(h[..last], c);
      assert h[..last][..i] == h[..i];
      assert !At(h, last, Evicts(c));
      NoneFromPrefix(h, i + 1, Evicts(c));
    }
  }

  lemma {:induction false} NullStays(h: History, i: nat, c: Cid)
    requires i < |h| && h[i].PinAccepted? && h[i].cid == c && !Slot(Replay(h[..i]), c).Present?
    requires NoneFrom(h, i + 1, Evicts(c))
    ensures Slot(Replay(h), c).Null?
  {
    var last := |h| - 1;
    if i < last {
      assert h[..last][..i] == h[..i];
      NoneFromPrefix(h, i + 1, Evicts(c));
      NullStays(h[..last], i, c);
      assert !At(h, last, Evicts(c));
    }
  }

  /** It does happen: the watchdog looks at the channel, 30 seconds after key agreement,
      between a decapsulation and the acceptance of its PIN. */
  lemma RacedPinLosesPair(c: Cid, drawn: Key, u: Unlock, t: real)
    ensures
      var h := [KeyAgreement(c, drawn, t), Decapsulate(c, t + 30.0), Check(c, t + 30.0), PinAccepted(c, u, t + 30.0)];
      Exchanges(h, [0, 0, 0, 1]) && Slot(Replay(h), c).Null?
  {
    var h := [KeyAgreement(c, drawn, t), Decapsulate(c, t + 30.0), Check(c, t + 30.0), PinAccepted(c, u, t + 30.0)];
    ReplayOneMore(h, 0);
    ReplayOneMore(h, 1);
    ReplayOneMore(h, 2);
    ReplayOneMore(h, 3);
    assert h[..0] == [] && h[..4] == h;
    assert Replay(h[..1]) == map[c := Entry(t, None, Present(drawn), None)];
    assert Expired(Replay(h[..2])[c], t + 30.0);
    assert Replay(h[..3]) == map[];
  }

  lemma ReplayOneMore(h: History, i: nat)
    requires i < |h|
    ensures Replay(h[..i + 1]) == Apply(Replay(h[..i]), h[i])
  {
    assert h[..i + 1][..i] == h[..i];
  }

  /** The key-agreement pair of a channel, once there, stays the same until its eviction,
      whatever presence caching, key agreements and PIN validations come between. */
  lemma {:induction false} PinKeyIsStable(h: History, n: nat, c: Cid)
    requires n <= |h| && Slot(Replay(h[..n]), c).Present? && NoneFrom(h, n, Evicts(c))
    ensures Slot(Replay(h), c) == Slot(Replay(h[..n]), c)
  {
    if n == |h| {
      assert h[..n] == h;
    } else {
      var was := h[..|h| - 1];
      NoneFromPrefix(h, n, Evicts(c));
      assert was[..n] == h[..n];
      PinKeyIsStable(was, n, c);
      assert !At(h, |h| - 1, Evicts(c));
    }
  }
}
