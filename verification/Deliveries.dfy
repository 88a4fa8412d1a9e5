/** How often a message is delivered by its frames, in whatever order and number, the
    first frame included. */
module Deliveries {
  import opened Bytes
  import opened CborCommands
  import opened PasskeyDevice
  import opened Reassembly

  /** Where the first frame is first delivered. */
  function FirstZero(order: seq<nat>): (z: nat)
    ensures z <= |order| && 0 !in order[..z]
    ensures z < |order| ==> order[z] == 0
    ensures forall j | 0 <= j < z :: order[j] != 0
  {
    if order == [] || order[0] == 0 then 0 else 1 + FirstZero(order[1..])
  }

  lemma CoversMore(m: seq<byte>, some: seq<nat>, more: seq<nat>)
    requires m != [] && Covers(m, some) && forall j | j in some :: j in more
    ensures Covers(m, more)
  {
  }

  lemma CoversLess(m: seq<byte>, some: seq<nat>, more: seq<nat>)
    requires m != [] && !Covers(m, more) && forall j | j in some :: j in more
    ensures !Covers(m, some)
  {
  }

  lemma PrefixesCoverLess(m: seq<byte>, s: seq<nat>)
    requires m != [] && (s != [] ==> !Covers(m, s[..|s| - 1]))
    ensures forall j | 0 <= j < |s| :: !Covers(m, s[..j])
  {
    forall j | 0 <= j < |s|
      ensures !Covers(m, s[..j])
    {
      assert s[..j] == s[..|s| - 1][..j];
      CoversLess(m, s[..j], s[..|s| - 1]);
    }
  }

  /** The least prefix with every continuation frame in it. */
  function CoverLength(m: seq<byte>, s: seq<nat>): (k: Option<nat>)
    requires m != []
    ensures k.None? <==> !Covers(m, s)
    ensures k.Some? ==> k.value <= |s| && Covers(m, s[..k.value]) && forall j | 0 <= j < k.value :: !Covers(m, s[..j])
  {
    if !Covers(m, s) then None
    else if s != [] && Covers(m, s[..|s| - 1]) then
      assert forall j | 0 <= j <= |s| - 1 :: s[..|s| - 1][..j] == s[..j];
      CoverLength(m, s[..|s| - 1])
    else
      assert s[..|s|] == s;
      PrefixesCoverLess(m, s);
      Some(|s|)
  }

  /** How often the handler runs, and whether a command is left waiting. */
  datatype Outcome = Outcome(runs: nat, waiting: bool)

  function OneMore(o: Outcome): Outcome { o.(runs := o.runs + 1) }

  /** A delivery begins with the first frame and, for a longer message, ends when every
      continuation frame has come; a message of exactly 57 bytes never ends. */
  function Deliver(m: seq<byte>, order: seq<nat>): Outcome
    requires m != []
    decreases |order|
  {
    var z := FirstZero(order);
    if z == |order| then Outcome(0, false)
    else
      var rest := order[z + 1..];
      if |m| < INIT_DATA then OneMore(Deliver(m, rest))
      else if |m| == INIT_DATA then Outcome(0, true)
      else match CoverLength(m, rest)
        case None => Outcome(0, true)
        case Some(k) => OneMore(Deliver(m, rest[k..]))
  }

  predicate Within(m: seq<byte>, order: seq<nat>)
    requires m != []
  {
    forall x | 0 <= x < |order| :: order[x] <= Conts(|m|)
  }

  // ---- The receiver does that ----

  lemma {:induction false} IdleUntilZero(m: seq<byte>, done: seq<nat>, a: seq<nat>, ins: seq<Input>)
    requires m != [] && |done| + |a| == |ins| && 0 !in a && Track(m, done, ins[..|done|]).waiting.None?
    ensures Track(m, done + a, ins) == Track(m, done, ins[..|done|])
  {
    hide Track;
    if a == [] {
      assert done + a == done && ins[..|done|] == ins;
    } else {
      var was := a[..|a| - 1];
      assert ins[..|ins| - 1][..|done|] == ins[..|done|];
      IdleUntilZero(m, done, was, ins[..|ins| - 1]);
      assert done + a == (done + was) + [a[|a| - 1]];
      TrackOneMore(m, done + was, a[|a| - 1], ins);
      assert a[|a| - 1] in a;
    }
  }

  lemma NumbersStep(was: seq<nat>, j: nat)
    ensures j == 0 ==> Numbers(was + [j]) == Numbers(was)
    ensures j >= 1 ==> Numbers(was + [j]) == Numbers(was) + {j - 1}
  {
    if j == 0 {
      forall i: nat
        ensures i in Numbers(was + [0]) <==> i in Numbers(was)
      {
        assert i in Numbers(was + [0]) <==> i + 1 in was + [0];
        assert i in Numbers(was) <==> i + 1 in was;
      }
      assert Numbers(was + [0]) == Numbers(was);
    } else {
      OneMoreNumber(was, j);
    }
  }

  /** Until they are all there, the command waits with the frames it has. */
  lemma {:induction false} Gathering(m: seq<byte>, done: seq<nat>, late: seq<nat>, ins: seq<Input>)
    requires |m| >= INIT_DATA && |done| + |late| == |ins| && Within(m, late)
    requires Track(m, done, ins[..|done|]).waiting == Some({})
    requires |m| == INIT_DATA || !Covers(m, late)
    ensures Track(m, done + late, ins) == Track(m, done, ins[..|done|]).(waiting := Some(Numbers(late)))
  {
    hide Track, Complete, Conts, Numbers;
    if late == [] {
      assert done + late == done && ins[..|done|] == ins;
      assert Numbers(late) == {} by { NoNumbers(); }
    } else {
      var was, j := late[..|late| - 1], late[|late| - 1];
      assert was + [j] == late;
      if |m| > INIT_DATA && Covers(m, was) {
        CoversMore(m, was, late);
      }
      assert ins[..|ins| - 1][..|done|] == ins[..|done|];
      Gathering(m, done, was, ins[..|ins| - 1]);
      assert done + late == (done + was) + [j];
      TrackOneMore(m, done + was, j, ins);
      NumbersStep(was, j);
      CoversMeansComplete(m, late);
      ExactFitHasNone(m, j);
      hide Covers;
    }
  }

  lemma NoNumbers()
    ensures Numbers([]) == {}
  {
  }

  lemma ExactFitHasNone(m: seq<byte>, j: nat)
    requires |m| >= INIT_DATA
    ensures |m| == INIT_DATA && j <= Conts(|m|) ==> j == 0
  {
  }

  /** The frame that completes them runs the handler. */
  lemma Completing(m: seq<byte>, done: seq<nat>, late: seq<nat>, ins: seq<Input>)
    requires |m| > INIT_DATA && |done| + |late| == |ins| && Within(m, late)
    requires Track(m, done, ins[..|done|]).waiting == Some({})
    requires late != [] && Covers(m, late) && !Covers(m, late[..|late| - 1])
    ensures
      var p := Track(m, done + late, ins);
      p.waiting.None? && |p.answers| == |Track(m, done, ins[..|done|]).answers| + 1
  {
    hide Track, Complete, Conts, Numbers;
    var was, j := late[..|late| - 1], late[|late| - 1];
    assert was + [j] == late;
    assert ins[..|ins| - 1][..|done|] == ins[..|done|];
    Gathering(m, done, was, ins[..|ins| - 1]);
    assert done + late == (done + was) + [j];
    TrackOneMore(m, done + was, j, ins);
    NumbersStep(was, j);
    CoversMeansComplete(m, late);
    CoversMeansComplete(m, was);
    hide Covers;
  }

  lemma SomeToCover(m: seq<byte>)
    requires |m| > INIT_DATA
    ensures !Covers(m, [])
  {
    var none: seq<nat> := [];
    assert Conts(|m|) >= 1 && 1 !in none;
  }

  /** The first delivery of the first frame, and whatever came before it. */
  lemma Begins(m: seq<byte>, done: seq<nat>, order: seq<nat>, ins: seq<Input>)
    requires m != [] && |done| + |order| == |ins| && FirstZero(order) < |order|
    requires Track(m, done, ins[..|done|]).waiting.None?
    ensures
      var begun := done + order[..FirstZero(order) + 1];
      var p, p' := Track(m, done, ins[..|done|]), Track(m, begun, ins[..|begun|]);
      if |m| < INIT_DATA then p'.waiting.None? && |p'.answers| == |p.answers| + 1
      else p' == p.(waiting := Some({}))
  {
    hide Track;
    var z := FirstZero(order);
    var idle, begun := order[..z], done + order[..z + 1];
    assert ins[..|done| + z][..|done|] == ins[..|done|];
    IdleUntilZero(m, done, idle, ins[..|done| + z]);
    assert begun == done + idle + [0];
    assert ins[..|begun|][..|done + idle|] == ins[..|done| + z];
    TrackOneMore(m, done + idle, 0, ins[..|begun|]);
  }

  lemma DeliverUnfolds(m: seq<byte>, order: seq<nat>)
    requires m != []
    ensures
      var z := FirstZero(order);
      Deliver(m, order) ==
        if z == |order| then Outcome(0, false)
        else if |m| < INIT_DATA then OneMore(Deliver(m, order[z + 1..]))
        else if |m| == INIT_DATA || CoverLength(m, order[z + 1..]).None? then Outcome(0, true)
        else OneMore(Deliver(m, order[z + 1..][CoverLength(m, order[z + 1..]).value..]))
  {
    hide FirstZero, CoverLength;
  }

  lemma WithinRest(m: seq<byte>, order: seq<nat>, k: nat)
    requires m != [] && k <= |order| && Within(m, order)
    ensures Within(m, order[k..])
  {
  }

  /** The receiver, wherever it stands with no command waiting, makes of the frames in
      `order` exactly what Deliver says. */
  lemma {:induction false} TrackDelivers(m: seq<byte>, done: seq<nat>, order: seq<nat>, ins: seq<Input>)
    requires m != [] && |done| + |order| == |ins| && Within(m, order)
    requires Track(m, done, ins[..|done|]).waiting.None?
    ensures
      var p, o := Track(m, done + order, ins), Deliver(m, order);
      && |p.answers| == |Track(m, done, ins[..|done|]).answers| + o.runs
      && (p.waiting.Some? <==> o.waiting)
    decreases |order|
  {
    hide Track, Covers, Conts, Numbers, Deliver, FirstZero, CoverLength, Within;
    DeliverUnfolds(m, order);
    var z := FirstZero(order);
    if z == |order| {
      assert order[..z] == order;
      IdleUntilZero(m, done, order, ins);
    } else {
      var begun, rest := done + order[..z + 1], order[z + 1..];
      Begins(m, done, order, ins);
      assert done + order == begun + rest;
      WithinRest(m, order, z + 1);
      if |m| < INIT_DATA {
        TrackDelivers(m, begun, rest, ins);
      } else if |m| == INIT_DATA || CoverLength(m, rest).None? {
        Gathering(m, begun, rest, ins);
      } else {
        CompletesThenDelivers(m, begun, rest, ins);
        var k := CoverLength(m, rest).value;
        assert begun + rest == (begun + rest[..k]) + rest[k..];
        WithinRest(m, rest, k);
        TrackDelivers(m, begun + rest[..k], rest[k..], ins);
      }
    }
  }

  lemma CompletesThenDelivers(m: seq<byte>, begun: seq<nat>, rest: seq<nat>, ins: seq<Input>)
    requires |m| > INIT_DATA && |begun| + |rest| == |ins| && Within(m, rest)
    requires Track(m, begun, ins[..|begun|]).waiting == Some({}) && CoverLength(m, rest).Some?
    ensures
      var upTo := begun + rest[..CoverLength(m, rest).value];
      var p := Track(m, upTo, ins[..|upTo|]);
      p.waiting.None? && |p.answers| == |Track(m, begun, ins[..|begun|]).answers| + 1
  {
    hide Track, Covers, Conts, Numbers;
    var late := rest[..CoverLength(m, rest).value];
    SomeToCover(m);
    assert late != [];
    assert late[..|late| - 1] == rest[..|late| - 1];
    assert ins[..|begun + late|][..|begun|] == ins[..|begun|];
    Completing(m, begun, late, ins[..|begun + late|]);
  }

  /** Sender and receiver together. The frames the sender queues for a message of at most
      7609 bytes, delivered on an idle channel in any order and each any number of times,
      make the handler run, each time on the bytes that were sent, as often as Deliver
      counts, and leave a command waiting exactly if it says so; unless the message's first
      byte names no command, when they do nothing. */
  lemma SendThenReceive(d: Device, cid: Cid, m: seq<byte>, order: seq<nat>, ins: seq<Input>)
    requires cid in d.cids && d.cids[cid].None? && 0 < |m| <= MAX_MESSAGE && |order| == |ins|
    requires var sent := Sent(cid, CTAPHID_CBOR, |m|, m);
             forall x | 0 <= x < |order| :: order[x] < |sent| && ins[x].frame == sent[order[x]]
    ensures Padded(m)[1..][..|m| - 1] == m[1..]
    ensures
      var o := if m[0] in KNOWN_COMMANDS then Deliver(m, order) else Outcome(0, false);
      var after := Run(d, ins);
      && after.unpacked == d.unpacked + Requests(cid, m, o.runs)
      && cid in after.cids && after.cids == d.cids[cid := after.cids[cid]]
      && (after.cids[cid].Some? <==> o.waiting)
  {
    SentIsDelivered(cid, m, order, ins);
    assert Padded(m)[1..][..|m| - 1] == m[1..];
    hide Sent, Padded, Track, Conts, MessageFrame, Waiting, Partial, Replies, Deliver, Requests;
    if m[0] in KNOWN_COMMANDS {
      DeviceTracks(d, cid, m, order, ins);
      assert [] + order == order && ins[..0] == [];
      assert Track(m, [], []) == Progress(None, []) by { NothingTracked(m); }
      TrackDelivers(m, [], order, ins);
    } else {
      UnknownCommandIgnored(d, cid, m, order, ins);
      assert Requests(cid, m, 0) == [];
      assert d.unpacked + [] == d.unpacked;
      assert d.cids[cid := d.cids[cid]] == d.cids;
    }
  }

  lemma NothingTracked(m: seq<byte>)
    requires m != []
    ensures Track(m, [], []) == Progress(None, [])
  {
  }

  // ---- Exactly once ----

  /** Nowhere in `s` is a first frame followed by all continuation frames. */
  predicate NotAgain(m: seq<byte>, s: seq<nat>)
    requires m != []
  {
    forall i | 0 <= i < |s| && s[i] == 0 :: !Covers(m, s[i + 1..])
  }

  lemma NoRuns(m: seq<byte>, order: seq<nat>)
    requires |m| > INIT_DATA
    ensures Deliver(m, order).runs == 0 <==> NotAgain(m, order)
  {
    hide Covers;
    var z := FirstZero(order);
    if z < |order| {
      forall i | 0 <= i < |order| && order[i] == 0 && Covers(m, order[i + 1..])
        ensures Covers(m, order[z + 1..])
      {
        assert i >= z;
        CoversMore(m, order[i + 1..], order[z + 1..]);
      }
    } else {
      assert order[..z] == order;
      assert forall i | 0 <= i < |order| :: order[i] in order;
    }
  }

  /** For a longer message: all continuation frames come after the first delivery of the
      first frame, and, once they have, no first frame is followed by all of them again.
      For a shorter one: the first frame is delivered once. For 57 bytes: never. */
  predicate DeliversOnce(m: seq<byte>, order: seq<nat>)
    requires m != []
  {
    if |m| < INIT_DATA then multiset(order)[0] == 1
    else if |m| == INIT_DATA then false
    else
      var z := FirstZero(order);
      && z < |order|
      && var k := CoverLength(m, order[z + 1..]);
         k.Some? && NotAgain(m, order[z + 1..][k.value..])
  }

  lemma {:induction false} ShortRuns(m: seq<byte>, order: seq<nat>)
    requires 0 < |m| < INIT_DATA
    ensures Deliver(m, order).runs == multiset(order)[0]
    decreases |order|
  {
    hide Deliver, FirstZero, CoverLength;
    var z := FirstZero(order);
    DeliverUnfolds(m, order);
    CountZeros(order);
    if z < |order| {
      ShortRuns(m, order[z + 1..]);
    }
  }

  lemma CountZeros(order: seq<nat>)
    ensures
      var z := FirstZero(order);
      multiset(order)[0] == if z == |order| then 0 else 1 + multiset(order[z + 1..])[0]
  {
    hide FirstZero;
    var z := FirstZero(order);
    assert 0 !in multiset(order[..z]);
    if z == |order| {
      assert order[..z] == order;
    } else {
      assert order == order[..z] + [0] + order[z + 1..];
    }
  }

  /** So the handler runs exactly once if and only if the message is delivered once. */
  lemma OnceExactly(m: seq<byte>, order: seq<nat>)
    requires m != []
    ensures Deliver(m, order).runs == 1 <==> DeliversOnce(m, order)
  {
    hide NotAgain, CoverLength;
    if |m| < INIT_DATA {
      ShortRuns(m, order);
    } else if |m| > INIT_DATA {
      var z := FirstZero(order);
      if z < |order| && CoverLength(m, order[z + 1..]).Some? {
        CoverBound(m, order[z + 1..]);
        NoRuns(m, order[z + 1..][CoverLength(m, order[z + 1..]).value..]);
      }
    }
  }

  lemma CoverBound(m: seq<byte>, s: seq<nat>)
    requires m != [] && CoverLength(m, s).Some?
    ensures CoverLength(m, s).value <= |s|
  {
  }

  lemma PairDelivers(m: seq<byte>, rest: seq<nat>)
    requires INIT_DATA < |m| <= INIT_DATA + CONT_DATA
    ensures FirstZero([0, 1] + rest) == 0 && CoverLength(m, ([0, 1] + rest)[1..]) == Some(1)
    ensures Deliver(m, [0, 1] + rest) == OneMore(Deliver(m, rest))
  {
    hide Deliver, CoverLength;
    var order := [0, 1] + rest;
    var after := order[1..];
    DeliverUnfolds(m, order);
    assert after[..1] == [1] && after[..0] == [] && after[1..] == rest;
    SomeToCover(m);
    assert Covers(m, [1]);
    CoversMore(m, [1], after);
  }

  /** Repeats of the first frame matter: with two frames, the second delivery counts. */
  lemma RepeatedMessageRunsTwice(m: seq<byte>)
    requires INIT_DATA < |m| <= INIT_DATA + CONT_DATA
    ensures Deliver(m, [0, 1, 0, 1]) == Outcome(2, false)
    ensures !DeliversOnce(m, [0, 1, 0, 1])
  {
    hide DeliversOnce, Covers, CoverLength;
    var none: seq<nat> := [];
    PairDelivers(m, [0, 1]);
    PairDelivers(m, none);
    assert [0, 1] + [0, 1] == [0, 1, 0, 1] && [0, 1] + none == [0, 1];
    DeliverUnfolds(m, none);
    OnceExactly(m, [0, 1, 0, 1]);
  }
}
