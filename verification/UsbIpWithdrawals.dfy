/** Which IN requests wait, and in which order, told from the events alone: polls, frames
    and withdrawals. */
module UsbIpWithdrawals {
  import opened Bytes
  import opened UsbIpDevice
  import opened UsbIpResponses

  /** A frame was sent for the request numbered `x`. */
  predicate Answered(u: Usb, x: nat) {
    exists a | 0 <= a < |u.answered| :: u.answered[a].seqnum == x
  }

  /** The host polled with number `x` before event `n`. */
  predicate PolledBefore(es: seq<Event>, n: nat, x: nat)
    requires n <= |es|
  {
    exists j | 0 <= j < n :: es[j] == In(x)
  }

  /** The host withdrew `x` after polling with it, and no frame had been sent for it. */
  predicate Withdrawn(convert: bool, es: seq<Event>, x: nat) {
    exists i | 0 <= i < |es| ::
      es[i] == Unlink(x) && PolledBefore(es, i, x) && !Answered(UsbRun(Empty(convert), es[..i]), x)
  }

  lemma {:induction false} ServedHas(answered: seq<Answer>)
    ensures |Served(answered)| == |answered|
    ensures forall a | 0 <= a < |answered| :: Served(answered)[a] == answered[a].seqnum
  {
    if answered != [] {
      ServedHas(answered[..|answered| - 1]);
    }
  }

  lemma ServedIsAnswered(u: Usb, x: nat)
    ensures x in Served(u.answered) <==> Answered(u, x)
  {
    hide Served;
    ServedHas(u.answered);
    if Answered(u, x) {
      var a :| 0 <= a < |u.answered| && u.answered[a].seqnum == x;
      assert Served(u.answered)[a] == x;
    }
  }

  lemma {:induction false} PolledHas(es: seq<Event>, x: nat)
    ensures x in Polled(es) <==> PolledBefore(es, |es|, x)
  {
    if es != [] {
      var was, last := es[..|es| - 1], es[|es| - 1];
      PolledHas(was, x);
      assert PolledBefore(es, |es|, x) <==> PolledBefore(was, |was|, x) || last == In(x);
      hide PolledBefore;
    }
  }

  lemma {:induction false} WithoutHas(s: seq<nat>, gone: set<nat>, x: nat)
    ensures x in Without(s, gone) <==> x in s && x !in gone
  {
    if s != [] {
      WithoutHas(s[..|s| - 1], gone, x);
    }
  }

  lemma {:induction false} WithoutIsDistinct(s: seq<nat>, gone: set<nat>)
    requires Distinct(s)
    ensures Distinct(Without(s, gone))
  {
    if s != [] {
      var last := |s| - 1;
      WithoutIsDistinct(s[..last], gone);
      WithoutHas(s[..last], gone, s[last]);
    }
  }

  lemma {:induction false} PolledPrefix(es: seq<Event>, n: nat)
    requires n <= |es| && Distinct(Polled(es))
    ensures Distinct(Polled(es[..n]))
  {
    if n == |es| {
      assert es[..n] == es;
    } else {
      var was := es[..|es| - 1];
      DistinctPrefix(Polled(was), Polled(es));
      PolledPrefix(was, n);
      assert was[..n] == es[..n];
    }
  }

  /** Every request polled is in exactly one place: answered, waiting or withdrawn. */
  lemma InOnePlace(convert: bool, es: seq<Event>, x: nat)
    requires Distinct(Polled(es))
    ensures
      var u := UsbRun(Empty(convert), es);
      && !(Answered(u, x) && x in u.pending) && !(Answered(u, x) && x in u.unlinked)
      && !(x in u.pending && x in u.unlinked)
      && (Answered(u, x) || x in u.pending || x in u.unlinked <==> x in Polled(es))
  {
    hide Served, Without, Distinct, Answered, UsbRun;
    var u := UsbRun(Empty(convert), es);
    RequestsConserved(convert, es);
    ServedIsAnswered(u, x);
    WithoutHas(u.queued, u.unlinked, x);
    WithoutIsDistinct(u.queued, u.unlinked);
    var served := Served(u.answered);
    assert x in served + u.pending <==> x in served || x in u.pending;
    if x in served && x in u.pending {
      Apart(served, u.pending, x);
    }
  }

  lemma Apart(a: seq<nat>, b: seq<nat>, x: nat)
    requires Distinct(a + b)
    ensures !(x in a && x in b)
  {
    forall i, j | 0 <= i < |a| && 0 <= j < |b|
      ensures a[i] != b[j]
    {
      assert (a + b)[i] == a[i] && (a + b)[|a| + j] == b[j];
    }
  }

  /** What one event does to the withdrawn and the answered requests. */
  lemma StepAccounts(u: Usb, e: Event)
    ensures
      var u' := UsbStep(u, e);
      && u.answered <= u'.answered
      && u'.unlinked == if e.Unlink? && e.seqnum in u.pending then u.unlinked + {e.seqnum} else u.unlinked
  {
    hide Send, AfterOut;
    match e {
      case In(seqnum) =>
        var u1 := u.(pending := u.pending + [seqnum], queued := u.queued + [seqnum]);
        var ready := FirstReady(u1, 0);
        if ready.Some? { SendMovesOne(u1, ready.value, ready.value); }
      case Unlink(_) =>
      case Out(input) => OutKeepsQueue(u, input);
    }
  }

  lemma {:induction false} AnswersStay(convert: bool, es: seq<Event>, n: nat)
    requires n <= |es|
    ensures UsbRun(Empty(convert), es[..n]).answered <= UsbRun(Empty(convert), es).answered
  {
    hide UsbStep;
    if n == |es| {
      assert es[..n] == es;
    } else {
      var was := es[..|es| - 1];
      assert was[..n] == es[..n];
      AnswersStay(convert, was, n);
      StepAccounts(UsbRun(Empty(convert), was), es[|es| - 1]);
    }
  }

  lemma AnsweredStays(convert: bool, es: seq<Event>, n: nat, x: nat)
    requires n <= |es| && Answered(UsbRun(Empty(convert), es[..n]), x)
    ensures Answered(UsbRun(Empty(convert), es), x)
  {
    hide UsbRun;
    AnswersStay(convert, es, n);
    var a :| 0 <= a < |UsbRun(Empty(convert), es[..n]).answered|
          && UsbRun(Empty(convert), es[..n]).answered[a].seqnum == x;
    assert UsbRun(Empty(convert), es).answered[a].seqnum == x;
  }

  lemma WithdrawnStep(convert: bool, es: seq<Event>, x: nat)
    requires es != []
    ensures
      var was, last := es[..|es| - 1], |es| - 1;
      Withdrawn(convert, es, x) <==>
        || Withdrawn(convert, was, x)
        || (es[last] == Unlink(x) && PolledBefore(was, last, x) && !Answered(UsbRun(Empty(convert), was), x))
  {
    hide UsbRun, Answered;
    var was := es[..|es| - 1];
    forall i | 0 <= i < |es|
      ensures i < |was| ==> was[..i] == es[..i]
      ensures PolledBefore(es, i, x) <==> PolledBefore(was, i, x)
    {
    }
    hide PolledBefore;
    if Withdrawn(convert, was, x) {
      var i :| 0 <= i < |was| && was[i] == Unlink(x) && PolledBefore(was, i, x)
            && !Answered(UsbRun(Empty(convert), was[..i]), x);
      assert es[i] == Unlink(x);
    }
  }

  /** The requests taken off the queue unanswered are those the host withdrew after polling
      with them and before they were answered. */
  lemma {:induction false} UnlinkedExactly(convert: bool, es: seq<Event>, x: nat)
    requires Distinct(Polled(es))
    ensures x in UsbRun(Empty(convert), es).unlinked <==> Withdrawn(convert, es, x)
  {
    if es != [] {
      var was, e := es[..|es| - 1], es[|es| - 1];
      PolledPrefix(es, |was|);
      UnlinkedExactly(convert, was, x);
      WithdrawnStep(convert, es, x);
      hide Withdrawn, Answered, Distinct, Polled, PolledBefore, UsbStep;
      StepAccounts(UsbRun(Empty(convert), was), e);
      if e == Unlink(x) {
        InOnePlace(convert, was, x);
        PolledHas(was, x);
      }
    }
  }

  /** A request withdrawn is gone for good: it waits no more, and no frame is ever sent for
      it that had not been sent before. */
  lemma WithdrawnForGood(convert: bool, es: seq<Event>, i: nat, x: nat)
    requires Distinct(Polled(es)) && i < |es| && es[i] == Unlink(x) && PolledBefore(es, i, x)
    ensures x !in UsbRun(Empty(convert), es).pending
    ensures Answered(UsbRun(Empty(convert), es), x) <==> Answered(UsbRun(Empty(convert), es[..i]), x)
  {
    hide UsbRun, Answered, Distinct, Polled, PolledBefore;
    InOnePlace(convert, es, x);
    UnlinkedExactly(convert, es, x);
    if Answered(UsbRun(Empty(convert), es[..i]), x) {
      AnsweredStays(convert, es, i, x);
    }
  }

  /** A request waits exactly if the host polled with it, nothing has answered it, and the
      host has not withdrawn it since. */
  lemma WaitsExactly(convert: bool, es: seq<Event>, x: nat)
    requires Distinct(Polled(es))
    ensures
      var u := UsbRun(Empty(convert), es);
      x in u.pending <==>
        exists j | 0 <= j < |es| ::
          es[j] == In(x) && !Answered(u, x) && forall i | j < i < |es| :: es[i] != Unlink(x)
  {
    hide UsbRun, Answered, Distinct, Polled;
    var u := UsbRun(Empty(convert), es);
    InOnePlace(convert, es, x);
    PolledHas(es, x);
    if x in u.pending {
      var j :| 0 <= j < |es| && es[j] == In(x);
      forall i | j < i < |es|
        ensures es[i] != Unlink(x)
      {
        if es[i] == Unlink(x) { WithdrawnForGood(convert, es, i, x); }
      }
    }
    if j :| 0 <= j < |es| && es[j] == In(x) && !Answered(u, x) && forall i | j < i < |es| :: es[i] != Unlink(x) {
      UnlinkedExactly(convert, es, x);
      if x in u.unlinked {
        var i :| 0 <= i < |es| && es[i] == Unlink(x) && PolledBefore(es, i, x);
        var k :| 0 <= k < i && es[k] == In(x);
        PolledOnce(es, k, j);
      }
    }
  }

  /** With distinct numbers, no number is polled twice. */
  lemma {:induction false} PolledOnce(es: seq<Event>, i: nat, j: nat)
    requires Distinct(Polled(es)) && i < |es| && j < |es| && es[i].In? && es[i] == es[j]
    ensures i == j
  {
    var last := |es| - 1;
    PolledPrefix(es, last);
    if i < last && j < last {
      PolledOnce(es[..last], i, j);
    } else if i < last {
      LastPollIsNew(es, i);
    } else if j < last {
      LastPollIsNew(es, j);
    }
  }

  lemma LastPollIsNew(es: seq<Event>, i: nat)
    requires Distinct(Polled(es)) && i < |es| - 1 && es[|es| - 1].In?
    ensures es[i] != es[|es| - 1]
  {
    var was, x := es[..|es| - 1], es[|es| - 1].seqnum;
    PolledHas(was, x);
    assert was[i] == es[i];
    assert Polled(es) == Polled(was) + [x];
    Apart(Polled(was), [x], x);
  }

  /** Numbers are distinct when no two polls carry the same one. */
  lemma {:induction false} DistinctPolls(es: seq<Event>)
    requires forall i, j | 0 <= i < j < |es| && es[i].In? :: es[i] != es[j]
    ensures Distinct(Polled(es))
  {
    if es != [] {
      DistinctPolls(es[..|es| - 1]);
      if es[|es| - 1].In? {
        PolledHas(es[..|es| - 1], es[|es| - 1].seqnum);
      }
    }
  }

  /** The requests answered, then those waiting, are in the order the host polled. */
  lemma RequestsKeepOrder(convert: bool, es: seq<Event>, a: nat, b: nat)
    requires Distinct(Polled(es))
    ensures
      var u := UsbRun(Empty(convert), es);
      var line := seq(|u.answered|, k requires 0 <= k < |u.answered| => u.answered[k].seqnum) + u.pending;
      a < b < |line| ==> exists j, k | 0 <= j < k < |es| :: es[j] == In(line[a]) && es[k] == In(line[b])
  {
    hide UsbRun, Distinct, Polled, Without, Served;
    var u := UsbRun(Empty(convert), es);
    var line := seq(|u.answered|, k requires 0 <= k < |u.answered| => u.answered[k].seqnum) + u.pending;
    ServedHas(u.answered);
    assert line == Served(u.answered) + u.pending;
    RequestsConserved(convert, es);
    if a < b < |line| {
      var p, q := WithoutInOrder(Polled(es), u.unlinked, a, b);
      var j, k := PolledInOrder(es, p, q);
    }
  }

  lemma {:induction false} WithoutInOrder(s: seq<nat>, gone: set<nat>, a: nat, b: nat) returns (p: nat, q: nat)
    requires a < b < |Without(s, gone)|
    ensures p < q < |s| && s[p] == Without(s, gone)[a] && s[q] == Without(s, gone)[b]
  {
    var was := s[..|s| - 1];
    if b < |Without(was, gone)| {
      p, q := WithoutInOrder(was, gone, a, b);
    } else {
      assert Without(was, gone)[a] in Without(was, gone);
      WithoutHas(was, gone, Without(was, gone)[a]);
      p :| 0 <= p < |was| && was[p] == Without(was, gone)[a];
      q := |s| - 1;
    }
  }

  lemma {:induction false} PolledInOrder(es: seq<Event>, p: nat, q: nat) returns (j: nat, k: nat)
    requires p < q < |Polled(es)|
    ensures j < k < |es| && es[j] == In(Polled(es)[p]) && es[k] == In(Polled(es)[q])
  {
    var was := es[..|es| - 1];
    if q < |Polled(was)| {
      j, k := PolledInOrder(was, p, q);
    } else {
      assert Polled(was)[p] in Polled(was);
      PolledHas(was, Polled(was)[p]);
      j :| 0 <= j < |was| && was[j] == In(Polled(was)[p]);
      k := |es| - 1;
    }
  }

  /** On the device as written, which answers no request with a segment, the requests
      waiting are those polled and not withdrawn since, each once and in order. */
  lemma WrittenDeviceWaits(es: seq<Event>, x: nat)
    requires Distinct(Polled(es))
    ensures
      x in UsbRun(Empty(false), es).pending <==>
        exists j | 0 <= j < |es| :: es[j] == In(x) && forall i | j < i < |es| :: es[i] != Unlink(x)
  {
    hide UsbRun, Distinct, Polled;
    ListSegmentsAreNeverSent(es);
    WaitsExactly(false, es, x);
  }
}
