/** A request and its response over USB/IP, from the first frame to the last poll, on a
    device that converts its segments: the frames the UHID device would send. */
module UsbIpDelivery {
  import opened Bytes
  import opened CborCommands
  import opened PasskeyDevice
  import opened Reassembly
  import opened DeliveredAnswers
  import opened UsbIpDevice

  function Outs(ins: seq<Input>): (es: seq<Event>)
    ensures |es| == |ins| && forall i | 0 <= i < |ins| :: es[i] == Out(ins[i])
  {
    seq(|ins|, i requires 0 <= i < |ins| => Out(ins[i]))
  }

  function Polls(xs: seq<nat>): (es: seq<Event>)
    ensures |es| == |xs| && forall i | 0 <= i < |xs| :: es[i] == In(xs[i])
  {
    seq(|xs|, i requires 0 <= i < |xs| => In(xs[i]))
  }

  // ---- The request ----

  /** From `u` to `u'`, the command stored under `cid` changed, and nothing else that counts
      for answering polls. */
  predicate Still(u: Usb, u': Usb, cid: Cid) {
    && u' == u.(cids := u'.cids, responses := u'.responses)
    && cid in u.cids && cid in u'.cids && u'.cids[cid].Some? && u'.cids == u.cids[cid := u'.cids[cid]]
  }

  /** The command has its response: the handler's answer, or the error. */
  predicate Finished(c: Command, m: seq<byte>, answer: seq<byte>)
    requires m != []
  {
    && c.ready && c.responseSegment == 0 && c.ctaphidCmd == 0x90
    && (c.response, c.bcnt) == if m[0] in {0x01, 0x02, 0x04, 0x06, 0x0B} then (answer, |answer|) else ([0x01], 0)
  }

  /** What the first frame leaves: a command to be sent, or one that waits. */
  lemma FirstFrameStores(u: Usb, cid: Cid, m: seq<byte>, i: Input)
    requires cid in u.cids && 0 < |m| <= MAX_MESSAGE && m[0] in KNOWN_COMMANDS && i.frame == MessageFrame(cid, m, 0)
    ensures
      var c := Received(i.frame[5..], i.frame[4], i.answer).0;
      var u' := Store(u, cid, c);
      && Still(u, u', cid) && u'.cids[cid].value.cmd == c
      && UsbStep(u, Out(i)) == (if |m| < INIT_DATA then Send(u', cid, cid) else u')
      && if |m| < INIT_DATA then Finished(c, m, i.answer) else Waiting(c, m, {}) && Partial(m, {})
  {
    FirstFrame(cid, m);
    FirstFrameReceived(cid, m, i);
    NonePartial(m);
    hide MessageFrame, FromBE, Send, Waiting, Padded;
  }

  lemma SegmentStays(c: Command, segment: seq<byte>, seqNum: nat, answer: seq<byte>)
    ensures Append(c, segment, seqNum, answer).0.responseSegment == c.responseSegment
  {
    hide Drain;
  }

  /** What one more frame leaves, before anything is sent. */
  function Appending(u: Usb, cid: Cid, i: Input): Usb
    requires cid in u.cids && u.cids[cid].Some?
  {
    var live := u.cids[cid].value;
    var (c, ran) := Append(live.cmd, i.frame[5..], i.frame[4], i.answer);
    if ran then Store(u, cid, c) else u.(cids := u.cids[cid := Some(live.(cmd := c))])
  }

  lemma AppendFinishes(was: Command, m: seq<byte>, received: set<nat>, x: nat, answer: seq<byte>)
    requires m != [] && Waiting(was, m, received) && Partial(m, received) && x < Conts(|m|)
    ensures
      var (c, ran), now := Append(was, Segment(m, x), x, answer), received + {x};
      && (ran <==> Complete(m, now)) && (c.ready <==> ran)
      && if ran then Finished(c, m, answer) else Waiting(c, m, now) && Partial(m, now)
  {
    assert was.responseSegment == 0;
    hide Append, Waiting, Partial, Padded, Segment, Complete, Conts;
    AppendReceives(was, m, received, x, answer);
    SegmentStays(was, Segment(m, x), x, answer);
  }

  lemma OneMoreAppended(was: Command, m: seq<byte>, received: set<nat>, i: Input, cid: Cid, j: nat)
    requires 0 < |m| <= MAX_MESSAGE && Waiting(was, m, received) && Partial(m, received)
    requires 1 <= j <= Conts(|m|) && i.frame == MessageFrame(cid, m, j)
    ensures CidOf(i.frame) == cid && !IsCommand(i.frame)
    ensures
      var (c, ran), now := Append(was, i.frame[5..], i.frame[4], i.answer), received + {j - 1};
      && (ran <==> Complete(m, now)) && (c.ready <==> ran)
      && if ran then Finished(c, m, i.answer) else Waiting(c, m, now) && Partial(m, now)
  {
    hide MessageFrame, Append, Waiting, Partial, Padded, Segment, Complete, Conts, Finished;
    NextFrame(cid, m, j);
    AppendFinishes(was, m, received, j - 1, i.answer);
  }

  lemma NextFrameAppends(u: Usb, cid: Cid, m: seq<byte>, received: set<nat>, i: Input, j: nat)
    requires cid in u.cids && u.cids[cid].Some? && 0 < |m| <= MAX_MESSAGE
    requires Waiting(u.cids[cid].value.cmd, m, received) && Partial(m, received)
    requires 1 <= j <= Conts(|m|) && i.frame == MessageFrame(cid, m, j)
    ensures
      var u', now := Appending(u, cid, i), received + {j - 1};
      && Still(u, u', cid)
      && UsbStep(u, Out(i)) == (if Complete(m, now) then Send(u', cid, cid) else u')
      && if Complete(m, now) then Finished(u'.cids[cid].value.cmd, m, i.answer)
         else Waiting(u'.cids[cid].value.cmd, m, now) && Partial(m, now)
  {
    hide MessageFrame, Append, Send, Waiting, Partial, Complete, Conts, Finished;
    OneMoreAppended(u.cids[cid].value.cmd, m, received, i, cid, j);
  }

  /** The frames of `m`: the first one, and then those numbered in `late`. */
  predicate Arrives(cid: Cid, m: seq<byte>, late: seq<nat>, ins: seq<Input>) {
    && 0 < |m| <= MAX_MESSAGE && m[0] in KNOWN_COMMANDS && |ins| == 1 + |late| && OnlyContinuations(m, late)
    && ins[0].frame == MessageFrame(cid, m, 0)
    && forall x | 0 <= x < |late| :: ins[x + 1].frame == MessageFrame(cid, m, late[x])
  }

  lemma NumbersGrow(m: seq<byte>, late: seq<nat>)
    requires m != [] && late != [] && OnlyContinuations(m, late)
    ensures Numbers(late) == Numbers(late[..|late| - 1]) + {late[|late| - 1] - 1}
  {
    assert late == late[..|late| - 1] + [late[|late| - 1]];
    OneMoreNumber(late[..|late| - 1], late[|late| - 1]);
  }

  lemma OutsOneMore(u: Usb, ins: seq<Input>)
    requires ins != []
    ensures UsbRun(u, Outs(ins)) == UsbStep(UsbRun(u, Outs(ins[..|ins| - 1])), Out(ins[|ins| - 1]))
  {
    assert Outs(ins)[..|ins| - 1] == Outs(ins[..|ins| - 1]);
  }

  lemma NoOuts(u: Usb)
    ensures UsbRun(u, Outs([])) == u
  {
  }

  /** Until all have come, the command waits with those that have. */
  lemma {:induction false} FramesGather(u: Usb, cid: Cid, m: seq<byte>, late: seq<nat>, ins: seq<Input>)
    requires cid in u.cids && Arrives(cid, m, late, ins) && |m| >= INIT_DATA
    requires late != [] ==> !Complete(m, Numbers(late))
    ensures
      var u' := UsbRun(u, Outs(ins));
      Still(u, u', cid) && Waiting(u'.cids[cid].value.cmd, m, Numbers(late)) && Partial(m, Numbers(late))
  {
    hide Waiting, Partial, UsbStep, Complete, Numbers, Conts, MessageFrame, Received, UsbRun, Appending;
    var last := |ins| - 1;
    OutsOneMore(u, ins);
    if late == [] {
      assert ins[..0] == [];
      NoOuts(u);
      FirstFrameStores(u, cid, m, ins[0]);
      assert Numbers(late) == {} by { NoneNumbered(); }
    } else {
      var was := late[..last - 1];
      NumbersGrow(m, late);
      if Complete(m, Numbers(was)) {
        StaysComplete(m, Numbers(was), late[last - 1] - 1);
      }
      FramesGather(u, cid, m, was, ins[..last]);
      NextFrameAppends(UsbRun(u, Outs(ins[..last])), cid, m, Numbers(was), ins[last], late[last - 1]);
    }
  }

  lemma NoneNumbered()
    ensures Numbers([]) == {}
  {
  }

  /** The last frame missing ends the request: the response is stored, and sent from. */
  lemma RequestEnds(u: Usb, cid: Cid, m: seq<byte>, late: seq<nat>, ins: seq<Input>) returns (u': Usb)
    requires cid in u.cids && Arrives(cid, m, late, ins)
    requires
      if |m| < INIT_DATA then late == []
      else late != [] && Covers(m, late) && !Covers(m, late[..|late| - 1])
    ensures Still(u, u', cid) && Finished(u'.cids[cid].value.cmd, m, ins[|ins| - 1].answer)
    ensures UsbRun(u, Outs(ins)) == Send(u', cid, cid)
  {
    hide Waiting, Partial, UsbStep, Complete, Numbers, Conts, MessageFrame, Received, UsbRun, Appending, Send, Finished;
    var last := |ins| - 1;
    OutsOneMore(u, ins);
    if late == [] {
      assert ins[..0] == [];
      NoOuts(u);
      FirstFrameStores(u, cid, m, ins[0]);
      u' := Store(u, cid, Received(ins[0].frame[5..], ins[0].frame[4], ins[0].answer).0);
    } else {
      var was := late[..last - 1];
      NumbersGrow(m, late);
      CoversMeansComplete(m, late);
      CoversMeansComplete(m, was);
      hide Covers;
      FramesGather(u, cid, m, was, ins[..last]);
      var before := UsbRun(u, Outs(ins[..last]));
      NextFrameAppends(before, cid, m, Numbers(was), ins[last], late[last - 1]);
      u' := Appending(before, cid, ins[last]);
    }
  }

  // ---- The response ----

  /** The first `k` frames of the command's response have been sent, to the first `k` of
      the requests in `line`. */
  predicate FramesWent(was: seq<Answer>, now: seq<Answer>, line: seq<nat>, cid: Cid, c: Command, k: nat) {
    && k <= SentCount(|c.response|, c.bcnt) && k <= |line|
    && |now| == |was| + k && now[..|was|] == was
    && forall j | 0 <= j < k ::
         && now[|was| + j].seqnum == line[j]
         && now[|was| + j].frame == Sent(cid, c.ctaphidCmd, c.bcnt, c.response)[j]
  }

  /** The command `c` after `k` frames of its response; after the last it is gone. */
  predicate Remains(c: Command, k: nat, live: Option<Live>) {
    if k >= FrameCount(|c.response|) then live.None?
    else
      && live.Some?
      && live.value.cmd == c.(responseSegment := k, response := Rest(c.response, k), listed := live.value.cmd.listed)
  }

  /** `k` frames of the response stored under `cid` in `u0` have been sent, and `xs` polled
      in the meantime. */
  predicate SentSoFar(u0: Usb, u: Usb, cid: Cid, xs: seq<nat>, k: nat)
    requires cid in u0.cids && u0.cids[cid].Some?
  {
    var c, line := u0.cids[cid].value.cmd, u0.pending + xs;
    && FramesWent(u0.answered, u.answered, line, cid, c, k)
    && u == u0.(cids := u.cids, pending := line[k..], answered := u.answered, queued := u.queued)
    && cid in u.cids && u.cids == u0.cids[cid := u.cids[cid]] && Remains(c, k, u.cids[cid])
  }

  /** A ready response is there, and can be sent to its end. */
  predicate CanSend(u0: Usb, cid: Cid) {
    && u0.convert && cid in u0.cids && u0.cids[cid].Some? && cid != BROADCAST
    && var c := u0.cids[cid].value.cmd;
       c.ready && c.responseSegment == 0 && SentCount(|c.response|, c.bcnt) == FrameCount(|c.response|)
  }

  /** A segment that packs goes to the first request waiting; with nothing left of its
      response, the channel has no command any more, unless it is the broadcast channel. */
  lemma SegmentGoesOut(u: Usb, cid: Cid)
    requires u.convert && u.pending != [] && cid in u.cids && u.cids[cid].Some?
    requires SegmentPacks(u.cids[cid].value.cmd)
    ensures
      var live := u.cids[cid].value;
      var n := if live.cmd.responseSegment == 0 then 57 else 59;
      var rest := if n >= |live.cmd.response| then [] else live.cmd.response[n..];
      var u', c' := Send(u, cid, cid), Taken(live.cmd, n);
      var ends := rest == [] && cid != [0xFF, 0xFF, 0xFF, 0xFF];
      && c' == live.cmd.(responseSegment := live.cmd.responseSegment + 1, response := rest, listed := c'.listed)
      && u' == u.(pending := u.pending[1..], answered := u'.answered,
                  cids := u.cids[cid := if ends then None else Some(live.(cmd := c'))])
      && |u'.answered| == |u.answered| + 1 && u'.answered[..|u.answered|] == u.answered
      && u'.answered[|u.answered|].seqnum == u.pending[0]
      && u'.answered[|u.answered|].frame == SegmentFrame(cid, live.cmd)
  {
    PacksExactly(u.convert, cid, u.cids[cid].value.cmd);
    hide PackSegment, Filled, SegmentFrame, SegmentPacks;
  }

  lemma OneLessRemains(cid: Cid, c: Command, k: nat, live: Live, listed: bool)
    requires c.responseSegment == 0 && Remains(c, k, Some(live)) && k < SentCount(|c.response|, c.bcnt)
    ensures SegmentPacks(live.cmd) && Offset(k) <= |c.response|
    ensures SegmentFrame(cid, live.cmd) == FrameAt(cid, c.ctaphidCmd, c.bcnt, c.response, k)
    ensures
      var n := if live.cmd.responseSegment == 0 then 57 else 59;
      var rest := if n >= |live.cmd.response| then [] else live.cmd.response[n..];
      var next := live.(cmd := live.cmd.(responseSegment := live.cmd.responseSegment + 1, response := rest,
                                         listed := listed));
      Remains(c, k + 1, if rest == [] then None else Some(next))
  {
    SegmentIsFrameAt(cid, c, k, live.cmd.listed);
    RestEmpty(c.response, k + 1);
    hide SegmentFrame, FrameAt, Rest, FrameCount, Offset;
  }

  lemma OneSent(u0: Usb, u: Usb, cid: Cid, xs: seq<nat>, k: nat)
    requires CanSend(u0, cid) && SentSoFar(u0, u, cid, xs, k)
    requires k < FrameCount(|u0.cids[cid].value.cmd.response|) && u.pending != []
    ensures SentSoFar(u0, Send(u, cid, cid), cid, xs, k + 1)
  {
    hide SegmentFrame, FrameAt, Rest, SegmentPacks, FrameCount, SentCount, Send, Offset;
    var c, line := u0.cids[cid].value.cmd, u0.pending + xs;
    assert k < |line|;
    hide FramesWent;
    var live := u.cids[cid].value;
    var n := if live.cmd.responseSegment == 0 then 57 else 59;
    OneLessRemains(cid, c, k, live, Taken(live.cmd, n).listed);
    SegmentGoesOut(u, cid);
    hide Remains;
    FrameGoes(u0.answered, u.answered, line, cid, c, k, Send(u, cid, cid).answered);
    assert u.pending[1..] == line[k + 1..];
  }

  lemma FrameGoes(was: seq<Answer>, now: seq<Answer>, line: seq<nat>, cid: Cid, c: Command, k: nat, next: seq<Answer>)
    requires FramesWent(was, now, line, cid, c, k) && k < SentCount(|c.response|, c.bcnt) && k < |line|
    requires |next| == |now| + 1 && next[..|now|] == now && next[|now|].seqnum == line[k]
    requires Offset(k) <= |c.response| && next[|now|].frame == FrameAt(cid, c.ctaphidCmd, c.bcnt, c.response, k)
    ensures FramesWent(was, next, line, cid, c, k + 1)
  {
    FramesAt(cid, c.ctaphidCmd, c.bcnt, c.response, SentCount(|c.response|, c.bcnt), k);
    hide FrameAt, Frames, SentCount, Offset;
    assert next[..|was|] == now[..|was|];
    assert next == now + [next[|now|]];
  }

  /** If only `cid` has a ready response, that is the one a poll is answered from. */
  lemma {:induction false} OnlyReady(u: Usb, cid: Cid, i: nat)
    requires Ready(u, cid) && (forall e | Ready(u, e) :: e == cid)
    requires exists j :: i <= j < |u.order| && u.order[j] == cid
    ensures FirstReady(u, i) == Some(cid)
    decreases |u.order| - i
  {
    if !Ready(u, u.order[i]) {
      OnlyReady(u, cid, i + 1);
    }
  }

  lemma OnePoll(u0: Usb, u: Usb, cid: Cid, xs: seq<nat>, k: nat, x: nat)
    requires CanSend(u0, cid) && cid in u0.order && (forall e | Ready(u0, e) :: e == cid)
    requires SentSoFar(u0, u, cid, xs, k) && k < FrameCount(|u0.cids[cid].value.cmd.response|)
    ensures SentSoFar(u0, UsbStep(u, In(x)), cid, xs + [x], k + 1)
  {
    hide FrameCount, SentCount, Sent, Rest, Send;
    var u1 := u.(pending := u.pending + [x], queued := u.queued + [x]);
    var line := u0.pending + xs;
    assert u0.pending + (xs + [x]) == line + [x] && (line + [x])[k..] == line[k..] + [x];
    assert SentSoFar(u0, u1, cid, xs + [x], k);
    OneSent(u0, u1, cid, xs + [x], k);
    hide SentSoFar;
    var j :| 0 <= j < |u0.order| && u0.order[j] == cid;
    assert u1.order == u0.order && Ready(u1, cid);
    forall e | Ready(u1, e)
      ensures e == cid
    {
      assert e == cid || Ready(u0, e);
    }
    OnlyReady(u1, cid, 0);
  }

  lemma PollsOneMore(u: Usb, xs: seq<nat>)
    requires xs != []
    ensures UsbRun(u, Polls(xs)) == UsbStep(UsbRun(u, Polls(xs[..|xs| - 1])), In(xs[|xs| - 1]))
  {
    assert Polls(xs)[..|xs| - 1] == Polls(xs[..|xs| - 1]);
  }

  /** Polling once for every frame that is left. */
  lemma {:induction false} PollsCollect(u0: Usb, u: Usb, cid: Cid, k: nat, xs: seq<nat>)
    requires CanSend(u0, cid) && cid in u0.order && (forall e | Ready(u0, e) :: e == cid)
    requires SentSoFar(u0, u, cid, [], k) && k + |xs| <= FrameCount(|u0.cids[cid].value.cmd.response|)
    ensures SentSoFar(u0, UsbRun(u, Polls(xs)), cid, xs, k + |xs|)
  {
    hide SentSoFar, CanSend, Ready, FrameCount, UsbStep;
    if xs == [] {
      assert Polls(xs) == [];
    } else {
      var last := |xs| - 1;
      PollsCollect(u0, u, cid, k, xs[..last]);
      PollsOneMore(u, xs);
      OnePoll(u0, UsbRun(u, Polls(xs[..last])), cid, xs[..last], k + last, xs[last]);
      assert xs[..last] + [xs[last]] == xs;
    }
  }

  lemma {:induction false} RunsJoin(u: Usb, a: seq<Event>, b: seq<Event>)
    ensures UsbRun(u, a + b) == UsbRun(UsbRun(u, a), b)
  {
    hide UsbStep;
    if b == [] {
      assert a + b == a;
    } else {
      RunsJoin(u, a, b[..|b| - 1]);
      assert (a + b)[..|a + b| - 1] == a + b[..|b| - 1];
    }
  }

  /** With a request waiting, the first frame goes out at once. */
  lemma SendingStarts(u0: Usb, cid: Cid)
    requires CanSend(u0, cid) && u0.cids[cid].value.cmd.response != []
    ensures SentSoFar(u0, Send(u0, cid, cid), cid, [], if u0.pending == [] then 0 else 1)
  {
    var c := u0.cids[cid].value.cmd;
    RestEmpty(c.response, 0);
    assert Rest(c.response, 0) == c.response by { OffsetWithin(|c.response|, 0); }
    assert u0.pending + [] == u0.pending;
    hide FrameCount, SentCount, Rest, Sent;
    assert SentSoFar(u0, u0, cid, [], 0);
    if u0.pending != [] {
      OneSent(u0, u0, cid, [], 0);
    }
  }

  /** From the first frame to the last poll: a request delivered on a channel, completed by
      the last of `ins`, on a device where no other channel has a response ready; polls
      `xs` follow, as many as the response still needs. The polls that waited and these,
      in order, get the frames the UHID device would send: all of the handler's answer and
      nothing else, its length as byte count, or the error with byte count 0. The channel
      has no command afterwards, and polls left over wait on. */
  lemma RequestIsAnswered(u: Usb, cid: Cid, m: seq<byte>, late: seq<nat>, ins: seq<Input>, xs: seq<nat>)
    returns (fs: seq<Frame>)
    requires u.convert && cid in u.cids && cid in u.order && cid != BROADCAST && forall e | Ready(u, e) :: e == cid
    requires Arrives(cid, m, late, ins)
    requires
      if |m| < INIT_DATA then late == []
      else late != [] && Covers(m, late) && !Covers(m, late[..|late| - 1])
    requires m[0] in {0x01, 0x02, 0x04, 0x06, 0x0B} ==> 0 < |ins[|ins| - 1].answer| <= MAX_MESSAGE
    requires
      var size := if m[0] in {0x01, 0x02, 0x04, 0x06, 0x0B} then |ins[|ins| - 1].answer| else 1;
      |xs| + (if u.pending == [] then 0 else 1) == FrameCount(size)
    ensures
      var u', line := UsbRun(u, Outs(ins) + Polls(xs)), u.pending + xs;
      && 0 < |fs| <= |line| && u'.pending == line[|fs|..] && u'.cids == u.cids[cid := None]
      && |u'.answered| == |u.answered| + |fs| && u'.answered[..|u.answered|] == u.answered
      && forall j | 0 <= j < |fs| ::
           u'.answered[|u.answered| + j].seqnum == line[j] && u'.answered[|u.answered| + j].frame == fs[j]
    ensures
      var answer := ins[|ins| - 1].answer;
      if m[0] in {0x01, 0x02, 0x04, 0x06, 0x0B} then Carry(fs, cid, 0x90, |answer|, answer)
      else Carry(fs, cid, 0x90, 0, [0x01])
  {
    hide UsbRun, Send, Carry, Sent, FrameCount, SentCount, SentSoFar, Covers;
    var u0 := RequestEnds(u, cid, m, late, ins);
    hide Arrives;
    RunsJoin(u, Outs(ins), Polls(xs));
    var c := u0.cids[cid].value.cmd;
    ResponseFits(cid, c, m, ins[|ins| - 1].answer);
    fs := Sent(cid, c.ctaphidCmd, c.bcnt, c.response);
    assert CanSend(u0, cid);
    forall e | Ready(u0, e)
      ensures e == cid
    {
      assert e == cid || Ready(u, e);
    }
    SendingStarts(u0, cid);
    PollsCollect(u0, Send(u0, cid, cid), cid, if u.pending == [] then 0 else 1, xs);
    FramesCollected(u0, UsbRun(u, Outs(ins) + Polls(xs)), cid, xs);
  }

  lemma ResponseFits(cid: Cid, c: Command, m: seq<byte>, answer: seq<byte>)
    requires m != [] && Finished(c, m, answer)
    requires m[0] in {0x01, 0x02, 0x04, 0x06, 0x0B} ==> 0 < |answer| <= MAX_MESSAGE
    ensures c.response != [] && SentCount(|c.response|, c.bcnt) == FrameCount(|c.response|) > 0
    ensures Carry(Sent(cid, c.ctaphidCmd, c.bcnt, c.response), cid, 0x90, c.bcnt, c.response)
  {
    hide Sent, Carry;
    if m[0] in {0x01, 0x02, 0x04, 0x06, 0x0B} {
      SentCarries(cid, answer);
    }
    OneByteCarries(cid);
  }

  lemma FramesCollected(u0: Usb, u': Usb, cid: Cid, xs: seq<nat>)
    requires cid in u0.cids && u0.cids[cid].Some?
    requires
      var c := u0.cids[cid].value.cmd;
      SentCount(|c.response|, c.bcnt) == FrameCount(|c.response|)
      && SentSoFar(u0, u', cid, xs, FrameCount(|c.response|))
    ensures
      var c, line := u0.cids[cid].value.cmd, u0.pending + xs;
      var fs := Sent(cid, c.ctaphidCmd, c.bcnt, c.response);
      && |fs| == FrameCount(|c.response|) <= |line| && u'.pending == line[|fs|..] && u'.cids == u0.cids[cid := None]
      && |u'.answered| == |u0.answered| + |fs| && u'.answered[..|u0.answered|] == u0.answered
      && forall j | 0 <= j < |fs| ::
           u'.answered[|u0.answered| + j].seqnum == line[j] && u'.answered[|u0.answered| + j].frame == fs[j]
  {
    hide Frames, FrameAt, FrameCount;
  }

  // ---- The other commands ----

  /** One request was answered: the first that waited, with these bytes and zeros. */
  predicate AnsweredWith(u: Usb, u': Usb, bytes: seq<byte>) {
    && u.pending != [] && u'.pending == u.pending[1..]
    && |u'.answered| == |u.answered| + 1 && u'.answered[..|u.answered|] == u.answered
    && var a := u'.answered[|u.answered|];
       && a.seqnum == u.pending[0] && |a.frame| == 64 && |bytes| <= 64 && a.frame[..|bytes|] == bytes
       && forall x | |bytes| <= x < 64 :: a.frame[x] == 0
  }

  lemma PreparedGoesOut(u: Usb, owner: Cid, cid: Cid, hid: byte, bcnt: nat, response: seq<byte>)
    requires u.convert && u.pending != [] && 0 < |response| <= INIT_DATA && bcnt < 0x10000
    ensures
      AnsweredWith(u, Send(Store(u, owner, Prepared(hid, bcnt, response, true)), owner, cid),
                   cid + [hid, bcnt / 256, bcnt % 256] + response)
  {
    var cmd := Prepared(hid, bcnt, response, true);
    PacksExactly(true, cid, cmd);
    hide PackSegment, Filled;
    var bytes := cid + [hid, bcnt / 256, bcnt % 256] + response;
    assert cid + [hid] + [bcnt / 256, bcnt % 256] + response == bytes;
    assert response[..|response|] == response;
    PadZeros(bytes);
    hide Pad;
  }

  lemma ZerosFollow(u: Usb, u': Usb, bytes: seq<byte>, n: nat)
    requires AnsweredWith(u, u', bytes + seq(n, k => 0))
    ensures AnsweredWith(u, u', bytes)
  {
    var frame, all := u'.answered[|u.answered|].frame, bytes + seq(n, k => 0);
    assert frame[..|bytes|] == frame[..|all|][..|bytes|];
    forall x | |bytes| <= x < 64
      ensures frame[x] == 0
    {
      if x < |all| {
        assert frame[x] == frame[..|all|][x];
      }
    }
  }

  lemma InitBytes(cid: Cid, nonce: seq<byte>, draw: Cid)
    requires |nonce| == 8
    ensures cid + [0x86, 0, 17] + UsbInitReply(nonce, draw)
         == cid + [0x86, 0, 17] + nonce + draw + [2, 5, 1, 2, 12] + seq(40, k => 0)
  {
  }

  /** INIT: the same reply as over UHID, but that its capabilities are CBOR and NMSG. */
  lemma UsbInitIsAnswered(u: Usb, i: Input)
    requires i.frame[4] == 0x86 && u.convert && u.pending != []
    ensures AnsweredWith(u, UsbStep(u, Out(i)),
                         i.frame[..4] + [0x86, 0, 17] + i.frame[7..15] + i.draw + [2, 5, 1, 2, 12])
  {
    var cid, nonce := CidOf(i.frame), i.frame[7..15];
    hide Send, Store, AnsweredWith, UsbInitReply;
    PreparedGoesOut(u, i.draw, cid, 0x86, INIT_BCNT, UsbInitReply(nonce, i.draw));
    InitBytes(cid, nonce, i.draw);
    ZerosFollow(u, UsbStep(u, Out(i)), cid + [0x86, 0, 17] + nonce + i.draw + [2, 5, 1, 2, 12], 40);
  }

  lemma MsgBytes(cid: Cid)
    ensures cid + [0x83, 0, 6] + U2F_V2 == cid + [0x83, 0, 6, 0x55, 0x32, 0x46, 0x5F, 0x56, 0x32]
  {
  }

  /** U2F: only a version request on an assigned channel is answered, with "U2F_V2". */
  lemma UsbMsgIsAnswered(u: Usb, i: Input)
    requires i.frame[4] == 0x83 && u.convert && u.pending != []
    ensures
      if i.frame[7] == 0 && i.frame[8] == 3 && i.frame[..4] in u.cids then
        AnsweredWith(u, UsbStep(u, Out(i)), i.frame[..4] + [0x83, 0, 6, 0x55, 0x32, 0x46, 0x5F, 0x56, 0x32])
      else UsbStep(u, Out(i)) == u
  {
    hide Send, Store, AnsweredWith;
    PreparedGoesOut(u, CidOf(i.frame), CidOf(i.frame), 0x83, |U2F_V2|, U2F_V2);
    MsgBytes(CidOf(i.frame));
  }

  // ---- The order channels are looked at ----

  /** `order` lists the channels, each once. */
  predicate Listed(u: Usb) {
    && (forall c | c in u.cids :: c in u.order) && (forall c | c in u.order :: c in u.cids)
    && forall i, j | 0 <= i < j < |u.order| :: u.order[i] != u.order[j]
  }

  lemma StoreListed(u: Usb, cid: Cid, cmd: Command)
    requires Listed(u)
    ensures Listed(Store(u, cid, cmd)) && u.order <= Store(u, cid, cmd).order
  {
  }

  lemma SendListed(u: Usb, owner: Cid, cid: Cid)
    requires Listed(u) && owner in u.cids && u.cids[owner].Some?
    ensures Listed(Send(u, owner, cid)) && Send(u, owner, cid).order == u.order
  {
    hide PackSegment;
  }

  lemma OutListed(u: Usb, i: Input)
    requires Listed(u)
    ensures Listed(AfterOut(u, i)) && u.order <= AfterOut(u, i).order
  {
    var cid := CidOf(i.frame);
    hide Send, Received, Append, Listed;
    if !IsCommand(i.frame) {
      if cid in u.cids && u.cids[cid].Some? {
        var live := u.cids[cid].value;
        var (cmd, unpacked) := Append(live.cmd, i.frame[5..], i.frame[4], i.answer);
        var same := u.(cids := u.cids[cid := Some(live.(cmd := cmd))]);
        StoreListed(u, cid, cmd);
        assert Listed(same) by { SameListed(u, cid, live.(cmd := cmd)); }
        SendListed(if unpacked then Store(u, cid, cmd) else same, cid, cid);
      }
    } else if HidCommand(i.frame) == 3 && cid in u.cids {
      var cmd := Prepared(i.frame[4], |U2F_V2|, U2F_V2, true);
      StoreListed(u, cid, cmd);
      SendListed(Store(u, cid, cmd), cid, cid);
    } else if HidCommand(i.frame) == 6 {
      var cmd := Prepared(i.frame[4], INIT_BCNT, UsbInitReply(i.frame[7..15], i.draw), true);
      StoreListed(u, i.draw, cmd);
      SendListed(Store(u, i.draw, cmd), i.draw, cid);
    } else if HidCommand(i.frame) == 16 && cid in u.cids {
      var cmd := Received(i.frame[5..], i.frame[4], i.answer).0;
      StoreListed(u, cid, cmd);
      SendListed(Store(u, cid, cmd), cid, cid);
    }
  }

  lemma SameListed(u: Usb, cid: Cid, live: Live)
    requires Listed(u) && cid in u.cids
    ensures Listed(u.(cids := u.cids[cid := Some(live)]))
  {
  }

  /** In every run the list of channels holds each channel once, in the order they were
      first assigned. */
  lemma {:induction false} ChannelsAreListed(convert: bool, es: seq<Event>)
    ensures Listed(UsbRun(Empty(convert), es))
    ensures es != [] ==>
      UsbRun(Empty(convert), es[..|es| - 1]).order <= UsbRun(Empty(convert), es).order
  {
    if es != [] {
      var u := UsbRun(Empty(convert), es[..|es| - 1]);
      ChannelsAreListed(convert, es[..|es| - 1]);
      hide Send, AfterOut;
      match es[|es| - 1] {
        case In(seqnum) =>
          var u1 := u.(pending := u.pending + [seqnum], queued := u.queued + [seqnum]);
          var ready := FirstReady(u1, 0);
          if ready.Some? { SendListed(u1, ready.value, ready.value); }
        case Unlink(_) =>
        case Out(input) => OutListed(u, input);
      }
    }
  }
}
