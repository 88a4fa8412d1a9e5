/** What the host reads back for a message delivered once: the frames of the answer its
    handler gave, spelled out byte by byte. */
module DeliveredAnswers {
  import opened Bytes
  import opened CborCommands
  import opened PasskeyDevice
  import opened Reassembly
  import opened Deliveries

  // ---- Which answer ----

  /** The delivery that completes the first run. */
  function CompletingAt(m: seq<byte>, order: seq<nat>): nat
    requires m != [] && DeliversOnce(m, order)
  {
    var z := FirstZero(order);
    if |m| < INIT_DATA then z else z + CoverLength(m, order[z + 1..]).value
  }

  lemma ShortHasZero(m: seq<byte>, order: seq<nat>)
    requires 0 < |m| < INIT_DATA && DeliversOnce(m, order)
    ensures FirstZero(order) < |order|
  {
    CountZeros(order);
  }

  lemma {:induction false} AnswersGrow(m: seq<byte>, order: seq<nat>, ins: seq<Input>, n: nat)
    requires m != [] && n <= |order| == |ins|
    ensures Track(m, order[..n], ins[..n]).answers <= Track(m, order, ins).answers
  {
    hide Complete;
    if n == |order| {
      assert order[..n] == order && ins[..n] == ins;
    } else {
      var last := |order| - 1;
      assert order[..last][..n] == order[..n] && ins[..last][..n] == ins[..n];
      AnswersGrow(m, order[..last], ins[..last], n);
    }
  }

  lemma TrackAt(m: seq<byte>, order: seq<nat>, ins: seq<Input>, x: nat)
    requires m != [] && x < |order| == |ins|
    ensures
      var p, p' := Track(m, order[..x], ins[..x]), Track(m, order[..x + 1], ins[..x + 1]);
      p'.answers == p.answers || p'.answers == p.answers + [ins[x].answer]
  {
    hide Complete;
    assert order[..x + 1][..x] == order[..x] && ins[..x + 1][..x] == ins[..x];
  }

  lemma NothingRunsBefore(m: seq<byte>, order: seq<nat>, ins: seq<Input>)
    requires m != [] && DeliversOnce(m, order) && Within(m, order) && |order| == |ins|
    ensures CompletingAt(m, order) < |order|
    ensures Track(m, order[..CompletingAt(m, order)], ins[..CompletingAt(m, order)]).answers == []
    ensures |Track(m, order[..CompletingAt(m, order) + 1], ins[..CompletingAt(m, order) + 1]).answers| == 1
  {
    hide Track, Covers, Conts, NotAgain, FirstZero;
    if |m| < INIT_DATA {
      ShortHasZero(m, order);
    }
    var z := FirstZero(order);
    NothingTracked(m);
    assert ins[..z][..0] == [] && [] + order[..z] == order[..z] && [] + order[..z + 1] == order[..z + 1];
    IdleUntilZero(m, [], order[..z], ins[..z]);
    Begins(m, [], order, ins);
    if |m| > INIT_DATA {
      LongRunsAt(m, order, ins);
    }
  }

  /** What is known of the delivery that completes a longer message. */
  lemma CoversLast(m: seq<byte>, rest: seq<nat>)
    requires |m| > INIT_DATA && CoverLength(m, rest).Some?
    ensures
      var k := CoverLength(m, rest).value;
      0 < k <= |rest| && !Covers(m, rest[..k - 1])
  {
    hide Covers;
    SomeToCover(m);
    assert rest[..0] == [];
  }

  lemma LongRunsAt(m: seq<byte>, order: seq<nat>, ins: seq<Input>)
    requires |m| > INIT_DATA && |order| == |ins| && Within(m, order) && FirstZero(order) < |order|
    requires
      var z := FirstZero(order);
      && CoverLength(m, order[z + 1..]).Some?
      && Track(m, order[..z + 1], ins[..z + 1]) == Progress(Some({}), [])
    ensures
      var x := FirstZero(order) + CoverLength(m, order[FirstZero(order) + 1..]).value;
      && x < |order|
      && Track(m, order[..x], ins[..x]).answers == []
      && |Track(m, order[..x + 1], ins[..x + 1]).answers| == 1
  {
    hide Track, Covers, Conts, FirstZero, CoverLength;
    var n := FirstZero(order) + 1;
    var begun, rest := order[..n], order[n..];
    var k := CoverLength(m, rest).value;
    CoversLast(m, rest);
    WithinRest(m, order, n);
    assert begun + rest[..k - 1] == order[..n + k - 1] && begun + rest[..k] == order[..n + k];
    assert ins[..n + k - 1][..n] == ins[..n];
    hide Within;
    assert Within(m, rest[..k - 1]) by { WithinPrefix(m, rest, k - 1); }
    Gathering(m, begun, rest[..k - 1], ins[..n + k - 1]);
    CompletesThenDelivers(m, begun, rest, ins);
  }

  lemma WithinPrefix(m: seq<byte>, order: seq<nat>, k: nat)
    requires m != [] && k <= |order| && Within(m, order)
    ensures Within(m, order[..k])
  {
  }

  /** The handler's one answer is the one it gives at the completing delivery. */
  lemma OneAnswer(m: seq<byte>, order: seq<nat>, ins: seq<Input>)
    requires m != [] && DeliversOnce(m, order) && Within(m, order) && |order| == |ins|
    ensures CompletingAt(m, order) < |order|
    ensures Track(m, order, ins).answers == [ins[CompletingAt(m, order)].answer]
  {
    hide Track, DeliversOnce, CompletingAt, Deliver;
    NothingRunsBefore(m, order, ins);
    var x := CompletingAt(m, order);
    TrackAt(m, order, ins, x);
    AnswersGrow(m, order, ins, x + 1);
    OnceExactly(m, order);
    NothingTracked(m);
    assert [] + order == order && ins[..0] == [];
    TrackDelivers(m, [], order, ins);
  }

  // ---- Its frames ----

  /** The payloads of a response's frames, one after the other. */
  function Joined(fs: seq<Frame>): seq<byte> {
    if fs == [] then []
    else if |fs| == 1 then fs[0][7..]
    else Joined(fs[..|fs| - 1]) + fs[|fs| - 1][5..]
  }

  /** The frames carry `response` on `cid`, all of it and nothing after it but zeros, with
      command byte `hid` and byte count `bcnt`, numbered 0, 1, 2, ... after the first. */
  predicate Carry(fs: seq<Frame>, cid: Cid, hid: byte, bcnt: nat, response: seq<byte>) {
    && fs != [] && (forall j | 0 <= j < |fs| :: fs[j][..4] == cid)
    && fs[0][4] == hid && fs[0][5] as int * 256 + fs[0][6] == bcnt
    && (forall j | 1 <= j < |fs| :: fs[j][4] == j - 1 < 0x80)
    && |response| <= |Joined(fs)| < |response| + 59 && response <= Joined(fs)
    && forall x | |response| <= x < |Joined(fs)| :: Joined(fs)[x] == 0
  }

  lemma {:induction false} JoinedPrefix(cid: Cid, m: seq<byte>, fs: seq<Frame>, n: nat)
    requires 0 < |m| <= MAX_MESSAGE && 1 <= n <= |fs| == 1 + Conts(|m|)
    requires fs[0][7..] == Padded(m)[..INIT_DATA] && forall j | 1 <= j < |fs| :: fs[j][5..] == Segment(m, j - 1)
    ensures Joined(fs[..n]) == Padded(m)[..INIT_DATA + CONT_DATA * (n - 1)]
  {
    hide Padded, Conts, Segment;
    if n > 1 {
      JoinedPrefix(cid, m, fs, n - 1);
      assert fs[..n][..n - 1] == fs[..n - 1];
      SegmentsJoin(m, n - 2);
    }
  }

  lemma SegmentsJoin(m: seq<byte>, i: nat)
    requires m != [] && i < Conts(|m|)
    ensures Padded(m)[..INIT_DATA + CONT_DATA * i] + Segment(m, i) == Padded(m)[..INIT_DATA + CONT_DATA * (i + 1)]
  {
  }

  lemma PaddedZeros(m: seq<byte>)
    requires m != []
    ensures |Padded(m)| < |m| + CONT_DATA
    ensures forall x | |m| <= x < |Padded(m)| :: Padded(m)[x] == 0
  {
  }

  lemma CountBytes(f: Frame)
    ensures FromBE(f[5..7]) == f[5] as int * 256 + f[6]
  {
    var b := f[5..7];
    assert b[..1] == [f[5]] && b[..1][..0] == [];
    assert FromBE(b[..1]) == f[5];
  }

  /** A response of 1 to 7609 bytes is carried by the frames the sender queues for it. */
  lemma SentCarries(cid: Cid, m: seq<byte>)
    requires 0 < |m| <= MAX_MESSAGE
    ensures Carry(Sent(cid, CTAPHID_CBOR, |m|, m), cid, 0x90, |m|, m)
  {
    hide Sent, Padded, Segment, MessageFrame;
    SenderFragments(cid, m);
    var fs := Sent(cid, CTAPHID_CBOR, |m|, m);
    JoinedPrefix(cid, m, fs, |fs|);
    assert fs[..|fs|] == fs;
    PaddedZeros(m);
    CountBytes(fs[0]);
    assert Padded(m)[..|Padded(m)|] == Padded(m);
    hide FromBE, Conts, Joined;
    forall j | 0 <= j < |fs|
      ensures fs[j][..4] == cid
    {
      assert CidOf(fs[j]) == cid;
    }
  }

  lemma OneFrame()
    ensures SentCount(1, 0) == 1
  {
    assert FrameCount(1) == 1 && Packable(0) == 257;
  }

  lemma OneByteCarries(cid: Cid)
    ensures Carry(Sent(cid, CTAPHID_CBOR, 0, [1]), cid, 0x90, 0, [1])
  {
    OneFrame();
    hide SentCount;
    var fs := Sent(cid, CTAPHID_CBOR, 0, [1]);
    FramesAt(cid, CTAPHID_CBOR, 0, [1], 1, 0);
    assert fs[0] == InitFrame(cid, CTAPHID_CBOR, 0, [1]) by {
      var one: seq<byte> := [1];
      assert one[0..Min(INIT_DATA, 1)] == one;
    }
    assert fs[0] == Pad(cid + [CTAPHID_CBOR] + [0, 0] + [1]);
  }

  /** For a message delivered once on an idle channel: a command with a handler is answered
      with exactly what the handler gave at the completing delivery, its length as byte
      count; a command without one with the one byte 0x01 and byte count 0. */
  lemma DeliveredOnceIsAnswered(d: Device, cid: Cid, m: seq<byte>, order: seq<nat>, ins: seq<Input>)
    requires cid in d.cids && d.cids[cid].None? && 0 < |m| <= MAX_MESSAGE && |order| == |ins|
    requires var sent := Sent(cid, CTAPHID_CBOR, |m|, m);
             forall x | 0 <= x < |order| :: order[x] < |sent| && ins[x].frame == sent[order[x]]
    requires DeliversOnce(m, order)
    ensures CompletingAt(m, order) < |order|
    ensures
      var pending, answer := Run(d, ins).pending, ins[CompletingAt(m, order)].answer;
      && (m[0] in {0x01, 0x02, 0x04, 0x06, 0x0B} && 0 < |answer| <= MAX_MESSAGE ==>
          d.pending <= pending && Carry(pending[|d.pending|..], cid, 0x90, |answer|, answer))
      && (m[0] in {0x07, 0x09, 0x0D} ==>
          d.pending <= pending && Carry(pending[|d.pending|..], cid, 0x90, 0, [0x01]))
  {
    hide Sent, Track, Carry, DeliversOnce, CompletingAt, MessageFrame, Conts;
    SentIsDelivered(cid, m, order, ins);
    assert Within(m, order);
    OneAnswer(m, order, ins);
    var answer := ins[CompletingAt(m, order)].answer;
    if m[0] in KNOWN_COMMANDS {
      DeviceTracks(d, cid, m, order, ins);
      OneReply(cid, m[0], answer);
      if m[0] in {0x01, 0x02, 0x04, 0x06, 0x0B} && 0 < |answer| <= MAX_MESSAGE {
        SentCarries(cid, answer);
      }
      OneByteCarries(cid);
      hide Waiting, Partial, Requests, Replies;
    }
  }

  lemma OneReply(cid: Cid, cmd: byte, answer: seq<byte>)
    ensures Replies(cid, cmd, [answer])
         == if cmd in {0x01, 0x02, 0x04, 0x06, 0x0B} then Sent(cid, CTAPHID_CBOR, |answer|, answer)
            else Sent(cid, CTAPHID_CBOR, 0, [0x01])
  {
    hide Sent;
    assert [answer][..0] == [];
  }

  // ---- The other commands ----

  /** One frame was queued: these bytes, and zeros. */
  predicate Queued(d: Device, d': Device, bytes: seq<byte>) {
    && |d'.pending| == |d.pending| + 1 && d'.pending[..|d.pending|] == d.pending
    && var f := d'.pending[|d.pending|];
       |bytes| <= |f| && f[..|bytes|] == bytes && forall x | |bytes| <= x < |f| :: f[x] == 0
  }

  lemma PadZeros(data: seq<byte>)
    requires |data| <= MAX_DATA_FRAME
    ensures Pad(data)[..|data|] == data && forall x | |data| <= x < MAX_DATA_FRAME :: Pad(data)[x] == 0
  {
  }

  /** INIT: a reply of 17 bytes on the channel it came on, with its nonce, the drawn channel,
      protocol 2, version 5.1.2, and capabilities WINK and CBOR; the channel is emptied. */
  lemma InitIsAnswered(d: Device, i: Input)
    requires i.frame[4] == 0x86
    ensures Queued(d, Step(d, i), i.frame[..4] + [0x86, 0, 17] + i.frame[7..15] + i.draw + [2, 5, 1, 2, 5])
    ensures Step(d, i).cids == d.cids[i.draw := None] && Step(d, i).unpacked == d.unpacked
  {
    var reply := i.frame[7..15] + i.draw + [2, 5, 1, 2, 5];
    var bytes := i.frame[..4] + [0x86, 0, 17] + reply;
    assert bytes == i.frame[..4] + [0x86, 0, 17] + i.frame[7..15] + i.draw + [2, 5, 1, 2, 5];
    assert i.frame[..4] + [0x86] + [0, 17] + InitReply(i.frame[7..15], i.draw) == bytes + seq(40, k => 0);
    PadZeros(bytes + seq(40, k => 0));
    assert Answers(i) == [Pad(bytes + seq(40, k => 0))];
    hide Pad;
  }

  /** Ping: the six characters "U2F_V2", under a byte count of 0, whatever was sent. */
  lemma PingIsAnswered(d: Device, i: Input)
    requires i.frame[4] == 0x81
    ensures Queued(d, Step(d, i), i.frame[..4] + [0x01, 0, 0, 0x55, 0x32, 0x46, 0x5F, 0x56, 0x32])
    ensures Step(d, i).cids == d.cids && Step(d, i).unpacked == d.unpacked
  {
    var bytes := i.frame[..4] + [0x01, 0, 0, 0x55, 0x32, 0x46, 0x5F, 0x56, 0x32];
    assert i.frame[..4] + [0x01] + [0, 0] + U2F_V2 == bytes;
    PadZeros(bytes);
    assert Answers(i) == [Pad(bytes)];
    hide Pad;
  }

  /** WINK, CANCEL, ERROR and every command without a handler: an empty frame. */
  lemma OthersAreAcknowledged(d: Device, i: Input)
    requires i.frame[4] >= 0x80 && i.frame[4] !in {0x81, 0x83, 0x86, 0x90, 0xBB}
    ensures Queued(d, Step(d, i), i.frame[..4])
    ensures Step(d, i).cids == d.cids && Step(d, i).unpacked == d.unpacked
  {
    var none: seq<byte> := [];
    assert i.frame[..4] + [0] + [0, 0] + none == i.frame[..4] + [0, 0, 0];
    PadZeros(i.frame[..4] + [0, 0, 0]);
    assert Answers(i) == [Pad(i.frame[..4] + [0, 0, 0])];
    hide Pad;
  }

  lemma CommandByteOnly(cid: Cid, hid: byte, m: seq<byte>)
    requires 0 < |m| <= MAX_MESSAGE
    ensures
      var fs, gs := Sent(cid, hid, |m|, m), Sent(cid, CTAPHID_CBOR, |m|, m);
      && |fs| == |gs| > 0 && fs[0] == gs[0][4 := hid] && forall j | 1 <= j < |fs| :: fs[j] == gs[j]
  {
    hide MessageFrame;
    SenderFragments(cid, m);
    var fs, gs := Sent(cid, hid, |m|, m), Sent(cid, CTAPHID_CBOR, |m|, m);
    forall j | 0 <= j < |fs|
      ensures fs[j] == if j == 0 then gs[0][4 := hid] else gs[j]
    {
      FramesAt(cid, hid, |m|, m, |fs|, j);
      FramesAt(cid, CTAPHID_CBOR, |m|, m, |gs|, j);
    }
  }

  lemma {:induction false} JoinedSame(fs: seq<Frame>, gs: seq<Frame>)
    requires |fs| == |gs| > 0 && fs[0][7..] == gs[0][7..] && forall j | 1 <= j < |fs| :: fs[j] == gs[j]
    ensures Joined(fs) == Joined(gs)
  {
    if |fs| > 1 {
      JoinedSame(fs[..|fs| - 1], gs[..|gs| - 1]);
    }
  }

  /** A U2F message: exactly what its handler gave, its length as byte count, under the
      command byte it came with. */
  lemma MsgIsAnswered(d: Device, i: Input)
    requires i.frame[4] == 0x83 && 0 < |i.answer| <= MAX_MESSAGE
    ensures
      var d' := Step(d, i);
      && d.pending <= d'.pending && Carry(d'.pending[|d.pending|..], i.frame[..4], 0x83, |i.answer|, i.answer)
      && d'.cids == d.cids && d'.unpacked == d.unpacked
  {
    hide Sent, Joined;
    var cid, m := CidOf(i.frame), i.answer;
    var fs, gs := Sent(cid, 0x83, |m|, m), Sent(cid, CTAPHID_CBOR, |m|, m);
    SentCarries(cid, m);
    CommandByteOnly(cid, 0x83, m);
    assert fs[0][7..] == gs[0][7..];
    JoinedSame(fs, gs);
    forall j | 0 <= j < |fs|
      ensures fs[j][..4] == cid
    {
      assert fs[j][..4] == gs[j][..4];
    }
    assert (d.pending + fs)[|d.pending|..] == fs;
  }

  /** A CBOR message on a channel that was never assigned: it is answered if its first frame
      is all of it, and otherwise nothing is kept of it. */
  lemma UnassignedIsNotKept(d: Device, i: Input)
    requires i.frame[4] == 0x90 && i.frame[..4] !in d.cids
    ensures Step(d, i).cids == d.cids
    ensures i.frame[5] as int * 256 + i.frame[6] >= 57 ==> Step(d, i) == d
    ensures
      i.frame[5] as int * 256 + i.frame[6] < 57 && i.frame[7] in {0x01, 0x02, 0x04, 0x06, 0x0B}
      && 0 < |i.answer| <= MAX_MESSAGE ==>
        var pending := Step(d, i).pending;
        d.pending <= pending && Carry(pending[|d.pending|..], i.frame[..4], 0x90, |i.answer|, i.answer)
  {
    hide Carry, Sent, FromBE;
    CountBytes(i.frame);
    assert i.frame[5..][..2] == i.frame[5..7] && i.frame[5..][2] == i.frame[7];
    if 0 < |i.answer| <= MAX_MESSAGE {
      SentCarries(CidOf(i.frame), i.answer);
    }
  }

  /** A first frame whose command byte is none of the eight is ignored. */
  lemma UnknownByteIsIgnored(d: Device, i: Input)
    requires i.frame[4] == 0x90 && i.frame[7] !in {0x01, 0x02, 0x04, 0x06, 0x07, 0x09, 0x0B, 0x0D}
    ensures Step(d, i) == d
  {
  }
}
