/** Fragmenting a message and putting it together again: whatever order its
    continuation frames arrive in, and however often each is repeated, the
    handler runs exactly once and sees the bytes that were sent. */
module Reassembly {
  import opened Bytes
  import opened CborCommands
  import opened PasskeyDevice

  /** The longest message CTAP allows: one initialization frame and 128
      continuation frames (CTAP 2.1, section 11.2.4). */
  const MAX_MESSAGE: nat := INIT_DATA + 128 * CONT_DATA

  const CTAPHID_CBOR: byte := 0x90

  /** How many continuation frames follow the first frame of a message. */
  function Conts(n: nat): nat
    requires n > 0
  {
    FrameCount(n) - 1
  }

  /** A message and the zero bytes that fill its last frame. */
  function Padded(m: seq<byte>): (p: seq<byte>)
    requires m != []
    ensures |p| == INIT_DATA + CONT_DATA * Conts(|m|)
    ensures m <= p
  {
    m + seq(INIT_DATA + CONT_DATA * Conts(|m|) - |m|, i => 0)
  }

  /** The payload of continuation frame `i`. */
  function Segment(m: seq<byte>, i: nat): (s: seq<byte>)
    requires m != [] && i < Conts(|m|)
    ensures |s| == CONT_DATA
  {
    Padded(m)[INIT_DATA + CONT_DATA * i..INIT_DATA + CONT_DATA * (i + 1)]
  }

  /** Frame `j` of a message as the sender builds it. */
  function MessageFrame(cid: Cid, m: seq<byte>, j: nat): Frame
    requires 0 < |m| <= MAX_MESSAGE && j <= Conts(|m|)
  {
    OffsetWithin(|m|, j);
    FrameAt(cid, CTAPHID_CBOR, |m|, m, j)
  }

  // ---- The sender ----

  /** A response of `n` bytes leaves as 1 + ceil(max(0, n - 57) / 59) frames numbered
      0, 1, 2, ... whose payloads, joined, are the response and its padding. */
  lemma {:induction false} SenderFragments(cid: Cid, m: seq<byte>)
    requires 0 < |m| <= MAX_MESSAGE
    ensures
      var fs := Sent(cid, CTAPHID_CBOR, |m|, m);
      && |fs| == 1 + (if |m| <= INIT_DATA then 0 else (|m| - INIT_DATA + CONT_DATA - 1) / CONT_DATA)
      && (forall j | 0 <= j < |fs| :: CidOf(fs[j]) == cid && fs[j] == MessageFrame(cid, m, j))
      && fs[0][4] == CTAPHID_CBOR && FromBE(fs[0][5..7]) == |m| && fs[0][7..] == Padded(m)[..INIT_DATA]
      && (forall j | 1 <= j < |fs| :: fs[j][4] == j - 1 < 0x80 && fs[j][5..] == Segment(m, j - 1))
  {
    var fs := Sent(cid, CTAPHID_CBOR, |m|, m);
    assert |fs| == FrameCount(|m|) <= 129;
    FramesAt(cid, CTAPHID_CBOR, |m|, m, |fs|, 0);
    FirstFrame(cid, m);
    forall j | 1 <= j < |fs|
      ensures fs[j] == MessageFrame(cid, m, j) && CidOf(fs[j]) == cid
      ensures fs[j][4] == j - 1 < 0x80 && fs[j][5..] == Segment(m, j - 1)
    {
      FramesAt(cid, CTAPHID_CBOR, |m|, m, |fs|, j);
      NextFrame(cid, m, j);
    }
  }

  /** Sequence numbers fit the seven bits of a continuation frame for every response
      of at most 7609 bytes and for no longer one. */
  lemma SequenceNumbersFit(cid: Cid, hid: byte, m: seq<byte>)
    requires 0 < |m| < 0x10000
    ensures (forall j | 1 <= j < |Sent(cid, hid, |m|, m)| :: Sent(cid, hid, |m|, m)[j][4] < 0x80) <==>
      |m| <= MAX_MESSAGE
  {
    var fs := Sent(cid, hid, |m|, m);
    forall j | 1 <= j < |fs|
      ensures fs[j][4] == j - 1
    {
      FramesAt(cid, hid, |m|, m, |fs|, j);
    }
    if |m| > MAX_MESSAGE {
      assert FrameCount(|m|) >= 130;
      assert fs[129][4] == 128;
    }
  }

  lemma FirstFrame(cid: Cid, m: seq<byte>)
    requires 0 < |m| <= MAX_MESSAGE
    ensures
      var f := MessageFrame(cid, m, 0);
      CidOf(f) == cid && f[4] == CTAPHID_CBOR && FromBE(f[5..7]) == |m| && f[7..] == Padded(m)[..INIT_DATA]
  {
    var f := MessageFrame(cid, m, 0);
    var data := m[..Min(INIT_DATA, |m|)];
    assert f == Pad(cid + [CTAPHID_CBOR] + [|m| / 256, |m| % 256] + data);
    assert f[5..7] == [|m| / 256, |m| % 256];
    assert [|m| / 256, |m| % 256][..1] == [|m| / 256];
    assert FromBE([|m| / 256]) == |m| / 256 by { assert [|m| / 256][..0] == []; }
    assert f[7..] == Padded(m)[..INIT_DATA];
  }

  lemma NextFrame(cid: Cid, m: seq<byte>, j: nat)
    requires 0 < |m| <= MAX_MESSAGE && 1 <= j <= Conts(|m|)
    ensures
      var f := MessageFrame(cid, m, j);
      CidOf(f) == cid && f[4] == j - 1 < 0x80 && f[5..] == Segment(m, j - 1)
  {
    OffsetWithin(|m|, j);
    var f := MessageFrame(cid, m, j);
    var data := m[Offset(j)..Min(Offset(j + 1), |m|)];
    assert f == Pad(cid + [j - 1] + data);
    PadTail(cid + [j - 1], data);
    PaddedSlice(m, Offset(j));
  }

  lemma PadTail(head: seq<byte>, data: seq<byte>)
    requires |head| + |data| <= MAX_DATA_FRAME
    ensures Pad(head + data)[..|head|] == head
    ensures Pad(head + data)[|head|..] == data + seq(MAX_DATA_FRAME - |head| - |data|, i => 0)
  {
  }

  lemma PaddedSlice(m: seq<byte>, lo: nat)
    requires m != [] && lo <= |m| && lo + CONT_DATA <= |Padded(m)|
    ensures
      var data := m[lo..Min(lo + CONT_DATA, |m|)];
      Padded(m)[lo..lo + CONT_DATA] == data + seq(CONT_DATA - |data|, i => 0)
  {
  }

  // ---- The receiver ----

  /** Every continuation frame has been received. */
  predicate Complete(m: seq<byte>, received: set<nat>)
    requires m != []
  {
    forall i | 0 <= i < Conts(|m|) :: i in received
  }

  /** A command waiting for frames, having received those numbered in `received`:
      the next one it wants is the least it has not got, its buffer holds exactly
      the received ones above that, and its request all bytes below. */
  predicate Waiting(c: Command, m: seq<byte>, received: set<nat>)
    requires m != []
  {
    var next := c.requestSegment;
    && (forall i | 0 <= i < next :: i in received) && next !in received && next <= Conts(|m|)
    && c.buffer == (map i | i in received && next < i < Conts(|m|) :: Segment(m, i))
    && c.request == Padded(m)[1..INIT_DATA + CONT_DATA * next]
    && c.cmd == Some(m[0]) && c.length == |m| - 1 && c.ctaphidCmd == CTAPHID_CBOR
    && c.responseSegment == 0 && !c.ready
  }

  lemma RequestGrows(m: seq<byte>, i: nat)
    requires m != [] && i < Conts(|m|)
    ensures Padded(m)[1..INIT_DATA + CONT_DATA * i] + Segment(m, i) == Padded(m)[1..INIT_DATA + CONT_DATA * (i + 1)]
  {
  }

  lemma DrainUnfolds(request: seq<byte>, next: nat, buffer: map<nat, seq<byte>>)
    ensures Drain(request, next, buffer)
         == if next in buffer then Drain(request + buffer[next], next + 1, buffer - {next}) else (request, next, buffer)
    ensures next in buffer ==> |buffer - {next}| < |buffer|
  {
    if next in buffer {
      var rest := buffer - {next};
      assert rest.Keys == buffer.Keys - {next} && |rest.Keys| == |rest| && |buffer.Keys| == |buffer|;
    }
  }

  /** The received frames from `next` on. */
  predicate Buffered(m: seq<byte>, received: set<nat>, next: nat, buffer: map<nat, seq<byte>>)
    requires m != []
  {
    buffer == map i | i in received && next <= i < Conts(|m|) :: Segment(m, i)
  }

  lemma TakeBuffered(m: seq<byte>, received: set<nat>, next: nat, buffer: map<nat, seq<byte>>)
    requires m != [] && Buffered(m, received, next, buffer)
    ensures Buffered(m, received, next + 1, buffer - {next})
    ensures next in buffer <==> next in received && next < Conts(|m|)
    ensures next in buffer ==> buffer[next] == Segment(m, next)
  {
    hide Segment, Conts;
  }

  /** All of `received` up to the first gap has become the request, from a state that had
      them up to `next`. */
  predicate Gathered(m: seq<byte>, received: set<nat>, next: nat, request: seq<byte>, buffer: map<nat, seq<byte>>)
    requires m != []
  {
    && next <= Conts(|m|) && (forall i | 0 <= i < next :: i in received)
    && request == Padded(m)[1..INIT_DATA + CONT_DATA * next]
    && Buffered(m, received, next, buffer)
  }

  lemma GatherOne(m: seq<byte>, received: set<nat>, next: nat, request: seq<byte>, buffer: map<nat, seq<byte>>)
    requires m != [] && Gathered(m, received, next, request, buffer) && next in buffer
    ensures Gathered(m, received, next + 1, request + buffer[next], buffer - {next})
  {
    hide Padded, Segment, Conts, Buffered;
    TakeBuffered(m, received, next, buffer);
    RequestGrows(m, next);
  }

  lemma GatherEnds(m: seq<byte>, received: set<nat>, next: nat, request: seq<byte>, buffer: map<nat, seq<byte>>)
    requires m != [] && Gathered(m, received, next, request, buffer) && next !in buffer
    requires forall i | i in received :: i < Conts(|m|)
    ensures next !in received && Buffered(m, received, next + 1, buffer)
  {
    hide Padded, Segment, Conts, Buffered;
    TakeBuffered(m, received, next, buffer);
    assert buffer - {next} == buffer;
  }

  lemma {:induction false} DrainGathers(m: seq<byte>, received: set<nat>, next: nat, request: seq<byte>,
                                        buffer: map<nat, seq<byte>>)
    requires m != [] && Gathered(m, received, next, request, buffer)
    requires forall i | i in received :: i < Conts(|m|)
    ensures
      var (req, n, buf) := Drain(request, next, buffer);
      next <= n && Gathered(m, received, n, req, buf) && n !in received && Buffered(m, received, n + 1, buf)
    decreases |buffer|
  {
    hide *;
    DrainUnfolds(request, next, buffer);
    if next in buffer {
      GatherOne(m, received, next, request, buffer);
      DrainGathers(m, received, next + 1, request + buffer[next], buffer - {next});
    } else {
      GatherEnds(m, received, next, request, buffer);
    }
  }

  /** The next frame the command wants: it takes that one and every buffered one after it. */
  lemma AppendInOrder(c: Command, m: seq<byte>, received: set<nat>, i: nat, answer: seq<byte>)
    requires m != [] && i < Conts(|m|) && Waiting(c, m, received) && Partial(m, received)
    requires i == c.requestSegment
    ensures Appended(c, m, received + {i}, i, answer)
  {
    hide Drain, Segment, Padded, Conts;
    var now := received + {i};
    RequestGrows(m, i);
    assert Buffered(m, now, i + 1, c.buffer);
    DrainGathers(m, now, i + 1, c.request + Segment(m, i), c.buffer);
    var (req, n, buf) := Drain(c.request + Segment(m, i), i + 1, c.buffer);
    assert n == Conts(|m|) <==> Complete(m, now);
    LastSegmentCompletes(m, n);
  }

  lemma LastSegmentCompletes(m: seq<byte>, n: nat)
    requires m != [] && 0 < n <= Conts(|m|)
    ensures INIT_DATA + CONT_DATA * n - 1 >= |m| - 1 <==> n == Conts(|m|)
    ensures n == Conts(|m|) ==> Padded(m)[1..INIT_DATA + CONT_DATA * n] == Padded(m)[1..]
  {
  }

  /** Any other frame is buffered, when it is beyond the next one, or a repeat. */
  lemma AppendOutOfOrder(c: Command, m: seq<byte>, received: set<nat>, i: nat, answer: seq<byte>)
    requires m != [] && i < Conts(|m|) && Waiting(c, m, received) && Partial(m, received)
    requires i != c.requestSegment
    ensures Appended(c, m, received + {i}, i, answer)
  {
    var now, next := received + {i}, c.requestSegment;
    assert next < Conts(|m|) && next !in now;
    if i < next {
      assert now == received;
    } else {
      assert c.buffer[i := Segment(m, i)] == map j | j in now && next < j < Conts(|m|) :: Segment(m, j);
    }
  }

  lemma AppendReceives(c: Command, m: seq<byte>, received: set<nat>, i: nat, answer: seq<byte>)
    requires m != [] && i < Conts(|m|) && Waiting(c, m, received) && Partial(m, received)
    ensures Appended(c, m, received + {i}, i, answer)
  {
    hide *;
    if i == c.requestSegment {
      AppendInOrder(c, m, received, i, answer);
    } else {
      AppendOutOfOrder(c, m, received, i, answer);
    }
  }

  /** What receiving continuation frame `i` leads to, when `now` are all received. */
  predicate Appended(c: Command, m: seq<byte>, now: set<nat>, i: nat, answer: seq<byte>)
    requires m != [] && i < Conts(|m|)
  {
    var (after, ran) := Append(c, Segment(m, i), i, answer);
    && (ran <==> Complete(m, now))
    && (!ran ==> !after.ready && Waiting(after, m, now) && Partial(m, now))
    && (ran ==> after.cmd == Some(m[0]) && after.request == Padded(m)[1..] && after.ctaphidCmd == CTAPHID_CBOR
                && after.ready && (after.response, after.bcnt) == Reply(Some(m[0]), answer))
  }

  // ---- The device, given the frames of one message in any order ----

  /** What the set of continuation frames received so far determines: whether a
      command is waiting, and the answers of the handler runs so far. */
  datatype Progress = Progress(waiting: Option<set<nat>>, answers: seq<seq<byte>>)

  /** The receiver as a machine that only remembers which frames it has, given frame
      `j` of the message; 0 is the first frame. */
  function Advance(m: seq<byte>, p: Progress, j: nat, answer: seq<byte>): Progress
    requires m != []
  {
    if j == 0 then
      if p.waiting.Some? then p
      else if |m| < INIT_DATA then p.(answers := p.answers + [answer])
      else p.(waiting := Some({}))
    else if p.waiting.None? then p
    else if Complete(m, p.waiting.value + {j - 1}) then Progress(None, p.answers + [answer])
    else p.(waiting := Some(p.waiting.value + {j - 1}))
  }

  /** The frames delivered are those numbered in `order`. */
  function Track(m: seq<byte>, order: seq<nat>, ins: seq<Input>): Progress
    requires m != [] && |order| == |ins|
  {
    if order == [] then Progress(None, [])
    else
      var last := |order| - 1;
      Advance(m, Track(m, order[..last], ins[..last]), order[last], ins[last].answer)
  }

  /** The frames that answer `answers` handler runs of the same request. */
  function Replies(cid: Cid, cmd: byte, answers: seq<seq<byte>>): seq<Frame> {
    if answers == [] then []
    else
      var (response, bcnt) := Reply(Some(cmd), answers[|answers| - 1]);
      Replies(cid, cmd, answers[..|answers| - 1]) + Sent(cid, CTAPHID_CBOR, bcnt, response)
  }

  /** `n` runs of the handler on the request `m` carries. */
  function Requests(cid: Cid, m: seq<byte>, n: nat): (rs: seq<Unpacked>)
    requires m != []
    ensures |rs| == n
  {
    if n == 0 then [] else Requests(cid, m, n - 1) + [Unpacked(cid, m[0], Padded(m)[1..])]
  }

  /** `ins` delivers the frames of `m` on channel `cid`, in the order `order` says. */
  predicate Delivers(cid: Cid, m: seq<byte>, order: seq<nat>, ins: seq<Input>) {
    && 0 < |m| <= MAX_MESSAGE && |order| == |ins|
    && (forall x | 0 <= x < |order| :: order[x] <= Conts(|m|) && ins[x].frame == MessageFrame(cid, m, order[x]))
  }

  /** The device does what Track says. */
  predicate Tracks(d: Device, d': Device, cid: Cid, m: seq<byte>, p: Progress)
    requires m != []
  {
    && d'.unpacked == d.unpacked + Requests(cid, m, |p.answers|)
    && d'.pending == d.pending + Replies(cid, m[0], p.answers)
    && cid in d'.cids && d'.cids == d.cids[cid := d'.cids[cid]]
    && (p.waiting.Some? <==> d'.cids[cid].Some?)
    && (p.waiting.Some? ==> Waiting(d'.cids[cid].value, m, p.waiting.value) && Partial(m, p.waiting.value))
  }

  /** Some but not all of the continuation frames, unless there are none to wait for. */
  predicate Partial(m: seq<byte>, received: set<nat>)
    requires m != []
  {
    && (forall i | i in received :: i < Conts(|m|))
    && (Conts(|m|) > 0 ==> !Complete(m, received))
  }

  lemma FirstFrameReceived(cid: Cid, m: seq<byte>, i: Input)
    requires 0 < |m| <= MAX_MESSAGE && i.frame == MessageFrame(cid, m, 0)
    ensures CidOf(i.frame) == cid && i.frame[4] == CTAPHID_CBOR && i.frame[7] == m[0]
    ensures
      var (c, ran) := Received(i.frame[5..], i.frame[4], i.answer);
      && (ran <==> |m| < INIT_DATA)
      && (!ran ==> Waiting(c, m, {}))
      && (ran ==> c.cmd == Some(m[0]) && c.request == Padded(m)[1..] && c.ctaphidCmd == CTAPHID_CBOR
                  && (c.response, c.bcnt) == Reply(Some(m[0]), i.answer))
  {
    FirstFrame(cid, m);
    var f := i.frame;
    assert f[5..7] == f[5..][..2];
    assert f[7] == f[7..][0] == f[5..][2] == m[0];
    assert f[5..][3..] == f[7..][1..] == Padded(m)[1..INIT_DATA];
    if |m| < INIT_DATA {
      assert Padded(m)[1..] == Padded(m)[1..INIT_DATA];
    }
  }

  lemma NothingTracks(d: Device, cid: Cid, m: seq<byte>)
    requires m != [] && cid in d.cids && d.cids[cid].None?
    ensures Tracks(d, d, cid, m, Progress(None, []))
  {
  }

  lemma AnswerTracks(d: Device, before: Device, d': Device, cid: Cid, m: seq<byte>, p: Progress, answer: seq<byte>)
    requires m != [] && Tracks(d, before, cid, m, p)
    requires d'.cids == before.cids[cid := None]
    requires d'.unpacked == before.unpacked + [Unpacked(cid, m[0], Padded(m)[1..])]
    requires var (response, bcnt) := Reply(Some(m[0]), answer);
             d'.pending == before.pending + Sent(cid, CTAPHID_CBOR, bcnt, response)
    ensures Tracks(d, d', cid, m, Progress(None, p.answers + [answer]))
  {
    hide Sent, Reply, Padded;
    assert (p.answers + [answer])[..|p.answers|] == p.answers;
  }

  lemma WaitTracks(d: Device, before: Device, d': Device, cid: Cid, m: seq<byte>, p: Progress, c: Command,
                   now: set<nat>)
    requires m != [] && Tracks(d, before, cid, m, p)
    requires d' == before.(cids := before.cids[cid := Some(c)])
    requires Waiting(c, m, now) && Partial(m, now)
    ensures Tracks(d, d', cid, m, p.(waiting := Some(now)))
  {
  }

  lemma FirstFrameTracks(d: Device, before: Device, cid: Cid, m: seq<byte>, p: Progress, i: Input)
    requires 0 < |m| <= MAX_MESSAGE && m[0] in KNOWN_COMMANDS && i.frame == MessageFrame(cid, m, 0)
    requires Tracks(d, before, cid, m, p)
    ensures Tracks(d, AfterCbor(before, i), cid, m, Advance(m, p, 0, i.answer))
  {
    FirstFrameReceived(cid, m, i);
    assert cid in before.cids && (p.waiting.Some? <==> before.cids[cid].Some?);
    if p.waiting.None? {
      hide Tracks, Received, Sent, Reply, Padded, Waiting, MessageFrame;
      var (c, ran) := Received(i.frame[5..], i.frame[4], i.answer);
      if ran {
        AnswerTracks(d, before, AfterCbor(before, i), cid, m, p, i.answer);
      } else {
        NonePartial(m);
        WaitTracks(d, before, AfterCbor(before, i), cid, m, p, c, {});
      }
    }
  }

  lemma NonePartial(m: seq<byte>)
    requires m != []
    ensures Partial(m, {})
  {
    var none: set<nat> := {};
    assert 0 !in none;
  }

  lemma NextFrameTracks(d: Device, before: Device, cid: Cid, m: seq<byte>, p: Progress, i: Input, j: nat)
    requires 0 < |m| <= MAX_MESSAGE && 1 <= j <= Conts(|m|) && i.frame == MessageFrame(cid, m, j)
    requires Tracks(d, before, cid, m, p)
    ensures Tracks(d, AfterContinue(before, i), cid, m, Advance(m, p, j, i.answer))
  {
    hide Append, Sent, Reply, Padded, Waiting, Partial, MessageFrame, Segment, Conts, Requests, Replies, Drain, Unpack;
    NextFrame(cid, m, j);
    assert cid in before.cids && (p.waiting.Some? <==> before.cids[cid].Some?);
    if p.waiting.Some? {
      var now := p.waiting.value + {j - 1};
      AppendReceives(before.cids[cid].value, m, p.waiting.value, j - 1, i.answer);
      hide Tracks;
      var (c, ran) := Append(before.cids[cid].value, i.frame[5..], i.frame[4], i.answer);
      if ran {
        AnswerTracks(d, before, AfterContinue(before, i), cid, m, p, i.answer);
      } else {
        WaitTracks(d, before, AfterContinue(before, i), cid, m, p, c, now);
      }
    }
  }

  /** Confluence: from an idle channel, any sequence of deliveries of the frames of a
      message, repeated and reordered at will, has the effect Track gives it. */
  lemma {:induction false} DeviceTracks(d: Device, cid: Cid, m: seq<byte>, order: seq<nat>, ins: seq<Input>)
    requires cid in d.cids && d.cids[cid].None?
    requires Delivers(cid, m, order, ins) && m[0] in KNOWN_COMMANDS
    ensures Tracks(d, Run(d, ins), cid, m, Track(m, order, ins))
  {
    hide Tracks, AfterCbor, AfterContinue, Advance, MessageFrame, Received, Sent;
    if ins != [] {
      var last := |ins| - 1;
      DeviceTracks(d, cid, m, order[..last], ins[..last]);
      var before, p := Run(d, ins[..last]), Track(m, order[..last], ins[..last]);
      if order[last] == 0 {
        FirstFrame(cid, m);
        assert Step(before, ins[last]) == AfterCbor(before, ins[last]);
        FirstFrameTracks(d, before, cid, m, p, ins[last]);
      } else {
        NextFrame(cid, m, order[last]);
        assert Step(before, ins[last]) == AfterContinue(before, ins[last]);
        NextFrameTracks(d, before, cid, m, p, ins[last], order[last]);
      }
    } else {
      NothingTracks(d, cid, m);
    }
  }

  // ---- When a message reaches its handler ----

  /** Frames numbered in `order` are all continuation frames of `m`. */
  predicate OnlyContinuations(m: seq<byte>, order: seq<nat>)
    requires m != []
  {
    forall x | 0 <= x < |order| :: 1 <= order[x] <= Conts(|m|)
  }

  /** Every continuation frame of `m` is among those numbered in `order`. */
  predicate Covers(m: seq<byte>, order: seq<nat>)
    requires m != []
  {
    forall j | 1 <= j <= Conts(|m|) :: j in order
  }

  /** Frames that overtake the first frame of their message are lost. */
  lemma {:induction false} EarlyFramesAreLost(m: seq<byte>, early: seq<nat>, ins: seq<Input>)
    requires m != [] && |early| == |ins| && OnlyContinuations(m, early)
    ensures Track(m, early, ins) == Progress(None, [])
  {
    if early != [] {
      var last := |early| - 1;
      EarlyFramesAreLost(m, early[..last], ins[..last]);
      assert early[last] >= 1;
    }
  }

  /** The sequence numbers of the continuation frames in `order`. */
  function Numbers(order: seq<nat>): set<nat> {
    set j | j in order && j >= 1 :: j - 1
  }

  lemma OneMoreNumber(was: seq<nat>, j: nat)
    requires j >= 1
    ensures Numbers(was + [j]) == Numbers(was) + {j - 1}
  {
    forall i | i in Numbers(was) + {j - 1}
      ensures i in Numbers(was + [j])
    {
      assert i + 1 in was + [j];
    }
  }

  lemma CoversMeansComplete(m: seq<byte>, order: seq<nat>)
    requires m != []
    ensures Covers(m, order) <==> Complete(m, Numbers(order))
  {
    if Covers(m, order) {
      forall i | 0 <= i < Conts(|m|)
        ensures i in Numbers(order)
      {
        assert i + 1 in order;
      }
    }
    if Complete(m, Numbers(order)) {
      forall x | 1 <= x <= Conts(|m|)
        ensures x in order
      {
        assert x - 1 in Numbers(order);
      }
    }
  }

  /** Progress once the first frame of a longer message and then those in `late` have
      come: it depends only on which they are, until all have; then it stops. */
  predicate Progressed(m: seq<byte>, late: seq<nat>, p: Progress)
    requires m != []
  {
    if late != [] && Complete(m, Numbers(late)) then p.waiting.None? && |p.answers| == 1
    else p == Progress(Some(Numbers(late)), [])
  }

  lemma OneMoreProgressed(m: seq<byte>, was: seq<nat>, j: nat, p: Progress, answer: seq<byte>)
    requires m != [] && 1 <= j && Progressed(m, was, p)
    ensures Progressed(m, was + [j], Advance(m, p, j, answer))
  {
    OneMoreNumber(was, j);
    hide Numbers;
    if was != [] && Complete(m, Numbers(was)) {
      StaysComplete(m, Numbers(was), j - 1);
    }
    hide Complete;
  }

  lemma {:induction false} LateFramesGather(m: seq<byte>, early: seq<nat>, late: seq<nat>, ins: seq<Input>)
    requires |m| >= INIT_DATA && |early| + 1 + |late| == |ins| && OnlyContinuations(m, early)
      && OnlyContinuations(m, late)
    ensures Progressed(m, late, Track(m, early + [0] + late, ins))
  {
    hide Track, Complete, Conts;
    var last := |ins| - 1;
    if late == [] {
      EarlyFramesAreLost(m, early, ins[..last]);
      TrackOneMore(m, early, 0, ins);
      assert early + [0] + late == early + [0] && Numbers(late) == {};
    } else {
      hide Progressed, Advance, Numbers;
      var was, j := late[..|late| - 1], late[|late| - 1];
      LateFramesGather(m, early, was, ins[..last]);
      TrackOneMore(m, early + [0] + was, j, ins);
      OneMoreProgressed(m, was, j, Track(m, early + [0] + was, ins[..last]), ins[last].answer);
      assert early + [0] + late == early + [0] + was + [j] && was + [j] == late;
    }
  }

  lemma TrackOneMore(m: seq<byte>, order: seq<nat>, j: nat, ins: seq<Input>)
    requires m != [] && |order| + 1 == |ins|
    ensures Track(m, order + [j], ins) == Advance(m, Track(m, order, ins[..|order|]), j, ins[|order|].answer)
  {
    assert (order + [j])[..|order|] == order;
  }

  lemma StaysComplete(m: seq<byte>, received: set<nat>, i: nat)
    requires m != [] && Complete(m, received)
    ensures Complete(m, received + {i})
  {
  }

  lemma ShortMessageRuns(m: seq<byte>, early: seq<nat>, ins: seq<Input>)
    requires 0 < |m| < INIT_DATA && |early| + 1 == |ins| && OnlyContinuations(m, early)
    ensures var p := Track(m, early + [0], ins); p.waiting.None? && |p.answers| == 1
  {
    EarlyFramesAreLost(m, early, ins[..|early|]);
    TrackOneMore(m, early, 0, ins);
  }

  /** When the first frame comes once, the handler runs once if all continuation frames come
      after it, unless the message fills its first frame exactly; otherwise it does not run. */
  lemma OneFirstFrameRunsOnce(m: seq<byte>, early: seq<nat>, late: seq<nat>, ins: seq<Input>)
    requires m != [] && |early| + 1 + |late| == |ins| && OnlyContinuations(m, early) && OnlyContinuations(m, late)
    ensures
      var p := Track(m, early + [0] + late, ins);
      if Covers(m, late) && |m| != INIT_DATA then p.waiting.None? && |p.answers| == 1
      else p == Progress(Some(Numbers(late)), [])
  {
    CoversMeansComplete(m, late);
    NoneCovered(m, late);
    hide Track, Complete, Covers, Numbers;
    if |m| < INIT_DATA {
      assert early + [0] + late == early + [0];
      ShortMessageRuns(m, early, ins);
    } else {
      LateFramesGather(m, early, late, ins);
    }
  }

  lemma NoneCovered(m: seq<byte>, late: seq<nat>)
    requires m != [] && OnlyContinuations(m, late)
    ensures |m| <= INIT_DATA ==> late == [] && Covers(m, late)
    ensures |m| > INIT_DATA && late == [] ==> !Covers(m, late)
  {
    assert late != [] ==> 1 <= late[0] <= Conts(|m|);
    assert late == [] ==> 1 !in late;
  }

  lemma SentIsDelivered(cid: Cid, m: seq<byte>, order: seq<nat>, ins: seq<Input>)
    requires 0 < |m| <= MAX_MESSAGE && |order| == |ins|
    requires var sent := Sent(cid, CTAPHID_CBOR, |m|, m);
             forall x | 0 <= x < |order| :: order[x] < |sent| && ins[x].frame == sent[order[x]]
    ensures Delivers(cid, m, order, ins)
  {
    SenderFragments(cid, m);
    hide Sent;
    forall x | 0 <= x < |order|
      ensures order[x] <= Conts(|m|) && ins[x].frame == MessageFrame(cid, m, order[x])
    {
    }
  }

  lemma {:induction false} UnknownCommandIgnored(d: Device, cid: Cid, m: seq<byte>, order: seq<nat>, ins: seq<Input>)
    requires cid in d.cids && d.cids[cid].None?
    requires Delivers(cid, m, order, ins) && m[0] !in KNOWN_COMMANDS
    ensures Run(d, ins) == d
  {
    if ins != [] {
      var last := |ins| - 1;
      UnknownCommandIgnored(d, cid, m, order[..last], ins[..last]);
      if order[last] == 0 {
        FirstFrame(cid, m);
        assert ins[last].frame[7] == ins[last].frame[7..][0];
      } else {
        NextFrame(cid, m, order[last]);
      }
    }
  }

  /** What follows the first frame on the channel: continuation frames, of whatever origin. */
  predicate Continues(cid: Cid, ins: seq<Input>) {
    forall x | 0 <= x < |ins| :: CidOf(ins[x].frame) == cid && !IsCommand(ins[x].frame)
  }

  predicate SomeNumberedZero(ins: seq<Input>) {
    exists x | 0 <= x < |ins| :: ins[x].frame[4] == 0
  }

  /** A message of 57 bytes, until a frame numbered 0 comes. */
  predicate StillWaits(d: Device, d': Device, cid: Cid, m: seq<byte>)
    requires m != []
  {
    && d'.unpacked == d.unpacked && cid in d'.cids && d'.cids[cid].Some?
    && var c := d'.cids[cid].value;
       c.requestSegment == 0 && c.request == m[1..] && c.length == |m| - 1 && c.cmd == Some(m[0]) && !c.ready
  }

  /** The same, once one has come: run once, and the channel idle again. */
  predicate HasRun(d: Device, d': Device, cid: Cid) {
    |d'.unpacked| == |d.unpacked| + 1 && cid in d'.cids && d'.cids[cid].None?
  }

  lemma WaitingStep(d: Device, before: Device, cid: Cid, m: seq<byte>, i: Input)
    requires |m| == INIT_DATA && StillWaits(d, before, cid, m) && CidOf(i.frame) == cid && !IsCommand(i.frame)
    ensures if i.frame[4] == 0 then HasRun(d, Step(before, i), cid) else StillWaits(d, Step(before, i), cid, m)
  {
    hide Drain, Sent;
    var c := before.cids[cid].value;
    if i.frame[4] == 0 {
      DrainExtends(c.request + i.frame[5..], 1, c.buffer);
    }
  }

  lemma {:induction false} DrainExtends(request: seq<byte>, next: nat, buffer: map<nat, seq<byte>>)
    ensures request <= Drain(request, next, buffer).0
    decreases |buffer|
  {
    DrainUnfolds(request, next, buffer);
    if next in buffer {
      DrainExtends(request + buffer[next], next + 1, buffer - {next});
    }
  }

  lemma {:induction false} WaitsForZero(d: Device, first: Device, cid: Cid, m: seq<byte>, ins: seq<Input>)
    requires |m| == INIT_DATA && StillWaits(d, first, cid, m) && Continues(cid, ins)
    ensures if SomeNumberedZero(ins) then HasRun(d, Run(first, ins), cid) else StillWaits(d, Run(first, ins), cid, m)
  {
    if ins != [] {
      hide StillWaits, HasRun, Step;
      var last := |ins| - 1;
      WaitsForZero(d, first, cid, m, ins[..last]);
      var before := Run(first, ins[..last]);
      if SomeNumberedZero(ins[..last]) {
        var x :| 0 <= x < last && ins[..last][x].frame[4] == 0;
        assert ins[x].frame[4] == 0;
        IdleIgnores(d, before, cid, ins[last]);
      } else {
        WaitingStep(d, before, cid, m, ins[last]);
        assert forall x | 0 <= x < last :: ins[..last][x] == ins[x];
      }
    }
  }

  lemma IdleIgnores(d: Device, before: Device, cid: Cid, i: Input)
    requires HasRun(d, before, cid) && CidOf(i.frame) == cid && !IsCommand(i.frame)
    ensures HasRun(d, Step(before, i), cid)
  {
  }

  lemma RunFrom(d: Device, i: Input, ins: seq<Input>)
    ensures Run(d, [i] + ins) == Run(Run(d, [i]), ins)
  {
    hide Step;
    if ins == [] {
      assert [i] + ins == [i];
    } else {
      var last := |ins| - 1;
      RunFrom(d, i, ins[..last]);
      assert ([i] + ins)[..|[i] + ins| - 1] == [i] + ins[..last];
    }
  }

  /** A message that fills its first frame exactly: over any run of continuation frames on
      its channel, sent for it or not, its handler runs at most once, and does exactly if
      one of them is numbered 0. */
  lemma ExactFitWaitsForStrayFrame(d: Device, cid: Cid, m: seq<byte>, i: Input, ins: seq<Input>)
    requires cid in d.cids && d.cids[cid].None? && |m| == INIT_DATA && m[0] in KNOWN_COMMANDS
    requires i.frame == MessageFrame(cid, m, 0) && Continues(cid, ins)
    ensures var after := Run(d, [i] + ins);
      |after.unpacked| == |d.unpacked| + if SomeNumberedZero(ins) then 1 else 0
    ensures Run(d, [i] + ins).unpacked != d.unpacked <==> SomeNumberedZero(ins)
  {
    hide MessageFrame, Step, Drain;
    DeviceTracks(d, cid, m, [0], [i]);
    assert [i][..0] == [] && [0][..0] == [];
    assert StillWaits(d, Run(d, [i]), cid, m) by {
      assert Padded(m)[1..INIT_DATA] == m[1..];
    }
    RunFrom(d, i, ins);
    WaitsForZero(d, Run(d, [i]), cid, m, ins);
    hide *;
    HasRunOrWaits(d, Run(d, [i] + ins), cid, m);
  }

  lemma HasRunOrWaits(d: Device, d': Device, cid: Cid, m: seq<byte>)
    requires m != []
    ensures HasRun(d, d', cid) ==> |d'.unpacked| == |d.unpacked| + 1 && d'.unpacked != d.unpacked
    ensures StillWaits(d, d', cid, m) ==> d'.unpacked == d.unpacked
  {
  }

  /** Then the stray frame's bytes end up in the request. */
  lemma StrayFrameJoinsRequest(d: Device, cid: Cid, m: seq<byte>, i: Input, stray: Input)
    requires cid in d.cids && d.cids[cid].None? && |m| == INIT_DATA && m[0] in KNOWN_COMMANDS
    requires i.frame == MessageFrame(cid, m, 0) && CidOf(stray.frame) == cid && stray.frame[4] == 0
    ensures Run(d, [i, stray]).unpacked == d.unpacked + [Unpacked(cid, m[0], m[1..] + stray.frame[5..])]
  {
    DeviceTracks(d, cid, m, [0], [i]);
    assert [i][..0] == [] && [0][..0] == [];
    var d1 := Run(d, [i]);
    var c := d1.cids[cid].value;
    assert c.requestSegment == 0 && c.request == m[1..];
    assert Run(d, [i, stray]) == Step(d1, stray) by { assert [i, stray][..1] == [i]; }
    assert c.buffer == map[];
    assert Drain(c.request + stray.frame[5..], 1, c.buffer) == (c.request + stray.frame[5..], 1, c.buffer);
  }
}
