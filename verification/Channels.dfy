/** Channels do not interfere: what one channel sees is decided by its own frames. */
module Channels {
  import opened Bytes
  import opened CborCommands
  import opened PasskeyDevice

  /** INIT, whose handling assigns the channel it draws. */
  predicate Assigns(i: Input, c: Cid) {
    IsCommand(i.frame) && HidCommand(i.frame) == 6 && i.draw == c
  }

  /** The inputs that concern channel `c`: frames carrying its id, and INITs drawing it. */
  function Concerning(ins: seq<Input>, c: Cid): (r: seq<Input>)
  {
    if ins == [] then []
    else
      var rest, last := Concerning(ins[..|ins| - 1], c), ins[|ins| - 1];
      if CidOf(last.frame) == c || Assigns(last, c) then rest + [last] else rest
  }

  function RequestsOn(log: seq<Unpacked>, c: Cid): seq<Unpacked> {
    if log == [] then []
    else
      var rest, last := RequestsOn(log[..|log| - 1], c), log[|log| - 1];
      if last.cid == c then rest + [last] else rest
  }

  function FramesOn(frames: seq<Frame>, c: Cid): seq<Frame> {
    if frames == [] then []
    else
      var rest, last := FramesOn(frames[..|frames| - 1], c), frames[|frames| - 1];
      if CidOf(last) == c then rest + [last] else rest
  }

  /** All that can be observed of a device on one channel. */
  datatype Seen = Seen(channel: Option<Option<Command>>, requests: seq<Unpacked>, frames: seq<Frame>)

  function Observe(d: Device, c: Cid): Seen {
    Seen(if c in d.cids then Some(d.cids[c]) else None, RequestsOn(d.unpacked, c), FramesOn(d.pending, c))
  }

  lemma {:induction false} FramesOnConcat(a: seq<Frame>, b: seq<Frame>, c: Cid)
    ensures FramesOn(a + b, c) == FramesOn(a, c) + FramesOn(b, c)
  {
    if b == [] {
      assert a + b == a;
    } else {
      assert (a + b)[..|a + b| - 1] == a + b[..|b| - 1];
      FramesOnConcat(a, b[..|b| - 1], c);
    }
  }

  lemma OneMoreFrame(frames: seq<Frame>, f: Frame, c: Cid)
    ensures FramesOn(frames + [f], c) == if CidOf(f) == c then FramesOn(frames, c) + [f] else FramesOn(frames, c)
  {
    assert (frames + [f])[..|frames|] == frames;
  }

  lemma OneMoreRequest(log: seq<Unpacked>, u: Unpacked, c: Cid)
    ensures RequestsOn(log + [u], c) == if u.cid == c then RequestsOn(log, c) + [u] else RequestsOn(log, c)
  {
    assert (log + [u])[..|log|] == log;
  }

  lemma FrameAtOn(cid: Cid, hid: byte, bcnt: nat, m: seq<byte>, j: nat)
    requires bcnt < 0x10000 && j <= 256 && Offset(j) <= |m|
    ensures CidOf(FrameAt(cid, hid, bcnt, m, j)) == cid
  {
  }

  lemma {:induction false} SentOn(cid: Cid, hid: byte, bcnt: nat, m: seq<byte>, n: nat, c: Cid)
    requires n <= SentCount(|m|, bcnt)
    ensures FramesOn(Frames(cid, hid, bcnt, m, n), c) == if cid == c then Frames(cid, hid, bcnt, m, n) else []
  {
    if n > 0 {
      hide FrameAt, FrameCount, CidOf;
      SentOn(cid, hid, bcnt, m, n - 1, c);
      OffsetWithin(|m|, n - 1);
      FrameAtOn(cid, hid, bcnt, m, n - 1);
      hide FramesOn;
      OneMoreFrame(Frames(cid, hid, bcnt, m, n - 1), FrameAt(cid, hid, bcnt, m, n - 1), c);
    }
  }

  lemma ReplyOn(pending: seq<Frame>, cid: Cid, hid: byte, bcnt: nat, m: seq<byte>, c: Cid)
    ensures FramesOn(pending + Sent(cid, hid, bcnt, m), c)
         == FramesOn(pending, c) + if cid == c then Sent(cid, hid, bcnt, m) else []
  {
    FramesOnConcat(pending, Sent(cid, hid, bcnt, m), c);
    SentOn(cid, hid, bcnt, m, SentCount(|m|, bcnt), c);
  }

  lemma AnswersOn(i: Input, c: Cid)
    ensures FramesOn(Answers(i), c) == if CidOf(i.frame) == c then Answers(i) else []
  {
    if HidCommand(i.frame) == 3 {
      SentOn(CidOf(i.frame), i.frame[4], |i.answer|, i.answer, SentCount(|i.answer|, |i.answer|), c);
    } else if Answers(i) != [] {
      OneMoreFrame([], Answers(i)[0], c);
      assert [] + [Answers(i)[0]] == Answers(i);
    }
  }

  /** What a command makes of the log and the outgoing frames, as seen on `c`. */
  lemma CommandOn(d: Device, cid: Cid, cmd: Command, c: Cid)
    ensures RequestsOn(Log(d.unpacked, cid, cmd), c)
         == RequestsOn(d.unpacked, c) + if cid == c then Log([], cid, cmd) else []
    ensures FramesOn(d.pending + Sent(cid, cmd.ctaphidCmd, cmd.bcnt, cmd.response), c)
         == FramesOn(d.pending, c) + if cid == c then Sent(cid, cmd.ctaphidCmd, cmd.bcnt, cmd.response) else []
  {
    ReplyOn(d.pending, cid, cmd.ctaphidCmd, cmd.bcnt, cmd.response, c);
    if cmd.cmd.Some? {
      OneMoreRequest(d.unpacked, Unpacked(cid, cmd.cmd.value, cmd.request), c);
    }
  }

  /** The command a frame completes or starts, whatever the device does with it. */
  function CommandAfter(d: Device, i: Input): Command {
    var cid := CidOf(i.frame);
    if IsCommand(i.frame) then Received(i.frame[5..], i.frame[4], i.answer).0
    else if cid in d.cids && d.cids[cid].Some? then Append(d.cids[cid].value, i.frame[5..], i.frame[4], i.answer).0
    else Prepared(0, 0, [], true)
  }

  /** A step that does not concern `c` changes nothing seen on it. */
  lemma ForeignStep(d: Device, i: Input, c: Cid)
    requires CidOf(i.frame) != c && !Assigns(i, c)
    ensures Observe(Step(d, i), c) == Observe(d, c)
  {
    CommandOn(d, CidOf(i.frame), CommandAfter(d, i), c);
    AnswersOn(i, c);
    FramesOnConcat(d.pending, Answers(i), c);
    hide Sent, Append, Received, FramesOn, RequestsOn, Answers, Log;
  }

  /** A step that concerns `c` depends only on what is seen on `c`. */
  lemma OwnStep(d: Device, e: Device, i: Input, c: Cid)
    requires CidOf(i.frame) == c && Observe(d, c) == Observe(e, c)
    ensures Observe(Step(d, i), c) == Observe(Step(e, i), c)
  {
    CommandOn(d, c, CommandAfter(d, i), c);
    CommandOn(e, c, CommandAfter(e, i), c);
    FramesOnConcat(d.pending, Answers(i), c);
    FramesOnConcat(e.pending, Answers(i), c);
    hide Sent, Append, Received, FramesOn, RequestsOn, Answers, Log;
  }

  lemma AssigningStep(d: Device, e: Device, i: Input, c: Cid)
    requires CidOf(i.frame) != c && Assigns(i, c) && Observe(d, c) == Observe(e, c)
    ensures Observe(Step(d, i), c) == Observe(Step(e, i), c)
  {
    AnswersOn(i, c);
    FramesOnConcat(d.pending, Answers(i), c);
    FramesOnConcat(e.pending, Answers(i), c);
    hide Sent, FramesOn, RequestsOn, Answers;
  }

  /** Non-interference: over any run, a channel's state, the requests its commands hand
      to their handlers and the frames sent on it are those of the run that leaves out
      every frame of other channels, apart from INITs that draw this channel. */
  lemma {:induction false} ChannelsDoNotInterfere(d: Device, ins: seq<Input>, c: Cid)
    ensures Observe(Run(d, ins), c) == Observe(Run(d, Concerning(ins, c)), c)
  {
    if ins != [] {
      var was, i := ins[..|ins| - 1], ins[|ins| - 1];
      ChannelsDoNotInterfere(d, was, c);
      var own := Concerning(was, c);
      if CidOf(i.frame) == c || Assigns(i, c) {
        assert (own + [i])[..|own|] == own;
        assert Run(d, own + [i]) == Step(Run(d, own), i);
        hide Observe, Step;
        if CidOf(i.frame) == c {
          OwnStep(Run(d, was), Run(d, own), i, c);
        } else {
          AssigningStep(Run(d, was), Run(d, own), i, c);
        }
      } else {
        hide Observe, Step;
        ForeignStep(Run(d, was), i, c);
      }
    }
  }

  /** The channel is assigned and no command waits on it. */
  predicate IsIdle(d: Device, c: Cid) { c in d.cids && d.cids[c].None? }

  /** A frame of another channel changes what is seen on `c` exactly if it is an INIT that
      draws `c` while it is unassigned or while a command waits on it. */
  lemma ForeignStepExactly(d: Device, i: Input, c: Cid)
    requires CidOf(i.frame) != c
    ensures Observe(Step(d, i), c) == Observe(d, c) <==> !Assigns(i, c) || IsIdle(d, c)
  {
    if Assigns(i, c) {
      AnswersOn(i, c);
      FramesOnConcat(d.pending, Answers(i), c);
      hide Sent, FramesOn, RequestsOn, Answers;
    } else {
      ForeignStep(d, i, c);
    }
  }

  function OwnFrames(ins: seq<Input>, c: Cid): seq<Input> {
    if ins == [] then []
    else
      var rest, last := OwnFrames(ins[..|ins| - 1], c), ins[|ins| - 1];
      if CidOf(last.frame) == c then rest + [last] else rest
  }

  /** INITs on other channels draw `c` only while it is idle. */
  predicate DrawnWhenIdle(d: Device, ins: seq<Input>, c: Cid) {
    forall x | 0 <= x < |ins| ::
      CidOf(ins[x].frame) != c && Assigns(ins[x], c) ==> IsIdle(Run(d, ins[..x]), c)
  }

  lemma DrawnWhenIdlePrefix(d: Device, ins: seq<Input>, c: Cid)
    requires ins != [] && DrawnWhenIdle(d, ins, c)
    ensures DrawnWhenIdle(d, ins[..|ins| - 1], c)
  {
    var was := ins[..|ins| - 1];
    forall x | 0 <= x < |was| && CidOf(was[x].frame) != c && Assigns(was[x], c)
      ensures IsIdle(Run(d, was[..x]), c)
    {
      assert was[..x] == ins[..x] && was[x] == ins[x];
    }
  }

  /** As long as INITs on other channels do not re-draw the channel while it is in use, its
      own frames alone decide what is seen on it. */
  lemma {:induction false} OwnFramesSuffice(d: Device, ins: seq<Input>, c: Cid)
    requires DrawnWhenIdle(d, ins, c)
    ensures Observe(Run(d, ins), c) == Observe(Run(d, OwnFrames(ins, c)), c)
  {
    if ins != [] {
      var was, i := ins[..|ins| - 1], ins[|ins| - 1];
      DrawnWhenIdlePrefix(d, ins, c);
      OwnFramesSuffice(d, was, c);
      var own := OwnFrames(was, c);
      if CidOf(i.frame) == c {
        assert (own + [i])[..|own|] == own;
        assert Run(d, own + [i]) == Step(Run(d, own), i);
        hide Observe, Step;
        OwnStep(Run(d, was), Run(d, own), i, c);
      } else {
        hide Observe, Step, IsIdle;
        ForeignStepExactly(Run(d, was), i, c);
      }
    }
  }

  /** A command waiting on `c` survives a run of frames on other channels exactly if none
      of them is an INIT that draws `c`. */
  lemma {:induction false} SurvivesExactlyIfNotDrawn(d: Device, ins: seq<Input>, c: Cid)
    requires c in d.cids && d.cids[c].Some?
    requires forall x | 0 <= x < |ins| :: CidOf(ins[x].frame) != c
    ensures c in Run(d, ins).cids
    ensures Run(d, ins).cids[c] == d.cids[c] <==> forall x | 0 <= x < |ins| :: !Assigns(ins[x], c)
    ensures Run(d, ins).cids[c] == d.cids[c] || Run(d, ins).cids[c] == None
  {
    if ins != [] {
      var was, i := ins[..|ins| - 1], ins[|ins| - 1];
      SurvivesExactlyIfNotDrawn(d, was, c);
      hide Sent, Answers, Received, Append, Log;
      assert forall x | 0 <= x < |was| :: was[x] == ins[x];
      assert (forall x | 0 <= x < |ins| :: !Assigns(ins[x], c))
        <==> (forall x | 0 <= x < |was| :: !Assigns(was[x], c)) && !Assigns(i, c);
    }
  }

  /** And nothing stops INIT drawing a channel in use: the message in transit there is then
      lost, however many of its remaining frames still come. */
  lemma {:induction false} RedrawLosesMessage(d: Device, init: Input, late: seq<Input>, c: Cid)
    requires Assigns(init, c)
    requires forall x | 0 <= x < |late| :: CidOf(late[x].frame) == c && !IsCommand(late[x].frame)
    ensures Run(Step(d, init), late) == Step(d, init)
    ensures Step(d, init).unpacked == d.unpacked && Step(d, init).cids[c] == None
  {
    if late != [] {
      RedrawLosesMessage(d, init, late[..|late| - 1], c);
    }
  }
}
