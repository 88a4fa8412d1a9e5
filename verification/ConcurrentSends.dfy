/** The UHID device with its threads (soft_fido2/platform/uhid_device.py starts one for
    every report): what a report does to the channels is one step, but the frames of its
    response go into the queue one `put` at a time, and other threads may put theirs in
    between. A response sent at once is sent with `cids_lock` held; one that a continuation
    frame completes is sent after the lock is released. */
module ConcurrentSends {
  import opened Bytes
  import opened CborCommands
  import opened PasskeyDevice

  /** A frame and the report it answers, counted from 0. */
  datatype Tagged = Tagged(report: nat, frame: Frame)

  datatype Move = Report(input: Input) | Put(report: nat)

  datatype World = World(
    device: Device,               // as if every response were sent in one step
    chans: seq<Cid>,              // the channel of each report so far
    held: seq<bool>,              // whether its response is sent with the lock held
    sends: seq<seq<Tagged>>,      // what is still to be put of its response
    queue: seq<Tagged>,           // the frames put
    due: seq<Tagged>)             // all frames of all responses, in the order of the reports

  function Start(d: Device): World { World(d, [], [], [], [], []) }

  /** The frames the device answers a report with. */
  function Answer(d: Device, i: Input): seq<Frame> {
    var pending := Step(d, i).pending;
    if |d.pending| <= |pending| then pending[|d.pending|..] else []
  }

  function Tag(report: nat, frames: seq<Frame>): (ts: seq<Tagged>)
    ensures |ts| == |frames| && forall k | 0 <= k < |ts| :: ts[k] == Tagged(report, frames[k])
  {
    seq(|frames|, k requires 0 <= k < |frames| => Tagged(report, frames[k]))
  }

  predicate IsCbor(i: Input) { IsCommand(i.frame) && HidCommand(i.frame) == 16 }

  /** Both the handler of CTAPHID_CBOR and that of continuation frames take the lock. */
  predicate TakesLock(i: Input) { IsCbor(i) || !IsCommand(i.frame) }

  function Play(w: World, move: Move): World {
    match move
    case Report(i) =>
      var frames := Tag(|w.sends|, Answer(w.device, i));
      World(Step(w.device, i), w.chans + [CidOf(i.frame)], w.held + [IsCbor(i)], w.sends + [frames],
            w.queue, w.due + frames)
    case Put(r) =>
      if r >= |w.sends| || w.sends[r] == [] then w
      else w.(sends := w.sends[r := w.sends[r][1..]], queue := w.queue + [w.sends[r][0]])
  }

  function PlayAll(d: Device, moves: seq<Move>): World {
    if moves == [] then Start(d) else Play(PlayAll(d, moves[..|moves| - 1]), moves[|moves| - 1])
  }

  // ---- The device behind the threads ----

  function Inputs(moves: seq<Move>): seq<Input> {
    if moves == [] then []
    else Inputs(moves[..|moves| - 1]) + if moves[|moves| - 1].Report? then [moves[|moves| - 1].input] else []
  }

  function Frames(ts: seq<Tagged>): seq<Frame> {
    seq(|ts|, k requires 0 <= k < |ts| => ts[k].frame)
  }

  lemma StepAppends(d: Device, i: Input)
    ensures Step(d, i).pending == d.pending + Answer(d, i)
  {
    hide Sent, Append, Received, Answers, Log;
    assert d.pending + [] == d.pending;
  }

  lemma FramesJoin(a: seq<Tagged>, b: seq<Tagged>)
    ensures Frames(a + b) == Frames(a) + Frames(b)
  {
  }

  lemma FramesOfTag(report: nat, frames: seq<Frame>)
    ensures Frames(Tag(report, frames)) == frames
  {
  }

  lemma PlayIsAtomic(w: World, move: Move, before: seq<Frame>)
    requires w.device.pending == before + Frames(w.due)
    ensures Play(w, move).device == if move.Report? then Step(w.device, move.input) else w.device
    ensures Play(w, move).device.pending == before + Frames(Play(w, move).due)
  {
    hide Step, Answer, Frames, Tag;
    if move.Report? {
      var answer := Answer(w.device, move.input);
      StepAppends(w.device, move.input);
      FramesJoin(w.due, Tag(|w.sends|, answer));
      FramesOfTag(|w.sends|, answer);
      assert (before + Frames(w.due)) + answer == before + (Frames(w.due) + answer);
    }
  }

  lemma RunOneMore(d: Device, ins: seq<Input>, i: Input)
    ensures Run(d, ins + [i]) == Step(Run(d, ins), i)
  {
    hide Step;
    assert (ins + [i])[..|ins|] == ins;
  }

  /** Scheduling the puts does not matter to the channels or the requests handled; and the
      frames due are those the device sends when every response is one step. */
  lemma {:induction false} DeviceIsAtomic(d: Device, moves: seq<Move>)
    ensures PlayAll(d, moves).device == Run(d, Inputs(moves))
    ensures PlayAll(d, moves).device.pending == d.pending + Frames(PlayAll(d, moves).due)
  {
    if moves == [] {
      assert d.pending + Frames([]) == d.pending;
    } else {
      hide Play, Step, Frames, Run;
      var was, move := moves[..|moves| - 1], moves[|moves| - 1];
      DeviceIsAtomic(d, was);
      PlayIsAtomic(PlayAll(d, was), move, d.pending);
      if move.Report? {
        RunOneMore(d, Inputs(was), move.input);
      } else {
        assert Inputs(moves) == Inputs(was);
      }
    }
  }

  // ---- The frames of one channel ----

  /** Those of `ts` that answer reports on `c`. */
  function On(ts: seq<Tagged>, chans: seq<Cid>, c: Cid): seq<Tagged> {
    if ts == [] then []
    else
      var rest, last := On(ts[..|ts| - 1], chans, c), ts[|ts| - 1];
      if last.report < |chans| && chans[last.report] == c then rest + [last] else rest
  }

  /** What is still to be put on `c`, by the first `n` reports in their order. */
  function Left(w: World, c: Cid, n: nat): seq<Tagged>
    requires n <= |w.sends| == |w.chans|
  {
    if n == 0 then [] else Left(w, c, n - 1) + if w.chans[n - 1] == c then w.sends[n - 1] else []
  }

  /** Every frame belongs to a report there was, and is kept with it. */
  predicate Sorted(w: World) {
    && |w.chans| == |w.sends| == |w.held|
    && (forall k | 0 <= k < |w.queue| :: w.queue[k].report < |w.chans|)
    && (forall k | 0 <= k < |w.due| :: w.due[k].report < |w.chans|)
    && (forall r, k | 0 <= r < |w.sends| && 0 <= k < |w.sends[r]| :: w.sends[r][k].report == r)
  }

  lemma ReportSorted(w: World, move: Move)
    requires Sorted(w) && move.Report?
    ensures Sorted(Play(w, move))
  {
    hide Answer, Step, Tag;
    var frames := Tag(|w.sends|, Answer(w.device, move.input));
    var w' := Play(w, move);
    forall r, k | 0 <= r < |w'.sends| && 0 <= k < |w'.sends[r]|
      ensures w'.sends[r][k].report == r
    {
      assert w'.sends[r] == if r == |w.sends| then frames else w.sends[r];
    }
  }

  lemma PutSorted(w: World, move: Move)
    requires Sorted(w) && move.Put?
    ensures Sorted(Play(w, move))
  {
    var w' := Play(w, move);
    if move.report < |w.sends| && w.sends[move.report] != [] {
      forall r, k | 0 <= r < |w'.sends| && 0 <= k < |w'.sends[r]|
        ensures w'.sends[r][k].report == r
      {
        assert w'.sends[r][k] == if r == move.report then w.sends[r][k + 1] else w.sends[r][k];
      }
    }
  }

  lemma {:induction false} StaysSorted(d: Device, moves: seq<Move>)
    ensures Sorted(PlayAll(d, moves))
  {
    if moves != [] {
      hide Sorted, Play;
      var w, move := PlayAll(d, moves[..|moves| - 1]), moves[|moves| - 1];
      StaysSorted(d, moves[..|moves| - 1]);
      match move {
        case Report(_) => ReportSorted(w, move);
        case Put(_) => PutSorted(w, move);
      }
    } else {
      hide Play;
    }
  }

  lemma {:induction false} OnJoin(a: seq<Tagged>, b: seq<Tagged>, chans: seq<Cid>, c: Cid)
    ensures On(a + b, chans, c) == On(a, chans, c) + On(b, chans, c)
  {
    if b == [] {
      assert a + b == a;
    } else {
      assert (a + b)[..|a + b| - 1] == a + b[..|b| - 1];
      OnJoin(a, b[..|b| - 1], chans, c);
    }
  }

  lemma {:induction false} OnMoreChans(ts: seq<Tagged>, chans: seq<Cid>, more: Cid, c: Cid)
    requires forall k | 0 <= k < |ts| :: ts[k].report < |chans|
    ensures On(ts, chans + [more], c) == On(ts, chans, c)
  {
    if ts != [] {
      OnMoreChans(ts[..|ts| - 1], chans, more, c);
    }
  }

  lemma {:induction false} OnOwn(ts: seq<Tagged>, r: nat, chans: seq<Cid>, c: Cid)
    requires r < |chans| && forall k | 0 <= k < |ts| :: ts[k].report == r
    ensures On(ts, chans, c) == if chans[r] == c then ts else []
  {
    if ts != [] {
      OnOwn(ts[..|ts| - 1], r, chans, c);
      assert ts == ts[..|ts| - 1] + [ts[|ts| - 1]];
    }
  }

  // ---- The order on a channel ----

  /** What was put on `c` and what is left, oldest report first, are what is due there. */
  predicate InOrder(w: World, c: Cid)
    requires |w.chans| == |w.sends|
  {
    On(w.queue, w.chans, c) + Left(w, c, |w.sends|) == On(w.due, w.chans, c)
  }

  /** Nothing older is left on its channel. */
  predicate HasTurn(w: World, r: nat)
    requires r < |w.sends| == |w.chans|
  {
    forall s | 0 <= s < r && w.chans[s] == w.chans[r] :: w.sends[s] == []
  }

  /** The move puts a frame on `c`. */
  predicate Puts(w: World, move: Move, c: Cid)
    requires |w.chans| == |w.sends|
  {
    move.Put? && move.report < |w.sends| && w.sends[move.report] != [] && w.chans[move.report] == c
  }

  predicate MoveInTurn(w: World, move: Move, c: Cid) {
    |w.chans| == |w.sends| && (Puts(w, move, c) ==> HasTurn(w, move.report))
  }

  /** Every frame put on `c` was put by the oldest report with frames left there. */
  predicate InTurn(d: Device, moves: seq<Move>, c: Cid) {
    forall x | 0 <= x < |moves| :: MoveInTurn(PlayAll(d, moves[..x]), moves[x], c)
  }

  lemma InTurnStep(d: Device, moves: seq<Move>, c: Cid)
    requires moves != []
    ensures
      var was, w := moves[..|moves| - 1], PlayAll(d, moves[..|moves| - 1]);
      InTurn(d, moves, c) <==> InTurn(d, was, c) && MoveInTurn(w, moves[|moves| - 1], c)
  {
    hide PlayAll, MoveInTurn;
    var was := moves[..|moves| - 1];
    forall x | 0 <= x < |was|
      ensures was[..x] == moves[..x] && was[x] == moves[x]
    {
    }
    assert InTurn(d, moves, c) ==> InTurn(d, was, c);
  }

  lemma {:induction false} LeftOfMore(w: World, w': World, c: Cid, n: nat)
    requires n <= |w.sends| == |w.chans| && n <= |w'.sends| == |w'.chans|
    requires w'.sends[..n] == w.sends[..n] && w'.chans[..n] == w.chans[..n]
    ensures Left(w', c, n) == Left(w, c, n)
  {
    if n > 0 {
      assert w'.sends[n - 1] == w'.sends[..n][n - 1] && w.sends[n - 1] == w.sends[..n][n - 1];
      assert w'.chans[n - 1] == w'.chans[..n][n - 1] && w.chans[n - 1] == w.chans[..n][n - 1];
      assert w'.sends[..n - 1] == w'.sends[..n][..n - 1] && w.sends[..n - 1] == w.sends[..n][..n - 1];
      assert w'.chans[..n - 1] == w'.chans[..n][..n - 1] && w.chans[..n - 1] == w.chans[..n][..n - 1];
      LeftOfMore(w, w', c, n - 1);
    }
  }

  lemma ReportKeepsOrder(w: World, move: Move, c: Cid)
    requires Sorted(w) && InOrder(w, c) && move.Report?
    ensures InOrder(Play(w, move), c)
  {
    hide On, Step, Answer;
    var w', n, cid := Play(w, move), |w.sends|, CidOf(move.input.frame);
    var frames := Tag(n, Answer(w.device, move.input));
    OnMoreChans(w.queue, w.chans, cid, c);
    OnMoreChans(w.due, w.chans, cid, c);
    OnJoin(w.due, frames, w'.chans, c);
    OnOwn(frames, n, w'.chans, c);
    LeftOfMore(w, w', c, n);
    hide Left;
    assert Left(w', c, n + 1) == Left(w, c, n) + (if cid == c then frames else []) by { LeftUnfolds(w', c, n); }
    assert (On(w.queue, w.chans, c) + Left(w, c, n)) + (if cid == c then frames else [])
        == On(w.queue, w.chans, c) + Left(w', c, n + 1);
  }

  lemma LeftUnfolds(w: World, c: Cid, n: nat)
    requires n < |w.sends| == |w.chans|
    ensures Left(w, c, n + 1) == Left(w, c, n) + if w.chans[n] == c then w.sends[n] else []
  {
  }

  /** If nothing older is left, the first frame left on the channel is this report's. */
  lemma {:induction false} LeftStarts(w: World, r: nat, n: nat)
    requires r < n <= |w.sends| == |w.chans| && w.sends[r] != [] && HasTurn(w, r)
    ensures
      var w' := w.(sends := w.sends[r := w.sends[r][1..]]);
      Left(w, w.chans[r], n) == [w.sends[r][0]] + Left(w', w.chans[r], n)
  {
    var c := w.chans[r];
    var w' := w.(sends := w.sends[r := w.sends[r][1..]]);
    LeftUnfolds(w, c, n - 1);
    LeftUnfolds(w', c, n - 1);
    hide Left;
    if n == r + 1 {
      LeftNothing(w, c, r);
      LeftNothing(w', c, r);
      assert w.sends[r] == [w.sends[r][0]] + w.sends[r][1..];
    } else {
      LeftStarts(w, r, n - 1);
      var here := if w.chans[n - 1] == c then w.sends[n - 1] else [];
      assert ([w.sends[r][0]] + Left(w', c, n - 1)) + here == [w.sends[r][0]] + (Left(w', c, n - 1) + here);
    }
  }

  lemma {:induction false} LeftNothing(w: World, c: Cid, n: nat)
    requires n <= |w.sends| == |w.chans| && forall s | 0 <= s < n && w.chans[s] == c :: w.sends[s] == []
    ensures Left(w, c, n) == []
  {
    if n > 0 {
      LeftNothing(w, c, n - 1);
    }
  }

  lemma {:induction false} LeftElsewhere(w: World, r: nat, c: Cid, n: nat)
    requires r < |w.sends| == |w.chans| && n <= |w.sends| && w.sends[r] != [] && w.chans[r] != c
    ensures Left(w.(sends := w.sends[r := w.sends[r][1..]]), c, n) == Left(w, c, n)
  {
    if n > 0 {
      LeftElsewhere(w, r, c, n - 1);
    }
  }

  lemma PutKeepsOrder(w: World, move: Move, c: Cid)
    requires Sorted(w) && InOrder(w, c) && move.Put? && (Puts(w, move, c) ==> HasTurn(w, move.report))
    ensures InOrder(Play(w, move), c)
  {
    hide Left, HasTurn;
    var r := move.report;
    if r < |w.sends| && w.sends[r] != [] {
      var t := w.sends[r][0];
      assert t.report == r;
      assert (w.queue + [t])[..|w.queue|] == w.queue;
      var n := |w.sends|;
      var w1 := w.(sends := w.sends[r := w.sends[r][1..]]);
      SameLeft(w1, Play(w, move), c, n);
      if w.chans[r] == c {
        LeftStarts(w, r, n);
        assert On(w.queue, w.chans, c) + ([t] + Left(w1, c, n)) == (On(w.queue, w.chans, c) + [t]) + Left(w1, c, n);
      } else {
        LeftElsewhere(w, r, c, n);
      }
    }
  }

  lemma SameLeft(w: World, w': World, c: Cid, n: nat)
    requires n <= |w.sends| == |w.chans| && w'.sends == w.sends && w'.chans == w.chans
    ensures Left(w', c, n) == Left(w, c, n)
  {
    LeftOfMore(w, w', c, n);
  }

  /** Two orders that differ somewhere. */
  predicate Differ(a: seq<Tagged>, b: seq<Tagged>) {
    exists k | 0 <= k < |a| && k < |b| :: a[k] != b[k]
  }

  lemma DifferMore(a: seq<Tagged>, b: seq<Tagged>, a': seq<Tagged>, b': seq<Tagged>)
    requires Differ(a, b) && a <= a' && b <= b'
    ensures Differ(a', b') && !(a' <= b')
  {
    var k :| 0 <= k < |a| && k < |b| && a[k] != b[k];
    assert a'[k] == a[k] && b'[k] == b[k];
  }

  lemma {:induction false} OnGrows(w: World, move: Move, c: Cid)
    requires Sorted(w)
    ensures On(w.queue, w.chans, c) <= On(Play(w, move).queue, Play(w, move).chans, c)
    ensures On(w.due, w.chans, c) <= On(Play(w, move).due, Play(w, move).chans, c)
  {
    hide On, Step, Answer;
    match move {
      case Report(i) =>
        OnMoreChans(w.queue, w.chans, CidOf(i.frame), c);
        OnMoreChans(w.due, w.chans, CidOf(i.frame), c);
        OnJoin(w.due, Tag(|w.sends|, Answer(w.device, i)), Play(w, move).chans, c);
      case Put(r) =>
        if r < |w.sends| && w.sends[r] != [] {
          OnJoin(w.queue, [w.sends[r][0]], w.chans, c);
        }
    }
  }

  /** A frame put out of turn is not the one that was due. */
  lemma OutOfTurnDiffers(w: World, r: nat)
    requires Sorted(w) && r < |w.sends| && w.sends[r] != [] && InOrder(w, w.chans[r]) && !HasTurn(w, r)
    ensures
      var w', c := Play(w, Put(r)), w.chans[r];
      Differ(On(w'.queue, w'.chans, c), On(w'.due, w'.chans, c))
  {
    var c, n := w.chans[r], |w.sends|;
    var s :| 0 <= s < r && w.chans[s] == c && w.sends[s] != [];
    var t := w.sends[r][0];
    assert (w.queue + [t])[..|w.queue|] == w.queue && t.report == r;
    var q, left := On(w.queue, w.chans, c), Left(w, c, n);
    LeftBegins(w, c, s, n);
    hide On, Left;
    assert (q + left)[|q|] == left[0];
    assert (q + [t])[|q|] == t;
  }

  /** The first frame left is of a report no younger than any with frames left. */
  lemma {:induction false} LeftBegins(w: World, c: Cid, s: nat, n: nat)
    requires Sorted(w) && s < n <= |w.sends| && w.chans[s] == c && w.sends[s] != []
    ensures Left(w, c, n) != [] && Left(w, c, n)[0].report <= s
  {
    assert w.sends[s][0].report == s && |w.sends| == |w.chans|;
    hide *;
    LeftUnfolds(w, c, n - 1);
    LeftReports(w, c, n - 1);
    if s < n - 1 {
      LeftBegins(w, c, s, n - 1);
    }
  }

  lemma {:induction false} LeftReports(w: World, c: Cid, n: nat)
    requires Sorted(w) && n <= |w.sends|
    ensures forall k | 0 <= k < |Left(w, c, n)| :: Left(w, c, n)[k].report < n
  {
    if n > 0 {
      LeftReports(w, c, n - 1);
    }
  }

  lemma {:induction false} OrderKept(d: Device, moves: seq<Move>, c: Cid)
    ensures Sorted(PlayAll(d, moves))
    ensures InTurn(d, moves, c) ==> InOrder(PlayAll(d, moves), c)
    ensures !InTurn(d, moves, c) ==>
      var w := PlayAll(d, moves); Differ(On(w.queue, w.chans, c), On(w.due, w.chans, c))
  {
    StaysSorted(d, moves);
    if moves != [] {
      var was, w, move := moves[..|moves| - 1], PlayAll(d, moves[..|moves| - 1]), moves[|moves| - 1];
      OrderKept(d, was, c);
      InTurnStep(d, moves, c);
      hide InTurn, InOrder, On, HasTurn, Sorted, Differ;
      assert PlayAll(d, moves) == Play(w, move);
      hide PlayAll, Play;
      if !InTurn(d, was, c) {
        OnGrows(w, move, c);
        DifferMore(On(w.queue, w.chans, c), On(w.due, w.chans, c),
                   On(Play(w, move).queue, Play(w, move).chans, c), On(Play(w, move).due, Play(w, move).chans, c));
      } else if InTurn(d, moves, c) {
        match move {
          case Report(_) => ReportKeepsOrder(w, move, c);
          case Put(_) => PutKeepsOrder(w, move, c);
        }
      } else {
        OutOfTurnDiffers(w, move.report);
      }
    }
  }

  /** Under any schedule, the frames put on a channel are, in order, a prefix of those the
      device sends there when every response is one step, if and only if each was put by
      the oldest report with frames left there. */
  lemma OrderKeptExactlyInTurn(d: Device, moves: seq<Move>, c: Cid)
    ensures
      var w := PlayAll(d, moves);
      On(w.queue, w.chans, c) <= On(w.due, w.chans, c) <==> InTurn(d, moves, c)
  {
    OrderKept(d, moves, c);
    hide InTurn, On;
    var w := PlayAll(d, moves);
    hide PlayAll;
    if !InTurn(d, moves, c) {
      DifferMore(On(w.queue, w.chans, c), On(w.due, w.chans, c), On(w.queue, w.chans, c), On(w.due, w.chans, c));
    }
  }

  // ---- When every put has its turn ----

  /** A host that, on `c`, sends the next report only when the last response is out. */
  predicate OneAtATime(d: Device, moves: seq<Move>, c: Cid) {
    forall x | 0 <= x < |moves| && moves[x].Report? && CidOf(moves[x].input.frame) == c ::
      var w := PlayAll(d, moves[..x]);
      |w.chans| == |w.sends| && forall r | 0 <= r < |w.sends| && w.chans[r] == c :: w.sends[r] == []
  }

  /** At most the youngest report on `c` has frames left. */
  predicate OneLeft(w: World, c: Cid)
    requires |w.chans| == |w.sends|
  {
    forall r, s | 0 <= s < r < |w.sends| && w.chans[r] == c && w.chans[s] == c :: w.sends[s] == []
  }

  lemma {:induction false} OneAtATimeIsInTurn(d: Device, moves: seq<Move>, c: Cid)
    requires OneAtATime(d, moves, c)
    ensures |PlayAll(d, moves).chans| == |PlayAll(d, moves).sends| && OneLeft(PlayAll(d, moves), c)
    ensures InTurn(d, moves, c)
  {
    if moves != [] {
      var was, w, move := moves[..|moves| - 1], PlayAll(d, moves[..|moves| - 1]), moves[|moves| - 1];
      assert forall x | 0 <= x < |was| :: was[..x] == moves[..x] && was[x] == moves[x];
      OneAtATimeIsInTurn(d, was, c);
      InTurnStep(d, moves, c);
      hide InTurn, Step, Answer;
    }
  }

  /** No response sent under the lock has frames left. */
  predicate LockFree(w: World) {
    |w.held| == |w.sends| && forall r | 0 <= r < |w.sends| && w.held[r] :: w.sends[r] == []
  }

  /** The lock is respected: a report that takes it waits for a response sent under it. */
  predicate LockRespected(d: Device, moves: seq<Move>) {
    forall x | 0 <= x < |moves| && moves[x].Report? && TakesLock(moves[x].input) :: LockFree(PlayAll(d, moves[..x]))
  }

  /** Of two responses sent under the lock, the older has no frames left. */
  predicate OlderIsOut(w: World) {
    && |w.held| == |w.sends|
    && forall r, s | 0 <= s < r < |w.sends| && w.held[r] && w.held[s] :: w.sends[s] == []
  }

  lemma LockStep(w: World, move: Move)
    requires OlderIsOut(w) && (move.Report? && TakesLock(move.input) ==> LockFree(w))
    ensures OlderIsOut(Play(w, move))
  {
    hide Step, Answer, Tag;
    var w' := Play(w, move);
    forall r, s | 0 <= s < r < |w'.sends| && w'.held[r] && w'.held[s]
      ensures w'.sends[s] == []
    {
      assert s < |w.sends| && (r < |w.sends| ==> w.held[r] && w.held[s]);
    }
  }

  /** Then of two responses sent under the lock the older is out before the younger begins:
      a frame out of turn always involves a response sent without it. */
  lemma {:induction false} LockedResponsesKeepOrder(d: Device, moves: seq<Move>)
    requires LockRespected(d, moves)
    ensures OlderIsOut(PlayAll(d, moves))
  {
    if moves != [] {
      hide Play, LockFree, OlderIsOut;
      var was := moves[..|moves| - 1];
      assert forall x | 0 <= x < |was| :: was[..x] == moves[..x] && was[x] == moves[x];
      LockedResponsesKeepOrder(d, was);
      LockStep(PlayAll(d, was), moves[|moves| - 1]);
    }
  }

  /** The lock does not keep the order of responses on one channel: after a continuation
      frame has completed a message, a new command there may be answered first. */
  lemma CompletedMessageOvertaken(d: Device, last: Input, next: Input)
    requires !IsCommand(last.frame) && IsCbor(next) && CidOf(last.frame) == CidOf(next.frame)
    requires Answer(d, last) != [] && Answer(Step(d, last), next) != []
    ensures
      var moves := [Report(last), Report(next), Put(1)];
      LockRespected(d, moves) && !InTurn(d, moves, CidOf(last.frame))
  {
    hide Step, Answer;
    var moves := [Report(last), Report(next), Put(1)];
    PlayOneMore(d, moves, 0);
    PlayOneMore(d, moves, 1);
    assert moves[..0] == [];
    var w2 := PlayAll(d, moves[..2]);
    assert w2.sends[0] == Tag(0, Answer(d, last)) && w2.sends[1] == Tag(1, Answer(Step(d, last), next));
    assert Puts(w2, moves[2], CidOf(last.frame)) && !HasTurn(w2, 1);
    assert !MoveInTurn(w2, moves[2], CidOf(last.frame));
    assert !PlayAll(d, moves[..1]).held[0];
  }

  lemma PlayOneMore(d: Device, moves: seq<Move>, x: nat)
    requires x < |moves|
    ensures PlayAll(d, moves[..x + 1]) == Play(PlayAll(d, moves[..x]), moves[x])
  {
    hide Play;
    assert moves[..x + 1][..x] == moves[..x];
  }

  // ---- One response ----

  /** Frames of `r` with a frame of another report on its channel between them. */
  predicate Broken(w: World, r: nat)
    requires r < |w.chans|
  {
    exists i, j, k | 0 <= i < j < k < |w.queue| ::
      w.queue[i].report == r && Foreign(w, r, j) && w.queue[k].report == r
  }

  /** Frame `j` answers another report on the channel of `r`. */
  predicate Foreign(w: World, r: nat, j: nat)
    requires r < |w.chans| && j < |w.queue|
  {
    var s := w.queue[j].report;
    s != r && s < |w.chans| && w.chans[s] == w.chans[r]
  }

  predicate Begun(w: World, r: nat) {
    exists i | 0 <= i < |w.queue| :: w.queue[i].report == r
  }

  /** `r` has begun, and a frame of another report on its channel has come after. */
  predicate Followed(w: World, r: nat)
    requires r < |w.chans|
  {
    exists i, j | 0 <= i < j < |w.queue| :: w.queue[i].report == r && Foreign(w, r, j)
  }

  /** The move puts a frame of another report on the channel of `r`, which is in the middle
      of its own. */
  predicate CutsInto(w: World, move: Move, r: nat) {
    && Sorted(w) && r < |w.sends| && w.sends[r] != [] && Begun(w, r)
    && move.Put? && move.report != r && Puts(w, move, w.chans[r])
  }

  predicate CutInto(d: Device, moves: seq<Move>, r: nat) {
    exists x | 0 <= x < |moves| :: CutsInto(PlayAll(d, moves[..x]), moves[x], r)
  }

  lemma CutIntoStep(d: Device, moves: seq<Move>, r: nat)
    requires moves != []
    ensures CutInto(d, moves, r) <==>
      CutInto(d, moves[..|moves| - 1], r) || CutsInto(PlayAll(d, moves[..|moves| - 1]), moves[|moves| - 1], r)
  {
    hide PlayAll, CutsInto;
    var was := moves[..|moves| - 1];
    assert forall x | 0 <= x < |was| :: was[..x] == moves[..x] && was[x] == moves[x];
    if CutInto(d, was, r) {
      var x :| 0 <= x < |was| && CutsInto(PlayAll(d, was[..x]), was[x], r);
      assert CutsInto(PlayAll(d, moves[..x]), moves[x], r);
    }
  }

  /** How the frames of `r` stand, and what was cut into them. */
  predicate Accounted(w: World, r: nat, cut: bool) {
    && Sorted(w)
    && if r >= |w.sends| then !cut && !Begun(w, r)
       else
         && (Followed(w, r) ==> cut || w.sends[r] == [])
         && (cut ==> Followed(w, r) && (w.sends[r] != [] || Broken(w, r)))
         && (Broken(w, r) ==> cut)
  }

  lemma ReportAccounts(w: World, move: Move, r: nat, cut: bool)
    requires Accounted(w, r, cut) && move.Report? && Sorted(Play(w, move))
    ensures Accounted(Play(w, move), r, cut)
  {
    hide Step, Answer;
    var w' := Play(w, move);
    assert forall j | 0 <= j < |w.queue| && r < |w.chans| :: Foreign(w', r, j) <==> Foreign(w, r, j);
    hide Sorted;
  }

  lemma PutAccounts(w: World, move: Move, r: nat, cut: bool)
    requires Accounted(w, r, cut) && move.Put? && Sorted(Play(w, move))
    ensures Accounted(Play(w, move), r, cut || CutsInto(w, move, r))
  {
    var w', n := Play(w, move), |w.queue|;
    if move.report < |w.sends| && w.sends[move.report] != [] {
      var t := w.sends[move.report][0];
      assert t.report == move.report;
      assert forall j | 0 <= j < n :: w'.queue[j] == w.queue[j];
      if r < |w.sends| {
        QueueOneMore(w, w', r, t);
      }
    }
  }

  lemma QueueOneMore(w: World, w': World, r: nat, t: Tagged)
    requires r < |w.chans| && w'.chans == w.chans && w'.queue == w.queue + [t] && t.report < |w.chans|
    ensures Begun(w', r) <==> Begun(w, r) || t.report == r
    ensures Followed(w', r) <==> Followed(w, r) || (Begun(w, r) && t.report != r && w.chans[t.report] == w.chans[r])
    ensures Broken(w', r) <==> Broken(w, r) || (Followed(w, r) && t.report == r)
  {
    BegunMore(w, w', r, t);
    FollowedMore(w, w', r, t);
    hide *;
    if Broken(w, r) || (Followed(w, r) && t.report == r) {
      BrokenMore(w, w', r, t);
    }
    if Broken(w', r) {
      BrokenLess(w, w', r, t);
    }
  }

  /** One more frame in the queue changes nothing about those before it. */
  lemma SameBefore(w: World, w': World, r: nat, t: Tagged)
    requires r < |w.chans| && w'.chans == w.chans && w'.queue == w.queue + [t] && t.report < |w.chans|
    ensures forall j | 0 <= j < |w.queue| :: w'.queue[j] == w.queue[j] && (Foreign(w', r, j) <==> Foreign(w, r, j))
    ensures w'.queue[|w.queue|] == t
    ensures Foreign(w', r, |w.queue|) <==> t.report != r && w.chans[t.report] == w.chans[r]
  {
  }

  lemma BegunMore(w: World, w': World, r: nat, t: Tagged)
    requires r < |w.chans| && w'.chans == w.chans && w'.queue == w.queue + [t]
    ensures Begun(w', r) <==> Begun(w, r) || t.report == r
  {
    assert w'.queue[|w.queue|] == t && forall j | 0 <= j < |w.queue| :: w'.queue[j] == w.queue[j];
  }

  lemma FollowedMore(w: World, w': World, r: nat, t: Tagged)
    requires r < |w.chans| && w'.chans == w.chans && w'.queue == w.queue + [t] && t.report < |w.chans|
    ensures Followed(w', r) <==> Followed(w, r) || (Begun(w, r) && t.report != r && w.chans[t.report] == w.chans[r])
  {
    SameBefore(w, w', r, t);
    hide Foreign;
    var n := |w.queue|;
    if Begun(w, r) && t.report != r && w.chans[t.report] == w.chans[r] {
      var i :| 0 <= i < n && w.queue[i].report == r;
      assert w'.queue[i].report == r && Foreign(w', r, n);
    }
    if Followed(w, r) {
      var i, j :| 0 <= i < j < n && w.queue[i].report == r && Foreign(w, r, j);
      assert w'.queue[i].report == r && Foreign(w', r, j);
    }
  }

  lemma BrokenMore(w: World, w': World, r: nat, t: Tagged)
    requires r < |w.chans| && w'.chans == w.chans && w'.queue == w.queue + [t] && t.report < |w.chans|
    requires Broken(w, r) || (Followed(w, r) && t.report == r)
    ensures Broken(w', r)
  {
    SameBefore(w, w', r, t);
    hide Foreign;
    var n := |w.queue|;
    if Broken(w, r) {
      var i, j, k :| 0 <= i < j < k < n && w.queue[i].report == r && Foreign(w, r, j) && w.queue[k].report == r;
      assert w'.queue[i].report == r && Foreign(w', r, j) && w'.queue[k].report == r;
    } else {
      var i, j :| 0 <= i < j < n && w.queue[i].report == r && Foreign(w, r, j);
      assert w'.queue[i].report == r && Foreign(w', r, j) && w'.queue[n].report == r;
    }
  }

  lemma BrokenLess(w: World, w': World, r: nat, t: Tagged)
    requires r < |w.chans| && w'.chans == w.chans && w'.queue == w.queue + [t] && t.report < |w.chans|
    requires Broken(w', r)
    ensures Broken(w, r) || (Followed(w, r) && t.report == r)
  {
    SameBefore(w, w', r, t);
    hide Foreign;
    var n := |w.queue|;
    var i, j, k :| 0 <= i < j < k < n + 1 && w'.queue[i].report == r && Foreign(w', r, j) && w'.queue[k].report == r;
    assert w.queue[i].report == r && Foreign(w, r, j);
    if k < n {
      assert w.queue[k].report == r;
    }
  }

  lemma {:induction false} StaysAccounted(d: Device, moves: seq<Move>, r: nat)
    ensures Accounted(PlayAll(d, moves), r, CutInto(d, moves, r))
  {
    StaysSorted(d, moves);
    if moves != [] {
      var w, move := PlayAll(d, moves[..|moves| - 1]), moves[|moves| - 1];
      StaysAccounted(d, moves[..|moves| - 1], r);
      CutIntoStep(d, moves, r);
      assert PlayAll(d, moves) == Play(w, move);
      hide PlayAll, CutInto, Accounted, Play, Sorted;
      match move {
        case Report(_) => ReportAccounts(w, move, r, CutInto(d, moves[..|moves| - 1], r));
        case Put(_) => PutAccounts(w, move, r, CutInto(d, moves[..|moves| - 1], r));
      }
    }
  }

  /** Under any schedule, the frames of a response that is out are contiguous on its channel
      if and only if no frame of another response there was put while it was in the middle
      of its own. */
  lemma ContiguousExactlyIfNotCutInto(d: Device, moves: seq<Move>, r: nat)
    requires r < |PlayAll(d, moves).sends| == |PlayAll(d, moves).chans| && PlayAll(d, moves).sends[r] == []
    ensures Broken(PlayAll(d, moves), r) <==> CutInto(d, moves, r)
  {
    StaysAccounted(d, moves, r);
    hide PlayAll, CutInto, Broken, Followed;
  }
}
