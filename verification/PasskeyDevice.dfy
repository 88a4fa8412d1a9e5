/** The UHID device's CTAPHID dispatcher (soft_fido2/platform/passkey_device.py):
    a dictionary of channels, each with at most one command whose continuation
    frames are still arriving, and a queue of outgoing frames. */
module PasskeyDevice {
  import opened Bytes
  import opened CborCommands

  type Frame = f: seq<byte> | |f| == MAX_DATA_FRAME witness seq(MAX_DATA_FRAME, i => 0)
  type Cid = c: seq<byte> | |c| == 4 witness [0, 0, 0, 0]

  const INIT_BCNT: nat := 17
  const U2F_V2: seq<byte> := [0x55, 0x32, 0x46, 0x5F, 0x56, 0x32]

  /** One report read from the host, with what the code draws from outside when
      it handles it: the channel id INIT draws, and the handler's answer. */
  datatype Input = Input(frame: Frame, draw: Cid, answer: seq<byte>)

  /** A request passed to `unpack`. */
  datatype Unpacked = Unpacked(cid: Cid, cmd: byte, request: seq<byte>)

  datatype Device = Device(
    cids: map<Cid, Option<Command>>,  // channels; Some while a command waits for frames
    pending: seq<Frame>,              // frames queued for the host
    unpacked: seq<Unpacked>)          // requests handed to `unpack`, in order

  function CidOf(f: Frame): Cid { f[..4] }
  predicate IsCommand(f: Frame) { f[4] >= 0x80 }
  function HidCommand(f: Frame): nat { f[4] % 0x80 }

  // ---- Outgoing frames ----

  function Pad(data: seq<byte>): (f: Frame)
    requires |data| <= MAX_DATA_FRAME
    ensures f[..|data|] == data
  {
    data + seq(MAX_DATA_FRAME - |data|, i => 0)
  }

  function InitFrame(cid: Cid, hid: byte, bcnt: nat, data: seq<byte>): Frame
    requires bcnt < 0x10000 && |data| <= INIT_DATA
  {
    Pad(cid + [hid] + [bcnt / 256, bcnt % 256] + data)
  }

  function ContFrame(cid: Cid, seqNum: byte, data: seq<byte>): Frame
    requires |data| <= CONT_DATA
  {
    Pad(cid + [seqNum] + data)
  }

  /** Where the payload of frame `j` starts within the message. */
  function Offset(j: nat): nat {
    if j == 0 then 0 else INIT_DATA + CONT_DATA * (j - 1)
  }

  /** How many frames a message of `n` bytes takes; none when it is empty. */
  function FrameCount(n: nat): nat {
    if n == 0 then 0 else if n <= INIT_DATA then 1 else 1 + (n - INIT_DATA + CONT_DATA - 1) / CONT_DATA
  }

  /** Frame `j` of a response: the bytes of the message from Offset(j) up to Offset(j+1). */
  function FrameAt(cid: Cid, hid: byte, bcnt: nat, m: seq<byte>, j: nat): Frame
    requires bcnt < 0x10000 && j <= 256 && Offset(j) <= |m|
  {
    var data := m[Offset(j)..Min(Offset(j + 1), |m|)];
    if j == 0 then InitFrame(cid, hid, bcnt, data) else ContFrame(cid, j - 1, data)
  }

  /** Frames built before `struct.pack` raises: the byte count is 16 bits wide
      and the sequence number 8. */
  function Packable(bcnt: nat): nat { if bcnt < 0x10000 then 257 else 0 }

  /** How many frames `send_response_segments` queues for a response of `n` bytes. */
  function SentCount(n: nat, bcnt: nat): nat { Min(FrameCount(n), Packable(bcnt)) }

  /** The first `n` frames of a response. */
  function Frames(cid: Cid, hid: byte, bcnt: nat, m: seq<byte>, n: nat): (fs: seq<Frame>)
    requires n <= SentCount(|m|, bcnt)
    ensures |fs| == n
  {
    if n == 0 then []
    else OffsetWithin(|m|, n - 1); Frames(cid, hid, bcnt, m, n - 1) + [FrameAt(cid, hid, bcnt, m, n - 1)]
  }

  lemma {:induction false} FramesAt(cid: Cid, hid: byte, bcnt: nat, m: seq<byte>, n: nat, j: nat)
    requires j < n <= SentCount(|m|, bcnt)
    ensures Offset(j) < |m| && Frames(cid, hid, bcnt, m, n)[j] == FrameAt(cid, hid, bcnt, m, j)
  {
    OffsetWithin(|m|, j);
    if j < n - 1 { FramesAt(cid, hid, bcnt, m, n - 1, j); }
  }

  /** What `send_response_segments` queues for a response. */
  function Sent(cid: Cid, hid: byte, bcnt: nat, m: seq<byte>): seq<Frame> {
    Frames(cid, hid, bcnt, m, SentCount(|m|, bcnt))
  }

  lemma OffsetWithin(n: nat, j: nat)
    requires j < FrameCount(n)
    ensures Offset(j) < n
    ensures Offset(j + 1) < n <==> j + 1 < FrameCount(n)
  {
  }

  /** The next frame of a command's response, built from the segment `get_rsp_seg` takes. */
  function SegmentSize(c: Command): nat { if c.responseSegment == 0 then INIT_DATA else CONT_DATA }

  predicate SegmentPacks(c: Command) {
    if c.responseSegment == 0 then c.bcnt < 0x10000 else c.responseSegment <= 256
  }

  function SegmentFrame(cid: Cid, c: Command): Frame
    requires SegmentPacks(c)
  {
    var data := c.response[..Min(SegmentSize(c), |c.response|)];
    if c.responseSegment == 0 then InitFrame(cid, c.ctaphidCmd, c.bcnt, data)
    else ContFrame(cid, c.responseSegment - 1, data)
  }

  /** What is left of a message after `n` of its frames. */
  function Rest(m: seq<byte>, n: nat): seq<byte> {
    if n < FrameCount(|m|) then OffsetWithin(|m|, n); m[Offset(n)..] else []
  }

  lemma RestEmpty(m: seq<byte>, n: nat)
    ensures Rest(m, n) == [] <==> n >= FrameCount(|m|)
  {
    if n < FrameCount(|m|) { OffsetWithin(|m|, n); }
  }

  lemma SegmentIsFrameAt(cid: Cid, c: Command, n: nat, listed: bool)
    requires c.responseSegment == 0 && n < FrameCount(|c.response|) && n <= Packable(c.bcnt)
    ensures Offset(n) < |c.response|
    ensures
      var at := c.(responseSegment := n, response := Rest(c.response, n), listed := listed);
      && Taken(at, SegmentSize(at)).response == Rest(c.response, n + 1)
      && (SegmentPacks(at) <==> n < Packable(c.bcnt))
      && (n < Packable(c.bcnt) ==> SegmentFrame(cid, at) == FrameAt(cid, c.ctaphidCmd, c.bcnt, c.response, n))
  {
    OffsetWithin(|c.response|, n);
    var rest := Rest(c.response, n);
    var size := if n == 0 then INIT_DATA else CONT_DATA;
    assert rest[..Min(size, |rest|)] == c.response[Offset(n)..Min(Offset(n + 1), |c.response|)];
    if n + 1 < FrameCount(|c.response|) {
      assert rest[size..] == c.response[Offset(n + 1)..];
    }
  }

  // ---- One step ----

  function AfterContinue(d: Device, i: Input): Device {
    var cid := CidOf(i.frame);
    if cid !in d.cids || d.cids[cid].None? then d
    else
      var (c, unpacked) := Append(d.cids[cid].value, i.frame[5..], i.frame[4], i.answer);
      var log := if unpacked then Log(d.unpacked, cid, c) else d.unpacked;
      if c.ready then Device(d.cids[cid := None], d.pending + Sent(cid, c.ctaphidCmd, c.bcnt, c.response), log)
      else Device(d.cids[cid := Some(c)], d.pending, log)
  }

  function Log(log: seq<Unpacked>, cid: Cid, c: Command): seq<Unpacked> {
    if c.cmd.Some? then log + [Unpacked(cid, c.cmd.value, c.request)] else log
  }

  /** A byte outside CommandByte raises, and so does storing a command that must
      wait on a channel that was never assigned; neither changes the device. */
  function AfterCbor(d: Device, i: Input): Device {
    var cid := CidOf(i.frame);
    if cid in d.cids && d.cids[cid].Some? then d
    else if i.frame[7] !in KNOWN_COMMANDS then d
    else
      var (c, unpacked) := Received(i.frame[5..], i.frame[4], i.answer);
      if unpacked then
        Device(d.cids, d.pending + Sent(cid, c.ctaphidCmd, c.bcnt, c.response), Log(d.unpacked, cid, c))
      else if cid in d.cids then d.(cids := d.cids[cid := Some(c)])
      else d
  }

  function InitReply(nonce: seq<byte>, draw: Cid): (r: seq<byte>)
    requires |nonce| == 8
    ensures |r| == INIT_DATA
  {
    nonce + draw + [2, 5, 1, 2, 0x01 + 0x04] + seq(40, i => 0)
  }

  /** The frames that answer every command but CTAPHID_CBOR. */
  function Answers(i: Input): seq<Frame> {
    var cid := CidOf(i.frame);
    match HidCommand(i.frame)
    case 1 => [InitFrame(cid, 0x01, 0, U2F_V2)]                        // ping
    case 3 => Sent(cid, i.frame[4], |i.answer|, i.answer)              // U2F message
    case 6 => [InitFrame(cid, i.frame[4], INIT_BCNT, InitReply(i.frame[7..15], i.draw))]
    case 59 => []                                                      // keepalive
    case _ => [InitFrame(cid, 0, 0, [])]                               // acknowledge
  }

  function Step(d: Device, i: Input): Device {
    if !IsCommand(i.frame) then AfterContinue(d, i)
    else if HidCommand(i.frame) == 16 then AfterCbor(d, i)
    else
      Device(if HidCommand(i.frame) == 6 then d.cids[i.draw := None] else d.cids,
             d.pending + Answers(i), d.unpacked)
  }

  /** The device after a run of reports, each handled while holding `cids_lock`. */
  function Run(d: Device, ins: seq<Input>): Device {
    if ins == [] then d else Step(Run(d, ins[..|ins| - 1]), ins[|ins| - 1])
  }

  class CtapHidDevice {
    var cids: map<Cid, Option<CborCommand>>
    var pending: seq<Frame>
    ghost var unpacked: seq<Unpacked>

    ghost function Commands(): set<CborCommand>
      reads this
    {
      set c | c in cids && cids[c].Some? :: cids[c].value
    }

    /** No two channels share a command object, and a waiting command has sent nothing yet. */
    ghost predicate Valid()
      reads this, Commands()
    {
      && (forall c, e | c in cids && e in cids && c != e && cids[c].Some? && cids[e].Some? ::
        cids[c].value != cids[e].value)
      && (forall c | c in cids && cids[c].Some? :: cids[c].value.responseSegment == 0 && !cids[c].value.responseReady)
    }

    ghost function View(): Device
      reads this, Commands()
    {
      Device(map c | c in cids :: if cids[c].Some? then Some(cids[c].value.View()) else None, pending, unpacked)
    }

    constructor ()
      ensures Valid() && View() == Device(map[], [], [])
    {
      cids, pending, unpacked := map[], [], [];
    }

    /** False when `struct.pack` raises: too wide a byte count or sequence number. */
    method SendResponseSegment(cid: Cid, cmd: CborCommand) returns (ok: bool)
      modifies this`pending, cmd
      ensures cmd.View() == Taken(old(cmd.View()), SegmentSize(old(cmd.View())))
      ensures ok <==> SegmentPacks(old(cmd.View()))
      ensures !ok ==> pending == old(pending)
      ensures ok ==> pending == old(pending) + [SegmentFrame(cid, old(cmd.View()))]
    {
      if cmd.responseSegment == 0 {
        var data, _ := cmd.GetRspSeg(INIT_DATA);
        if cmd.bcnt >= 0x10000 { return false; }
        pending := pending + [InitFrame(cid, cmd.ctaphidCmd, cmd.bcnt, data)];
      } else {
        var data, seqNum := cmd.GetRspSeg(CONT_DATA);
        if seqNum >= 256 { return false; }
        pending := pending + [ContFrame(cid, seqNum, data)];
      }
      ok := true;
    }

    method SendResponseSegments(cid: Cid, cmd: CborCommand)
      requires cmd.responseSegment == 0
      modifies this`pending, cmd
      ensures pending == old(pending) + Sent(cid, old(cmd.ctaphidCmd), old(cmd.bcnt), old(cmd.response))
    {
      hide FrameAt, SegmentFrame, SegmentSize;
      ghost var c := cmd.View();
      ghost var n := 0;
      while |cmd.response| > 0
        invariant n <= SentCount(|c.response|, c.bcnt)
        invariant cmd.View() == c.(responseSegment := n, response := Rest(c.response, n), listed := cmd.listed)
        invariant pending == old(pending) + Frames(cid, c.ctaphidCmd, c.bcnt, c.response, n)
        decreases |cmd.response|
      {
        RestEmpty(c.response, n);
        SegmentIsFrameAt(cid, c, n, cmd.listed);
        ghost var sent := pending;
        var ok := SendResponseSegment(cid, cmd);
        if !ok { return; }
        n := n + 1;
        assert pending == sent + [FrameAt(cid, c.ctaphidCmd, c.bcnt, c.response, n - 1)];
      }
      RestEmpty(c.response, n);
    }

    method HandleIncomingSequence(cid: Cid, i: Input)
      requires Valid() && cid == CidOf(i.frame)
      modifies this, Commands()
      ensures Valid() && View() == AfterContinue(old(View()), i)
    {
      hide Drain, Sent, Frames;
      if cid !in cids || cids[cid].None? { return; }
      var transaction := cids[cid].value;
      var ran := transaction.AppendSegment(i.frame[5..], i.frame[4], i.answer);
      if ran && transaction.cmd.Some? {
        unpacked := unpacked + [Unpacked(cid, transaction.cmd.value, transaction.request)];
      }
      if transaction.responseReady {
        cids := cids[cid := None];
        SendResponseSegments(cid, transaction);
      }
    }

    method CtapHidCbor(cid: Cid, i: Input)
      requires Valid() && cid == CidOf(i.frame)
      modifies this
      ensures Valid() && View() == AfterCbor(old(View()), i)
    {
      hide Sent, FromBE;
      if cid in cids && cids[cid].Some? { return; }
      if i.frame[7] !in KNOWN_COMMANDS { return; }
      assert i.frame[5..][2] == i.frame[7];
      var command := new CborCommand.FromFrame(i.frame[5..], i.frame[4], i.answer);
      if command.responseReady {
        unpacked := unpacked + [Unpacked(cid, command.cmd.value, command.request)];
        SendResponseSegments(cid, command);
      } else if cid in cids {
        cids := cids[cid := Some(command)];
      }
    }

    method CtapHidInit(cid: Cid, i: Input)
      requires Valid() && cid == CidOf(i.frame) && HidCommand(i.frame) == 6
      modifies this
      ensures Valid() && View() == old(View()).(cids := old(View()).cids[i.draw := None],
                                                pending := old(View()).pending + Answers(i))
    {
      var reply := InitReply(i.frame[7..15], i.draw);
      var command := new CborCommand.Prepare(i.frame[4], INIT_BCNT, reply, false);
      assert reply[..INIT_DATA] == reply;
      cids := cids[i.draw := None];
      var _ := SendResponseSegment(cid, command);
    }

    method CtapHidPing(cid: Cid)
      requires Valid()
      modifies this
      ensures Valid() && View() == old(View()).(pending := old(View()).pending + [InitFrame(cid, 0x01, 0, U2F_V2)])
    {
      var command := new CborCommand.Prepare(0x01, 0, U2F_V2, true);
      assert U2F_V2[..|U2F_V2|] == U2F_V2;
      var _ := SendResponseSegment(cid, command);
    }

    method CtapHidMsg(cid: Cid, i: Input)
      requires Valid() && cid == CidOf(i.frame)
      modifies this
      ensures Valid()
      ensures View() == old(View()).(pending := old(View()).pending + Sent(cid, i.frame[4], |i.answer|, i.answer))
    {
      var command := new CborCommand.Prepare(i.frame[4], |i.answer|, i.answer, true);
      SendResponseSegments(cid, command);
    }

    method Acknowledge(cid: Cid)
      requires Valid()
      modifies this
      ensures Valid() && View() == old(View()).(pending := old(View()).pending + [InitFrame(cid, 0, 0, [])])
    {
      var command := new CborCommand.Prepare(0, 0, [], true);
      var _ := SendResponseSegment(cid, command);
    }

    method ProcessOutput(i: Input)
      requires Valid()
      modifies this, Commands()
      ensures Valid() && View() == Step(old(View()), i)
    {
      var cid := CidOf(i.frame);
      if !IsCommand(i.frame) {
        HandleIncomingSequence(cid, i);
        return;
      }
      match HidCommand(i.frame) {
        case 1 => CtapHidPing(cid);
        case 3 => CtapHidMsg(cid, i);
        case 6 => CtapHidInit(cid, i);
        case 16 => CtapHidCbor(cid, i);
        case 59 => return;
        case _ => Acknowledge(cid);
      }
    }
  }
}
