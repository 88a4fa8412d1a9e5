/** The USB/IP device (soft_fido2/platform/usbip_device.py): the host polls with IN
    requests, which wait in a queue until a response segment can use them up. */
module UsbIpDevice {
  import opened Bytes
  import opened CborCommands
  import opened PasskeyDevice
  import Packet

  const BROADCAST: Cid := [0xFF, 0xFF, 0xFF, 0xFF]

  /** A stored command. Each time its response is set, that response gets the next
      number, so that the data sent can be told apart. */
  datatype Live = Live(cmd: Command, response: nat)

  /** One IN request answered: with which frame, and with which bytes of which response. */
  datatype Answer = Answer(seqnum: nat, response: nat, frame: seq<byte>, data: seq<byte>)

  /** A response as it was stored, the byte count an initialization frame would carry, and
      the segment the command had reached: the next one is an initialization frame if 0. */
  datatype Stored = Stored(data: seq<byte>, bcnt: nat, segment: nat)

  /** `convert`: segments go through `bytes(...)` before the packet is built, as in the
      UHID device. This device does not do that, so its value is false here. */
  datatype Usb = Usb(
    convert: bool,
    cids: map<Cid, Option<Live>>,
    order: seq<Cid>,               // the dictionary's insertion order
    pending: seq<nat>,             // sequence numbers of waiting IN requests
    queued: seq<nat>,              // every IN request so far
    unlinked: set<nat>,            // those withdrawn while they waited
    answered: seq<Answer>,
    responses: seq<Stored>)        // every response set so far

  datatype Event =
    | In(seqnum: nat)
    | Unlink(seqnum: nat)
    | Out(input: Input)

  function Empty(convert: bool): Usb { Usb(convert, map[], [], [], [], {}, [], []) }

  /** `self.cids[cid]['cborCmd'] = cmd`, its response being newly set. */
  function Store(u: Usb, cid: Cid, cmd: Command): Usb {
    u.(cids := u.cids[cid := Some(Live(cmd, |u.responses|))],
       order := if cid in u.cids then u.order else u.order + [cid],
       responses := u.responses + [Stored(cmd.response, cmd.bcnt, cmd.responseSegment)])
  }

  /** The next segment as the packet gets it: a slice of the stored list or `bytes`. */
  function SegmentValue(convert: bool, cmd: Command): Packet.Value {
    var data := cmd.response[..Min(SegmentSize(cmd), |cmd.response|)];
    if convert || !cmd.listed then Packet.Octets(data) else Packet.Items(data)
  }

  /** The packet of the next segment, unless `struct.pack` refuses one of its fields. */
  function PackSegment(convert: bool, cid: Cid, cmd: Command): Result<seq<byte>> {
    var v := SegmentValue(convert, cmd);
    var channel := Packet.Number(FromBE(cid));
    if cmd.responseSegment == 0 then
      Packet.PackAll(true, Packet.InitFields(|v.b|),
                     map["cid" := channel, "cmd" := Packet.Number(cmd.ctaphidCmd),
                         "bcnt" := Packet.Number(cmd.bcnt), "data" := v])
    else
      Packet.PackAll(true, Packet.SeqFields(|v.b|),
                     map["cid" := channel, "seq" := Packet.Number(cmd.responseSegment - 1), "data" := v])
  }

  /** The zeros after a packet that is shorter than a frame. */
  function Filled(packed: seq<byte>): seq<byte> {
    packed + seq(if |packed| < MAX_DATA_FRAME then MAX_DATA_FRAME - |packed| else 0, i => 0)
  }

  /** `send_response_segment`: the command stored under `owner` is sent on channel `cid`.
      A segment `struct.pack` refuses is lost, and the IN request keeps waiting. */
  function Send(u: Usb, owner: Cid, cid: Cid): Usb
    requires owner in u.cids && u.cids[owner].Some?
  {
    if u.pending == [] then u
    else
      var live := u.cids[owner].value;
      var taken := Taken(live.cmd, SegmentSize(live.cmd));
      var u' := u.(cids := u.cids[owner := Some(live.(cmd := taken))]);
      match PackSegment(u.convert, cid, live.cmd)
      case Raised => u'
      case Success(packed) =>
        u'.(pending := u.pending[1..],
            answered := u.answered
              + [Answer(u.pending[0], live.response, Filled(packed), SegmentValue(u.convert, live.cmd).b)],
            cids := if taken.response == [] && cid != BROADCAST && cid in u.cids then u'.cids[cid := None] else u'.cids)
  }

  lemma ListRefused(cid: Cid, cmd: Command)
    requires cmd.listed
    ensures PackSegment(false, cid, cmd).Raised?
  {
    var v := SegmentValue(false, cmd);
    if cmd.responseSegment == 0 {
      Packet.RefusedField(true, Packet.InitFields(|v.b|),
                          map["cid" := Packet.Number(FromBE(cid)), "cmd" := Packet.Number(cmd.ctaphidCmd),
                              "bcnt" := Packet.Number(cmd.bcnt), "data" := v], 3);
    } else {
      Packet.RefusedField(true, Packet.SeqFields(|v.b|),
                          map["cid" := Packet.Number(FromBE(cid)),
                              "seq" := Packet.Number(cmd.responseSegment - 1), "data" := v], 2);
    }
  }

  /** A segment packs if and only if the response is `bytes`, or converted, and its header
      packs; then the frame is the one the UHID device sends for it. */
  lemma PacksExactly(convert: bool, cid: Cid, cmd: Command)
    ensures PackSegment(convert, cid, cmd).Success? <==> (convert || !cmd.listed) && SegmentPacks(cmd)
    ensures PackSegment(convert, cid, cmd).Success? ==>
      Filled(PackSegment(convert, cid, cmd).value) == SegmentFrame(cid, cmd)
  {
    hide Packet.PackAll, Packet.InitFields, Packet.SeqFields, InitFrame, ContFrame;
    var v := SegmentValue(convert, cmd);
    if v.Items? {
      ListRefused(cid, cmd);
    } else if cmd.responseSegment == 0 {
      Packet.InitFrameIsPacked(cid, cmd.ctaphidCmd, cmd.bcnt, v.b,
                               map["cid" := Packet.Number(FromBE(cid)), "cmd" := Packet.Number(cmd.ctaphidCmd),
                                   "bcnt" := Packet.Number(cmd.bcnt), "data" := v]);
    } else {
      Packet.ContFrameIsPacked(cid, cmd.responseSegment - 1, v.b,
                               map["cid" := Packet.Number(FromBE(cid)),
                                   "seq" := Packet.Number(cmd.responseSegment - 1), "data" := v]);
    }
  }

  predicate Ready(u: Usb, c: Cid) {
    c in u.cids && u.cids[c].Some? && u.cids[c].value.cmd.ready
  }

  /** The first channel, in insertion order from `i` on, with a ready response. */
  function FirstReady(u: Usb, i: nat): (c: Option<Cid>)
    ensures c.Some? ==> Ready(u, c.value)
    ensures c.Some? ==>
      exists j | i <= j < |u.order| :: u.order[j] == c.value && forall k | i <= k < j :: !Ready(u, u.order[k])
    ensures c.None? ==> forall k | i <= k < |u.order| :: !Ready(u, u.order[k])
    decreases |u.order| - i
  {
    if i >= |u.order| then None
    else if Ready(u, u.order[i]) then Some(u.order[i])
    else FirstReady(u, i + 1)
  }

  function AfterIn(u: Usb, seqnum: nat): Usb {
    var u' := u.(pending := u.pending + [seqnum], queued := u.queued + [seqnum]);
    match FirstReady(u', 0)
    case Some(c) => Send(u', c, c)
    case None => u'
  }

  /** The last position of `x` in the first `n` elements. */
  function LastIndex(s: seq<nat>, x: nat, n: nat): (k: Option<nat>)
    requires n <= |s|
    ensures k.Some? ==> k.value < n && s[k.value] == x && forall i | k.value < i < n :: s[i] != x
    ensures k.None? ==> forall i | 0 <= i < n :: s[i] != x
  {
    if n == 0 then None else if s[n - 1] == x then Some(n - 1) else LastIndex(s, x, n - 1)
  }

  function AfterUnlink(u: Usb, seqnum: nat): Usb {
    match LastIndex(u.pending, seqnum, |u.pending|)
    case Some(k) => u.(pending := u.pending[..k] + u.pending[k + 1..], unlinked := u.unlinked + {seqnum})
    case None => u
  }

  function AfterContinuation(u: Usb, i: Input): Usb {
    var cid := CidOf(i.frame);
    if cid !in u.cids || u.cids[cid].None? then u
    else
      var live := u.cids[cid].value;
      var (cmd, unpacked) := Append(live.cmd, i.frame[5..], i.frame[4], i.answer);
      var u' := if unpacked then Store(u, cid, cmd) else u.(cids := u.cids[cid := Some(live.(cmd := cmd))]);
      if cmd.ready then Send(u', cid, cid) else u'
  }

  /** A command byte outside the enumeration raises; so does storing on a channel that
      was never assigned. */
  function AfterCborOut(u: Usb, i: Input): Usb {
    var cid := CidOf(i.frame);
    if i.frame[7] !in KNOWN_COMMANDS || cid !in u.cids then u
    else
      var u' := Store(u, cid, Received(i.frame[5..], i.frame[4], i.answer).0);
      if u'.cids[cid].value.cmd.ready then Send(u', cid, cid) else u'
  }

  function UsbInitReply(nonce: seq<byte>, draw: Cid): (r: seq<byte>)
    requires |nonce| == 8
    ensures |r| == INIT_DATA
  {
    nonce + draw + [2, 5, 1, 2, 0x04 + 0x08] + seq(40, i => 0)
  }

  function AfterInitOut(u: Usb, i: Input): Usb {
    var cmd := Prepared(i.frame[4], INIT_BCNT, UsbInitReply(i.frame[7..15], i.draw), true);
    Send(Store(u, i.draw, cmd), i.draw, CidOf(i.frame))
  }

  function AfterMsgOut(u: Usb, i: Input): Usb {
    var cid := CidOf(i.frame);
    if i.frame[7] == 0 && i.frame[8] == 3 && cid in u.cids then
      Send(Store(u, cid, Prepared(i.frame[4], |U2F_V2|, U2F_V2, true)), cid, cid)
    else u
  }

  function AfterOut(u: Usb, i: Input): Usb {
    if !IsCommand(i.frame) then AfterContinuation(u, i)
    else match HidCommand(i.frame)
      case 3 => AfterMsgOut(u, i)
      case 6 => AfterInitOut(u, i)
      case 16 => AfterCborOut(u, i)
      case _ => u
  }

  function UsbStep(u: Usb, e: Event): Usb {
    match e
    case In(seqnum) => AfterIn(u, seqnum)
    case Unlink(seqnum) => AfterUnlink(u, seqnum)
    case Out(input) => AfterOut(u, input)
  }

  function UsbRun(u: Usb, es: seq<Event>): Usb {
    if es == [] then u else UsbStep(UsbRun(u, es[..|es| - 1]), es[|es| - 1])
  }

  // ---- Conservation and order ----

  /** The sequence numbers answered, in order. */
  function Served(answered: seq<Answer>): seq<nat> {
    if answered == [] then [] else Served(answered[..|answered| - 1]) + [answered[|answered| - 1].seqnum]
  }

  /** `s` without the elements of `x`, in order. */
  function Without(s: seq<nat>, x: set<nat>): seq<nat> {
    if s == [] then []
    else if s[|s| - 1] in x then Without(s[..|s| - 1], x)
    else Without(s[..|s| - 1], x) + [s[|s| - 1]]
  }

  predicate Distinct(s: seq<nat>) {
    forall i, j | 0 <= i < j < |s| :: s[i] != s[j]
  }

  function Polled(es: seq<Event>): seq<nat> {
    if es == [] then []
    else Polled(es[..|es| - 1]) + if es[|es| - 1].In? then [es[|es| - 1].seqnum] else []
  }

  lemma ServedOneMore(answered: seq<Answer>, a: Answer)
    ensures Served(answered + [a]) == Served(answered) + [a.seqnum]
  {
    assert (answered + [a])[..|answered|] == answered;
  }

  /** Sending moves the first waiting request from the queue to the answered, or neither. */
  lemma SendMovesOne(u: Usb, owner: Cid, cid: Cid)
    requires owner in u.cids && u.cids[owner].Some?
    ensures var u' := Send(u, owner, cid);
      && u'.queued == u.queued && u'.unlinked == u.unlinked && u'.convert == u.convert
      && Served(u'.answered) + u'.pending == Served(u.answered) + u.pending && u.answered <= u'.answered
  {
    hide PackSegment, Served;
    var live := u.cids[owner].value;
    var packed := PackSegment(u.convert, cid, live.cmd);
    if u.pending != [] && packed.Success? {
      ServedOneMore(u.answered, Answer(u.pending[0], live.response, Filled(packed.value),
                                       SegmentValue(u.convert, live.cmd).b));
      assert [u.pending[0]] + u.pending[1..] == u.pending;
    }
  }

  lemma OutKeepsQueue(u: Usb, i: Input)
    ensures var u' := AfterOut(u, i);
      && u'.queued == u.queued && u'.unlinked == u.unlinked && u'.convert == u.convert
      && Served(u'.answered) + u'.pending == Served(u.answered) + u.pending && u.answered <= u'.answered
  {
    var cid := CidOf(i.frame);
    hide Send, Served, Received, Append;
    if !IsCommand(i.frame) {
      if cid in u.cids && u.cids[cid].Some? {
        var live := u.cids[cid].value;
        var (cmd, unpacked) := Append(live.cmd, i.frame[5..], i.frame[4], i.answer);
        var u' := if unpacked then Store(u, cid, cmd) else u.(cids := u.cids[cid := Some(live.(cmd := cmd))]);
        SendMovesOne(u', cid, cid);
      }
    } else if HidCommand(i.frame) == 3 && cid in u.cids {
      SendMovesOne(Store(u, cid, Prepared(i.frame[4], |U2F_V2|, U2F_V2, true)), cid, cid);
    } else if HidCommand(i.frame) == 6 {
      var cmd := Prepared(i.frame[4], INIT_BCNT, UsbInitReply(i.frame[7..15], i.draw), true);
      SendMovesOne(Store(u, i.draw, cmd), i.draw, cid);
    } else if HidCommand(i.frame) == 16 && cid in u.cids {
      SendMovesOne(Store(u, cid, Received(i.frame[5..], i.frame[4], i.answer).0), cid, cid);
    }
  }

  lemma {:induction false} WithoutOneMore(s: seq<nat>, x: set<nat>, y: nat)
    requires y !in s
    ensures Without(s, x + {y}) == Without(s, x)
  {
    if s != [] {
      WithoutOneMore(s[..|s| - 1], x, y);
    }
  }

  /** Dropping one element of a sequence without repeats is removing it at its position. */
  lemma {:induction false} WithoutAt(s: seq<nat>, x: set<nat>, y: nat, k: nat)
    requires Distinct(s) && k < |Without(s, x)| && Without(s, x)[k] == y
    ensures Without(s, x + {y}) == Without(s, x)[..k] + Without(s, x)[k + 1..]
    ensures y in s
  {
    var last := |s| - 1;
    WithoutIn(s[..last], x);
    if s[last] == y {
      WithoutOneMore(s[..last], x, y);
    } else if k < |Without(s[..last], x)| {
      WithoutAt(s[..last], x, y, k);
      hide Distinct;
      if s[last] !in x {
        RemovedFromFront(Without(s[..last], x), s[last], k);
      }
    }
  }

  lemma RemovedFromFront(w: seq<nat>, z: nat, k: nat)
    requires k < |w|
    ensures (w + [z])[..k] + (w + [z])[k + 1..] == w[..k] + w[k + 1..] + [z]
  {
  }

  lemma {:induction false} WithoutIn(s: seq<nat>, x: set<nat>)
    ensures forall k | 0 <= k < |Without(s, x)| :: Without(s, x)[k] in s && Without(s, x)[k] !in x
  {
    if s != [] {
      WithoutIn(s[..|s| - 1], x);
    }
  }

  /** Conservation: over any run of polls with distinct sequence numbers, withdrawals and
      frames, the requests answered, in the order answered, followed by those waiting,
      are the requests queued, in the order queued, except those withdrawn. */
  lemma {:induction false} RequestsConserved(convert: bool, es: seq<Event>)
    requires Distinct(Polled(es))
    ensures var u := UsbRun(Empty(convert), es);
      && u.queued == Polled(es) && u.convert == convert
      && Served(u.answered) + u.pending == Without(u.queued, u.unlinked)
      && u.unlinked <= (set x | x in u.queued)
  {
    if es != [] {
      var was, e := es[..|es| - 1], es[|es| - 1];
      DistinctPrefix(Polled(was), Polled(es));
      RequestsConserved(convert, was);
      var u := UsbRun(Empty(convert), was);
      match e {
        case In(seqnum) => InConserves(u, seqnum);
        case Unlink(seqnum) => UnlinkConserves(u, seqnum);
        case Out(input) => OutKeepsQueue(u, input);
      }
    }
  }

  lemma DistinctPrefix(a: seq<nat>, b: seq<nat>)
    requires a <= b && Distinct(b)
    ensures Distinct(a)
  {
  }

  lemma InConserves(u: Usb, seqnum: nat)
    requires Distinct(u.queued + [seqnum]) && u.unlinked <= (set x | x in u.queued)
    requires Served(u.answered) + u.pending == Without(u.queued, u.unlinked)
    ensures var u' := AfterIn(u, seqnum);
      && u'.queued == u.queued + [seqnum] && u'.unlinked == u.unlinked && u'.convert == u.convert
      && Served(u'.answered) + u'.pending == Without(u'.queued, u'.unlinked)
  {
    var u1 := u.(pending := u.pending + [seqnum], queued := u.queued + [seqnum]);
    assert u1.queued[..|u.queued|] == u.queued && u1.queued[|u.queued|] == seqnum;
    assert seqnum !in u.queued;
    assert Served(u1.answered) + u1.pending == Without(u1.queued, u1.unlinked);
    hide Served, Without, Send;
    match FirstReady(u1, 0) {
      case Some(c) => SendMovesOne(u1, c, c);
      case None =>
    }
  }

  lemma UnlinkConserves(u: Usb, seqnum: nat)
    requires Distinct(u.queued) && u.unlinked <= (set x | x in u.queued)
    requires Served(u.answered) + u.pending == Without(u.queued, u.unlinked)
    ensures var u' := AfterUnlink(u, seqnum);
      && u'.queued == u.queued && u'.convert == u.convert && u'.unlinked <= (set x | x in u.queued)
      && Served(u'.answered) + u'.pending == Without(u'.queued, u'.unlinked)
  {
    hide Served, Without, Distinct;
    match LastIndex(u.pending, seqnum, |u.pending|) {
      case Some(k) =>
        var served := Served(u.answered);
        RemovedFromBack(served, u.pending, k);
        WithoutAt(u.queued, u.unlinked, seqnum, |served| + k);
      case None =>
    }
  }

  lemma RemovedFromBack(a: seq<nat>, b: seq<nat>, k: nat)
    requires k < |b|
    ensures (a + b)[|a| + k] == b[k]
    ensures (a + b)[..|a| + k] + (a + b)[|a| + k + 1..] == a + (b[..k] + b[k + 1..])
  {
  }
}
