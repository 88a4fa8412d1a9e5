/** What the host reads from the USB/IP device: response data in order, when segments
    can be packed at all; and the device as an object with its queue and dictionary. */
module UsbIpResponses {
  import opened Bytes
  import opened CborCommands
  import opened PasskeyDevice
  import opened UsbIpDevice
  import Packet

  /** The bytes of response `g` sent so far. */
  function DataOf(answered: seq<Answer>, g: nat): seq<byte> {
    if answered == [] then []
    else
      var rest, a := DataOf(answered[..|answered| - 1], g), answered[|answered| - 1];
      if a.response == g then rest + a.data else rest
  }

  lemma DataOneMore(answered: seq<Answer>, a: Answer, g: nat)
    ensures DataOf(answered + [a], g) == DataOf(answered, g) + if a.response == g then a.data else []
  {
    assert (answered + [a])[..|answered|] == answered;
  }

  /** What can be sent of a response: all of it, or, if its first frame would need a byte
      count wider than 16 bits, what follows the lost first segment. */
  function Due(r: Stored): seq<byte> {
    if r.segment > 0 || r.bcnt < 0x10000 then r.data else r.data[Min(INIT_DATA, |r.data|)..]
  }

  /** Segments of the command reach `struct.pack` as `bytes`. */
  predicate Packable(u: Usb, cmd: Command) { u.convert || !cmd.listed }

  /** A stored command's response is its own, and while segments are `bytes` and sequence
      numbers last, what was sent of it and what is left of it join to what is due. */
  predicate Accounts(u: Usb, c: Cid)
    requires c in u.cids && u.cids[c].Some?
  {
    var live := u.cids[c].value;
    && live.response < |u.responses|
    && (forall e | e in u.cids && u.cids[e].Some? && e != c :: u.cids[e].value.response != live.response)
    && InStep(u.responses[live.response], live.cmd, Packable(u, live.cmd), DataOf(u.answered, live.response))
  }

  predicate InStep(r: Stored, cmd: Command, packable: bool, sent: seq<byte>) {
    && cmd.bcnt == r.bcnt
    && (packable && cmd.responseSegment == 0 ==> r.segment == 0 && sent == [] && cmd.response == r.data)
    && (packable && 0 < cmd.responseSegment <= 256 ==> sent + cmd.response == Due(r))
  }

  ghost predicate Sound(u: Usb) {
    && (forall c | c in u.cids && u.cids[c].Some? :: Accounts(u, c))
    && (forall g | 0 <= g < |u.responses| :: DataOf(u.answered, g) <= Due(u.responses[g]))
    && (forall g: nat | g >= |u.responses| :: DataOf(u.answered, g) == [])
  }

  lemma StoreSound(u: Usb, cid: Cid, cmd: Command)
    requires Sound(u)
    ensures Sound(Store(u, cid, cmd))
  {
    assert DataOf(u.answered, |u.responses|) == [];
    assert [] + cmd.response == cmd.response;
    hide DataOf;
    var u' := Store(u, cid, cmd);
    forall c | c in u'.cids && u'.cids[c].Some?
      ensures Accounts(u', c)
    {
      assert c == cid || Accounts(u, c);
    }
  }

  lemma LosingKeepsStep(r: Stored, cmd: Command, convert: bool, sent: seq<byte>)
    requires InStep(r, cmd, convert || !cmd.listed, sent)
    requires !((convert || !cmd.listed) && SegmentPacks(cmd))
    ensures var taken := Taken(cmd, SegmentSize(cmd)); InStep(r, taken, convert || !taken.listed, sent)
  {
    var taken := Taken(cmd, SegmentSize(cmd));
    if (convert || !taken.listed) && cmd.responseSegment == 0 {
      assert sent + taken.response == taken.response;
      assert taken.response == r.data[Min(INIT_DATA, |r.data|)..];
    }
  }

  lemma SendingKeepsStep(r: Stored, cmd: Command, convert: bool, sent: seq<byte>)
    requires InStep(r, cmd, convert || !cmd.listed, sent)
    requires (convert || !cmd.listed) && SegmentPacks(cmd)
    ensures
      var data := SegmentValue(convert, cmd).b;
      var taken := Taken(cmd, SegmentSize(cmd));
      InStep(r, taken, convert || !taken.listed, sent + data) && sent + data <= Due(r)
  {
    var data, taken := SegmentValue(convert, cmd).b, Taken(cmd, SegmentSize(cmd));
    assert data + taken.response == cmd.response;
    assert (sent + data) + taken.response == sent + (data + taken.response);
    assert [] + cmd.response == cmd.response;
  }

  lemma LostSegmentSound(u: Usb, owner: Cid, cid: Cid)
    requires Sound(u) && owner in u.cids && u.cids[owner].Some?
    requires PackSegment(u.convert, cid, u.cids[owner].value.cmd).Raised?
    ensures Sound(Send(u, owner, cid))
  {
    var u', live := Send(u, owner, cid), u.cids[owner].value;
    hide DataOf, PackSegment;
    PacksExactly(u.convert, cid, live.cmd);
    assert Accounts(u, owner);
    LosingKeepsStep(u.responses[live.response], live.cmd, u.convert, DataOf(u.answered, live.response));
    hide InStep, Taken, SegmentPacks;
    forall c | c in u'.cids && u'.cids[c].Some?
      ensures Accounts(u', c)
    {
      assert Accounts(u, c);
    }
  }

  /** One more answer, with the next bytes of the response stored under `owner`. */
  lemma AnswerSound(u: Usb, u': Usb, owner: Cid, a: Answer, rest: Command)
    requires Sound(u) && owner in u.cids && u.cids[owner].Some?
    requires var live := u.cids[owner].value;
      && a.response == live.response && live.response < |u.responses|
      && InStep(u.responses[live.response], rest, Packable(u, rest), DataOf(u.answered, live.response) + a.data)
      && DataOf(u.answered, live.response) + a.data <= Due(u.responses[live.response])
      && u'.responses == u.responses && u'.convert == u.convert && u'.answered == u.answered + [a]
      && u'.cids.Keys == u.cids.Keys
      && (forall c | c in u.cids && u'.cids[c].Some? ::
            u.cids[c].Some? && u'.cids[c] == if c == owner then Some(live.(cmd := rest)) else u.cids[c])
    ensures Sound(u')
  {
    var live := u.cids[owner].value;
    assert Accounts(u, owner);
    forall g: nat
      ensures DataOf(u'.answered, g) == DataOf(u.answered, g) + if a.response == g then a.data else []
    {
      DataOneMore(u.answered, a, g);
    }
    hide DataOf, InStep, Due;
    forall c | c in u'.cids && u'.cids[c].Some?
      ensures Accounts(u', c)
    {
      assert Accounts(u, c);
    }
  }

  lemma SendSound(u: Usb, owner: Cid, cid: Cid)
    requires Sound(u) && owner in u.cids && u.cids[owner].Some?
    ensures Sound(Send(u, owner, cid))
  {
    var live := u.cids[owner].value;
    var packed := PackSegment(u.convert, cid, live.cmd);
    if packed.Raised? {
      LostSegmentSound(u, owner, cid);
    } else if u.pending != [] {
      assert Accounts(u, owner);
      hide Sound, DataOf, PackSegment, InStep, SegmentValue, Due;
      PacksExactly(u.convert, cid, live.cmd);
      SendingKeepsStep(u.responses[live.response], live.cmd, u.convert, DataOf(u.answered, live.response));
      hide Accounts, SegmentPacks;
      var a := Answer(u.pending[0], live.response, Filled(packed.value), SegmentValue(u.convert, live.cmd).b);
      hide Filled;
      AnswerSound(u, Send(u, owner, cid), owner, a, Taken(live.cmd, SegmentSize(live.cmd)));
    }
  }

  lemma SameCommandSound(u: Usb, cid: Cid, cmd: Command)
    requires Sound(u) && cid in u.cids && u.cids[cid].Some?
    requires var was := u.cids[cid].value.cmd;
             && cmd.response == was.response && cmd.responseSegment == was.responseSegment
             && cmd.bcnt == was.bcnt && cmd.listed == was.listed
    ensures Sound(u.(cids := u.cids[cid := Some(u.cids[cid].value.(cmd := cmd))]))
  {
    hide DataOf;
    var u' := u.(cids := u.cids[cid := Some(u.cids[cid].value.(cmd := cmd))]);
    forall c | c in u'.cids && u'.cids[c].Some?
      ensures Accounts(u', c)
    {
      assert Accounts(u, c);
    }
  }

  lemma ContinuationSound(u: Usb, i: Input)
    requires Sound(u)
    ensures Sound(AfterContinuation(u, i))
  {
    hide Sound, Send, Drain, Store;
    var cid := CidOf(i.frame);
    if cid in u.cids && u.cids[cid].Some? {
      var live := u.cids[cid].value;
      var (cmd, unpacked) := Append(live.cmd, i.frame[5..], i.frame[4], i.answer);
      if unpacked {
        StoreSound(u, cid, cmd);
        StoredThere(u, cid, cmd);
        if cmd.ready { SendSound(Store(u, cid, cmd), cid, cid); }
      } else {
        SameCommandSound(u, cid, cmd);
        if cmd.ready { SendSound(u.(cids := u.cids[cid := Some(live.(cmd := cmd))]), cid, cid); }
      }
    }
  }

  lemma StoredThere(u: Usb, cid: Cid, cmd: Command)
    ensures cid in Store(u, cid, cmd).cids && Store(u, cid, cmd).cids[cid] == Some(Live(cmd, |u.responses|))
  {
  }

  lemma OutSound(u: Usb, i: Input)
    requires Sound(u)
    ensures Sound(AfterOut(u, i))
  {
    var cid := CidOf(i.frame);
    hide Send, Sound, Received, Append;
    if !IsCommand(i.frame) {
      ContinuationSound(u, i);
    } else if HidCommand(i.frame) == 3 && cid in u.cids {
      var cmd := Prepared(i.frame[4], |U2F_V2|, U2F_V2, true);
      StoreSound(u, cid, cmd);
      SendSound(Store(u, cid, cmd), cid, cid);
    } else if HidCommand(i.frame) == 6 {
      var cmd := Prepared(i.frame[4], INIT_BCNT, UsbInitReply(i.frame[7..15], i.draw), true);
      StoreSound(u, i.draw, cmd);
      SendSound(Store(u, i.draw, cmd), i.draw, cid);
    } else if HidCommand(i.frame) == 16 && cid in u.cids {
      var cmd := Received(i.frame[5..], i.frame[4], i.answer).0;
      StoreSound(u, cid, cmd);
      SendSound(Store(u, cid, cmd), cid, cid);
    }
  }

  lemma InSound(u: Usb, seqnum: nat)
    requires Sound(u)
    ensures Sound(AfterIn(u, seqnum))
  {
    var u1 := u.(pending := u.pending + [seqnum], queued := u.queued + [seqnum]);
    assert Sound(u1) by {
      hide DataOf;
      forall c | c in u1.cids && u1.cids[c].Some?
        ensures Accounts(u1, c)
      {
        assert Accounts(u, c);
      }
    }
    hide Sound, Send;
    match FirstReady(u1, 0) {
      case Some(c) => SendSound(u1, c, c);
      case None =>
    }
  }

  lemma UnlinkSound(u: Usb, seqnum: nat)
    requires Sound(u)
    ensures Sound(AfterUnlink(u, seqnum))
  {
    hide DataOf;
    var u1 := AfterUnlink(u, seqnum);
    forall c | c in u1.cids && u1.cids[c].Some?
      ensures Accounts(u1, c)
    {
      assert Accounts(u, c);
    }
  }

  lemma {:induction false} RunSound(convert: bool, es: seq<Event>)
    ensures Sound(UsbRun(Empty(convert), es))
  {
    if es != [] {
      var u, e := UsbRun(Empty(convert), es[..|es| - 1]), es[|es| - 1];
      RunSound(convert, es[..|es| - 1]);
      hide Sound;
      match e {
        case In(seqnum) => InSound(u, seqnum);
        case Unlink(seqnum) => UnlinkSound(u, seqnum);
        case Out(input) => OutSound(u, input);
      }
    }
  }

  /** Over any run, what has been sent of each response is a prefix of it, unless its byte
      count was too wide for the first frame: then it is a prefix of what follows the
      first 57 bytes. */
  lemma SentIsPrefix(convert: bool, es: seq<Event>, g: nat)
    requires g < |UsbRun(Empty(convert), es).responses|
    ensures
      var u := UsbRun(Empty(convert), es);
      var r := u.responses[g];
      DataOf(u.answered, g) <= if r.segment > 0 || r.bcnt < 0x10000 then r.data else r.data[Min(INIT_DATA, |r.data|)..]
  {
    RunSound(convert, es);
  }

  /** With an IN request waiting, one is answered if and only if the stored response is
      `bytes`, or converted, and its header packs: with the frame the UHID device would
      send. A segment is taken off the response either way. */
  lemma SegmentTakenWithRequest(u: Usb, owner: Cid, cid: Cid)
    requires owner in u.cids && u.cids[owner].Some? && u.pending != [] && u.cids[owner].value.cmd.response != []
    ensures
      var u', was := Send(u, owner, cid), u.cids[owner].value;
      var sends := (u.convert || !was.cmd.listed) && SegmentPacks(was.cmd);
      && u'.pending == (if sends then u.pending[1..] else u.pending)
      && (u'.answered != u.answered <==> sends)
      && (sends ==> |u'.answered| == |u.answered| + 1
                    && u'.answered[|u.answered|].seqnum == u.pending[0]
                    && u'.answered[|u.answered|].frame == SegmentFrame(cid, was.cmd)
                    && u'.answered[|u.answered|].data + Taken(was.cmd, SegmentSize(was.cmd)).response
                       == was.cmd.response)
      && (u'.cids[owner].Some? ==> |u'.cids[owner].value.cmd.response| < |was.cmd.response|)
  {
    PacksExactly(u.convert, cid, u.cids[owner].value.cmd);
    hide PackSegment, SegmentFrame, SegmentPacks, Filled;
  }

  // ---- The device as written ----

  /** Every stored response is a Python list. */
  predicate AllListed(u: Usb) {
    forall c | c in u.cids && u.cids[c].Some? :: u.cids[c].value.cmd.listed
  }

  /** Nothing is sent, from `u` to `u'`, unless segments are converted. */
  predicate Silent(u: Usb, u': Usb) {
    AllListed(u') && u'.convert == u.convert && (!u.convert ==> u'.answered == u.answered)
  }

  lemma SendOfList(u: Usb, owner: Cid, cid: Cid)
    requires AllListed(u) && owner in u.cids && u.cids[owner].Some?
    ensures Silent(u, Send(u, owner, cid))
  {
    hide PackSegment, SegmentValue, Filled;
    if !u.convert {
      ListRefused(cid, u.cids[owner].value.cmd);
    }
  }

  lemma StoreOfList(u: Usb, cid: Cid, cmd: Command)
    requires AllListed(u) && cmd.listed
    ensures Silent(u, Store(u, cid, cmd))
  {
  }

  lemma AppendLists(c: Command, segment: seq<byte>, seqNum: nat, answer: seq<byte>)
    requires c.listed
    ensures Append(c, segment, seqNum, answer).0.listed
  {
    hide Drain;
  }

  lemma ReceivedLists(ba: seq<byte>, ctaphidCmd: byte, answer: seq<byte>)
    requires |ba| == CONT_DATA
    ensures Received(ba, ctaphidCmd, answer).0.listed
  {
    hide FromBE;
  }

  lemma ContinuationSilent(u: Usb, i: Input)
    requires AllListed(u)
    ensures Silent(u, AfterContinuation(u, i))
  {
    hide Send, Append, Store;
    var cid := CidOf(i.frame);
    if cid in u.cids && u.cids[cid].Some? {
      var live := u.cids[cid].value;
      AppendLists(live.cmd, i.frame[5..], i.frame[4], i.answer);
      var (cmd, unpacked) := Append(live.cmd, i.frame[5..], i.frame[4], i.answer);
      if unpacked {
        StoreOfList(u, cid, cmd);
        StoredThere(u, cid, cmd);
        SendOfList(Store(u, cid, cmd), cid, cid);
      } else {
        SendOfList(u.(cids := u.cids[cid := Some(live.(cmd := cmd))]), cid, cid);
      }
    }
  }

  lemma OutSilent(u: Usb, i: Input)
    requires AllListed(u)
    ensures Silent(u, AfterOut(u, i))
  {
    hide Send, Received, AfterContinuation;
    var cid := CidOf(i.frame);
    if !IsCommand(i.frame) {
      ContinuationSilent(u, i);
    } else if HidCommand(i.frame) == 3 && cid in u.cids {
      SendOfList(Store(u, cid, Prepared(i.frame[4], |U2F_V2|, U2F_V2, true)), cid, cid);
    } else if HidCommand(i.frame) == 6 {
      var cmd := Prepared(i.frame[4], INIT_BCNT, UsbInitReply(i.frame[7..15], i.draw), true);
      SendOfList(Store(u, i.draw, cmd), i.draw, cid);
    } else if HidCommand(i.frame) == 16 && cid in u.cids {
      ReceivedLists(i.frame[5..], i.frame[4], i.answer);
      SendOfList(Store(u, cid, Received(i.frame[5..], i.frame[4], i.answer).0), cid, cid);
    }
  }

  /** In every run each stored response is a list, whichever writer stored it. */
  lemma {:induction false} ResponsesAreLists(convert: bool, es: seq<Event>)
    ensures AllListed(UsbRun(Empty(convert), es)) && UsbRun(Empty(convert), es).convert == convert
    ensures !convert ==> UsbRun(Empty(convert), es).answered == []
  {
    if es != [] {
      var u, e := UsbRun(Empty(convert), es[..|es| - 1]), es[|es| - 1];
      ResponsesAreLists(convert, es[..|es| - 1]);
      hide Send, AfterOut;
      match e {
        case In(seqnum) =>
          var u1 := u.(pending := u.pending + [seqnum], queued := u.queued + [seqnum]);
          var ready := FirstReady(u1, 0);
          if ready.Some? { SendOfList(u1, ready.value, ready.value); }
        case Unlink(seqnum) =>
        case Out(input) => OutSilent(u, input);
      }
    }
  }

  /** So the device as written, which does not convert them, never answers an IN request
      with a segment: every one waits until it is withdrawn. */
  lemma ListSegmentsAreNeverSent(es: seq<Event>)
    requires Distinct(Polled(es))
    ensures var u := UsbRun(Empty(false), es); u.answered == [] && u.pending == Without(Polled(es), u.unlinked)
  {
    ResponsesAreLists(false, es);
    RequestsConserved(false, es);
    var u := UsbRun(Empty(false), es);
    assert Served(u.answered) + u.pending == u.pending;
  }

  // ---- The device object ----

  class UsbIpHidDevice {
    const convert: bool
    var cids: map<Cid, Option<Live>>
    var order: seq<Cid>
    var pending: seq<nat>
    ghost var queued: seq<nat>
    ghost var unlinked: set<nat>
    ghost var answered: seq<Answer>
    var responses: seq<Stored>  // numbers the responses set, for the record `answered` keeps

    ghost function View(): Usb
      reads this
    {
      Usb(convert, cids, order, pending, queued, unlinked, answered, responses)
    }

    constructor (convert: bool)
      ensures View() == Empty(convert)
    {
      this.convert := convert;
      cids, order, pending := map[], [], [];
      queued, unlinked, answered, responses := [], {}, [], [];
    }

    method StoreCommand(cid: Cid, cmd: Command)
      modifies this
      ensures View() == Store(old(View()), cid, cmd)
    {
      if cid !in cids { order := order + [cid]; }
      cids := cids[cid := Some(Live(cmd, |responses|))];
      responses := responses + [Stored(cmd.response, cmd.bcnt, cmd.responseSegment)];
    }

    method BuildPacket(cid: Cid, cmd: Command) returns (packed: Result<seq<byte>>)
      ensures packed == PackSegment(convert, cid, cmd)
    {
      hide Packet.PackAll, FromBE;
      var data := SegmentValue(convert, cmd);
      var channel := Packet.Number(FromBE(cid));
      var packet: Packet.BaseStructure;
      if cmd.responseSegment == 0 {
        packet := new Packet.BaseStructure(true, Packet.InitFields(|data.b|),
                                           map["cid" := channel, "cmd" := Packet.Number(cmd.ctaphidCmd),
                                               "bcnt" := Packet.Number(cmd.bcnt), "data" := data]);
      } else {
        packet := new Packet.BaseStructure(true, Packet.SeqFields(|data.b|),
                                           map["cid" := channel,
                                               "seq" := Packet.Number(cmd.responseSegment - 1), "data" := data]);
      }
      packed := packet.Pack();
    }

    method SendResponseSegment(owner: Cid, cid: Cid)
      requires owner in cids && cids[owner].Some?
      modifies this
      ensures View() == Send(old(View()), owner, cid)
    {
      hide PackSegment, Filled;
      if |pending| == 0 { return; }
      var live := cids[owner].value;
      var size := if live.cmd.responseSegment == 0 then INIT_DATA else CONT_DATA;
      var data := SegmentValue(convert, live.cmd);
      var rest := Taken(live.cmd, size);
      cids := cids[owner := Some(live.(cmd := rest))];
      var packed := BuildPacket(cid, live.cmd);
      if packed.Raised? { return; }
      answered := answered + [Answer(pending[0], live.response, Filled(packed.value), data.b)];
      pending := pending[1..];
      if |rest.response| == 0 && cid != BROADCAST && cid in cids {
        cids := cids[cid := None];
      }
    }

    method HandleOutgoing(seqnum: nat)
      modifies this
      ensures View() == AfterIn(old(View()), seqnum)
    {
      pending := pending + [seqnum];
      queued := queued + [seqnum];
      var i := 0;
      while i < |order|
        invariant i <= |order|
        invariant View() == old(View()).(pending := old(pending) + [seqnum], queued := old(queued) + [seqnum])
        invariant FirstReady(View(), 0) == FirstReady(View(), i)
      {
        var cid := order[i];
        if cid in cids && cids[cid].Some? && cids[cid].value.cmd.ready {
          SendResponseSegment(cid, cid);
          return;
        }
        i := i + 1;
      }
    }

    method UnlinkRequest(seqnum: nat) returns (found: bool)
      modifies this
      ensures View() == AfterUnlink(old(View()), seqnum)
      ensures found <==> seqnum in old(pending)
    {
      var index: Option<nat> := None;
      for i := 0 to |pending|
        invariant View() == old(View())
        invariant index == LastIndex(pending, seqnum, i)
      {
        if pending[i] == seqnum { index := Some(i); }
      }
      if index.Some? {
        pending := pending[..index.value] + pending[index.value + 1..];
        unlinked := unlinked + {seqnum};
      }
      found := index.Some?;
    }

    method HandleIncomingSequence(i: Input)
      modifies this
      ensures View() == AfterContinuation(old(View()), i)
    {
      var cid := CidOf(i.frame);
      if cid !in cids || cids[cid].None? { return; }
      var live := cids[cid].value;
      var (cmd, unpacked) := Append(live.cmd, i.frame[5..], i.frame[4], i.answer);
      if unpacked {
        StoreCommand(cid, cmd);
      } else {
        cids := cids[cid := Some(live.(cmd := cmd))];
      }
      if cmd.ready { SendResponseSegment(cid, cid); }
    }

    method CtapHidCbor(i: Input)
      modifies this
      ensures View() == AfterCborOut(old(View()), i)
    {
      var cid := CidOf(i.frame);
      if i.frame[7] !in KNOWN_COMMANDS || cid !in cids { return; }
      var (cmd, ready) := Received(i.frame[5..], i.frame[4], i.answer);
      StoreCommand(cid, cmd);
      if cmd.ready { SendResponseSegment(cid, cid); }
    }

    method HandleIncoming(i: Input)
      modifies this
      ensures View() == AfterOut(old(View()), i)
    {
      var cid := CidOf(i.frame);
      if !IsCommand(i.frame) {
        HandleIncomingSequence(i);
      } else if HidCommand(i.frame) == 3 {
        if i.frame[7] == 0 && i.frame[8] == 3 && cid in cids {
          StoreCommand(cid, Prepared(i.frame[4], |U2F_V2|, U2F_V2, true));
          SendResponseSegment(cid, cid);
        }
      } else if HidCommand(i.frame) == 6 {
        StoreCommand(i.draw, Prepared(i.frame[4], INIT_BCNT, UsbInitReply(i.frame[7..15], i.draw), true));
        SendResponseSegment(i.draw, cid);
      } else if HidCommand(i.frame) == 16 {
        CtapHidCbor(i);
      }
    }
  }
}
