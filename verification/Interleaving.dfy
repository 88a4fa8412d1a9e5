/** A message on one channel, in the middle of whatever happens on the others. */
module Interleaving {
  import opened Bytes
  import opened CborCommands
  import opened PasskeyDevice
  import opened Reassembly
  import opened Deliveries
  import opened Channels

  /** The frames of channel `cid` among `ins` are the sender's frames of `m`, those numbered
      in `order`. */
  predicate Carries(cid: Cid, m: seq<byte>, order: seq<nat>, ins: seq<Input>)
    requires 0 < |m| <= MAX_MESSAGE
  {
    var own, sent := OwnFrames(ins, cid), Sent(cid, CTAPHID_CBOR, |m|, m);
    |order| == |own| && forall x | 0 <= x < |order| :: order[x] < |sent| && own[x].frame == sent[order[x]]
  }

  lemma {:induction false} RequestsJoin(log: seq<Unpacked>, cid: Cid, m: seq<byte>, n: nat)
    requires m != []
    ensures RequestsOn(log + Requests(cid, m, n), cid) == RequestsOn(log, cid) + Requests(cid, m, n)
  {
    hide RequestsOn, Padded;
    if n == 0 {
      assert log + Requests(cid, m, 0) == log;
    } else {
      RequestsJoin(log, cid, m, n - 1);
      var u := Unpacked(cid, m[0], Padded(m)[1..]);
      assert log + Requests(cid, m, n) == (log + Requests(cid, m, n - 1)) + [u];
      OneMoreRequest(log + Requests(cid, m, n - 1), u, cid);
    }
  }

  /** Sender and receiver together, in the presence of other channels: however the frames
      of the message, in any order and each any number of times, are interleaved with frames
      of any other channels, the handler gets the request on this channel as often as
      without them. The others' INITs must not re-draw the channel while it is in use. */
  lemma SendThenReceiveAmongOthers(d: Device, cid: Cid, m: seq<byte>, order: seq<nat>, ins: seq<Input>)
    requires IsIdle(d, cid) && 0 < |m| <= MAX_MESSAGE
    requires Carries(cid, m, order, ins) && DrawnWhenIdle(d, ins, cid)
    ensures Padded(m)[1..][..|m| - 1] == m[1..]
    ensures
      var o := if m[0] in KNOWN_COMMANDS then Deliver(m, order) else Outcome(0, false);
      && RequestsOn(Run(d, ins).unpacked, cid) == RequestsOn(d.unpacked, cid) + Requests(cid, m, o.runs)
      && cid in Run(d, ins).cids && (Run(d, ins).cids[cid].Some? <==> o.waiting)
  {
    hide Run, RequestsOn, FramesOn, Padded, Sent, DrawnWhenIdle, Deliver, Requests;
    OwnFramesSuffice(d, ins, cid);
    SendThenReceive(d, cid, m, order, OwnFrames(ins, cid));
    RequestsJoin(d.unpacked, cid, m, if m[0] in KNOWN_COMMANDS then Deliver(m, order).runs else 0);
  }
}
