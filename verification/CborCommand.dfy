/** One CTAPHID message in transit (soft_fido2/ctap/cborcmd.py): the class
    CborCommand updates its fields in place; the datatype Command is its value,
    and the functions on it say what each method must compute. */
module CborCommands {
  import opened Bytes

  const MAX_DATA_FRAME: nat := 64
  const INIT_DATA: nat := 57  // payload of an initialization frame
  const CONT_DATA: nat := 59  // payload of a continuation frame

  /** The members of the CommandByte enumeration; any other byte raises ValueError. */
  const KNOWN_COMMANDS: set<byte> := {0x01, 0x02, 0x04, 0x06, 0x07, 0x09, 0x0B, 0x0D}
  /** The commands `unpack` has a handler for; the others go to `_error`. */
  const HANDLED_COMMANDS: set<byte> := {0x01, 0x02, 0x04, 0x06, 0x0B}
  const ERR_INVALID_COMMAND: byte := 0x01

  datatype Command = Command(
    cmd: Option<byte>,               // None: created without a request frame
    length: int,
    request: seq<byte>,
    requestSegment: nat,
    buffer: map<nat, seq<byte>>,
    response: seq<byte>,
    listed: bool,                    // the response is a Python list, not `bytes`
    responseSegment: nat,
    ctaphidCmd: byte,
    bcnt: nat,
    ready: bool)

  /** A command created with `skip_init`, its response set by the caller. */
  function Prepared(ctaphidCmd: byte, bcnt: nat, response: seq<byte>, listed: bool): Command {
    Command(None, 0, [], 0, map[], response, listed, 0, ctaphidCmd, bcnt, false)
  }

  /** The response `unpack` sets and its byte count. `answer` is what the command
      handler returns for this request: handlers are total and always set one. Every
      handler, and `_error`, makes it a list. */
  function Reply(cmd: Option<byte>, answer: seq<byte>): (seq<byte>, nat) {
    if cmd.Some? && cmd.value in HANDLED_COMMANDS then (answer, |answer|) else ([ERR_INVALID_COMMAND], 0)
  }

  function Unpack(c: Command, answer: seq<byte>): Command {
    var (response, bcnt) := Reply(c.cmd, answer);
    c.(response := response, listed := true, bcnt := bcnt, ready := true)
  }

  /** Takes buffered segments for as long as the next expected one is there. */
  function Drain(request: seq<byte>, next: nat, buffer: map<nat, seq<byte>>)
    : (seq<byte>, nat, map<nat, seq<byte>>)
    decreases |buffer|
  {
    if next in buffer then
      var rest := buffer - {next};
      assert |rest| < |buffer| by { assert rest.Keys == buffer.Keys - {next}; assert |rest.Keys| == |rest|; }
      Drain(request + buffer[next], next + 1, rest)
    else (request, next, buffer)
  }

  /** What `append_segment` leaves, and whether it ran `unpack`. */
  function Append(c: Command, segment: seq<byte>, seqNum: nat, answer: seq<byte>): (Command, bool) {
    if seqNum == c.requestSegment then
      var (request, next, buffer) := Drain(c.request + segment, c.requestSegment + 1, c.buffer);
      var grown := c.(request := request, requestSegment := next, buffer := buffer);
      if |request| >= c.length then (Unpack(grown, answer), true) else (grown, false)
    else if seqNum > c.requestSegment then
      (c.(buffer := c.buffer[seqNum := segment]), false)
    else (c, false)
  }

  /** The command made from the 59 bytes after the CTAPHID command byte of an
      initialization frame: byte count, command byte and 56 request bytes. */
  function Received(ba: seq<byte>, ctaphidCmd: byte, answer: seq<byte>): (Command, bool)
    requires |ba| == CONT_DATA
  {
    var created := Command(Some(ba[2]), FromBE(ba[..2]) - 1, ba[3..], 0, map[], [], true, 0, ctaphidCmd, 0, false);
    if created.length >= |created.request| then (created, false) else (Unpack(created, answer), true)
  }

  /** What `get_rsp_seg` leaves behind: a slice of the response, or an empty list. */
  function Taken(c: Command, numBytes: nat): Command {
    c.(responseSegment := c.responseSegment + 1,
       listed := c.listed || numBytes >= |c.response|,
       response := if numBytes >= |c.response| then [] else c.response[numBytes..])
  }

  class CborCommand {
    var cmd: Option<byte>
    var length: int
    var request: seq<byte>
    var requestSegment: nat
    var sequenceBuffer: map<nat, seq<byte>>
    var response: seq<byte>
    var listed: bool
    var responseSegment: nat
    var ctaphidCmd: byte
    var bcnt: nat
    var responseReady: bool

    function View(): Command
      reads this
    {
      Command(cmd, length, request, requestSegment, sequenceBuffer,
              response, listed, responseSegment, ctaphidCmd, bcnt, responseReady)
    }

    constructor Prepare(hidCmd: byte, count: nat, rsp: seq<byte>, listed: bool)
      ensures View() == Prepared(hidCmd, count, rsp, listed)
    {
      cmd, length, request, requestSegment, sequenceBuffer := None, 0, [], 0, map[];
      response, this.listed, responseSegment := rsp, listed, 0;
      ctaphidCmd, bcnt, responseReady := hidCmd, count, false;
    }

    /** The precondition is the enumeration lookup, which raises ValueError where it fails. */
    constructor FromFrame(ba: seq<byte>, hidCmd: byte, answer: seq<byte>)
      requires |ba| == CONT_DATA && ba[2] in KNOWN_COMMANDS
      ensures View() == Received(ba, hidCmd, answer).0
    {
      length := FromBE(ba[..2]) - 1;
      request := ba[3..];
      responseSegment, requestSegment, sequenceBuffer := 0, 0, map[];
      response, listed := [], true;
      ctaphidCmd := hidCmd;
      cmd := Some(ba[2]);
      bcnt, responseReady := 0, false;
      new;
      if length < |request| {
        UnpackRequest(answer);
      }
    }

    method UnpackRequest(answer: seq<byte>)
      modifies this
      ensures View() == Unpack(old(View()), answer)
    {
      if cmd.Some? && cmd.value in HANDLED_COMMANDS {
        response, bcnt := answer, |answer|;
      } else {
        response, bcnt := [ERR_INVALID_COMMAND], 0;
      }
      listed, responseReady := true, true;
    }

    method AppendSegment(segment: seq<byte>, seqNum: nat, answer: seq<byte>) returns (unpacked: bool)
      modifies this
      ensures (View(), unpacked) == Append(old(View()), segment, seqNum, answer)
    {
      hide Unpack;
      unpacked := false;
      if seqNum == requestSegment {
        requestSegment := requestSegment + 1;
        request := request + segment;
        while requestSegment in sequenceBuffer
          invariant Drain(request, requestSegment, sequenceBuffer)
                    == Drain(old(request) + segment, old(requestSegment) + 1, old(sequenceBuffer))
          invariant View()
                    == old(View()).(request := request, requestSegment := requestSegment, buffer := sequenceBuffer)
          decreases |sequenceBuffer|
        {
          var buffered := sequenceBuffer[requestSegment];
          ghost var before := sequenceBuffer;
          sequenceBuffer := sequenceBuffer - {requestSegment};
          assert sequenceBuffer.Keys == before.Keys - {requestSegment};
          assert |sequenceBuffer.Keys| == |sequenceBuffer| && |before.Keys| == |before|;
          requestSegment := requestSegment + 1;
          request := request + buffered;
        }
      } else if seqNum > requestSegment {
        sequenceBuffer := sequenceBuffer[seqNum := segment];
        return;
      } else {
        return;
      }
      if |request| >= length {
        UnpackRequest(answer);
        unpacked := true;
      }
    }

    method GetRspSeg(numBytes: nat) returns (seg: seq<byte>, segNum: nat)
      modifies this
      ensures View() == Taken(old(View()), numBytes)
      ensures seg == old(response)[..Min(numBytes, |old(response)|)]
      ensures seg + response == old(response)
      ensures segNum == if old(responseSegment) == 0 then 0 else old(responseSegment) - 1
    {
      responseSegment := responseSegment + 1;
      segNum := if responseSegment >= 2 then responseSegment - 2 else 0;
      seg := response;
      if numBytes >= |response| {
        response, listed := [], true;
      } else {
        seg := response[..numBytes];
        response := response[numBytes..];
      }
    }
  }
}
