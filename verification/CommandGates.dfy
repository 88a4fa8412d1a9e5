/** The checks MakeCredential and GetAssertion make before they answer
    (soft_fido2/ctap/cborcmd.py). The handlers do not hold the session lock between
    reads, so the watchdog and other channels may act between any two of them: each
    read happens at its own point of the session history. */
module CommandGates {
  import opened Bytes
  import opened PasskeyDevice
  import opened SessionStore
  import opened SessionHistory

  const OK: byte := 0x00
  const MISSING_PARAMETER: byte := 0x14
  const OPERATION_DENIED: byte := 0x27
  const PIN_AUTH_INVALID: byte := 0x33
  const PUAT_REQUIRED: byte := 0x36
  const OTHER: byte := 0x7F

  /** A status byte, or an exception that leaves the handler without an answer. */
  datatype Answer = Status(code: byte) | Threw

  /** How the credential operation behind the gates ends: with a result, with an error
      code, with neither, or with an exception. */
  datatype Outcome = Produced | Failed(code: byte) | Nothing | OutcomeThrew

  /** The request after CBOR decoding; None when it does not decode. */
  datatype Request = Request(
    complete: bool,                 // every required member is present
    clientDataHash: seq<byte>,
    uv: bool,
    pinAuth: Option<seq<byte>>)     // pinUvAuthParam

  /** How much of the history has happened at each read, in program order. */
  datatype Reads = Reads(gate: nat, state: nat, token: nat, open: nat)

  predicate InOrder(r: Reads, h: History) {
    r.gate <= r.state <= r.token <= r.open <= |h|
  }

  function First16(s: seq<byte>): seq<byte> { s[..Min(16, |s|)] }

  predicate HasPinAuth(req: Request) {
    req.pinAuth.Some? && req.pinAuth.value != []
  }

  predicate IsVerified(s: Store, c: Cid) {
    c in s && s[c].upv == Some(Verified)
  }

  function Finish(out: Outcome): Answer {
    match out
    case Produced => Status(OK)
    case Failed(code) => Status(code)
    case Nothing => Status(OTHER)
    case OutcomeThrew => Threw
  }

  /** A non-empty pinUvAuthParam against the channel's token, which `hmac` refuses when
      there is none; `next` is the answer if it matches. */
  function CheckPinAuth(h: History, r: Reads, c: Cid, req: Request,
                        hmac: (seq<byte>, seq<byte>) -> seq<byte>, next: Answer): Answer
    requires InOrder(r, h) && HasPinAuth(req)
  {
    match Token(Replay(h[..r.token]), c)
    case None => Threw
    case Some(token) =>
      if req.pinAuth.value == First16(hmac(token, req.clientDataHash)) then next
      else if c in Replay(h[..r.open]) then Status(PIN_AUTH_INVALID)
      else Status(PUAT_REQUIRED)
  }

  function MakeCredential(h: History, r: Reads, c: Cid, request: Option<Request>,
                          hmac: (seq<byte>, seq<byte>) -> seq<byte>, out: Outcome): Answer
    requires InOrder(r, h)
  {
    if !HasUp(Replay(h[..r.gate]), c) then Status(OPERATION_DENIED)
    else if request.None? then Threw
    else
      var req := request.value;
      if !req.complete then Status(MISSING_PARAMETER)
      else if req.uv && !IsVerified(Replay(h[..r.state]), c) then Status(PUAT_REQUIRED)
      else if HasPinAuth(req) then CheckPinAuth(h, r, c, req, hmac, Finish(out))
      else Finish(out)
  }

  function GetAssertion(h: History, r: Reads, c: Cid, request: Option<Request>,
                        hmac: (seq<byte>, seq<byte>) -> seq<byte>, out: Outcome): Answer
    requires InOrder(r, h)
  {
    if !HasUp(Replay(h[..r.gate]), c) then Status(OPERATION_DENIED)
    else if request.None? then Threw
    else
      var req := request.value;
      if !req.complete then Status(MISSING_PARAMETER)
      else if req.uv && !HasPinAuth(req) then Status(PUAT_REQUIRED)
      else if HasPinAuth(req) then CheckPinAuth(h, r, c, req, hmac, Finish(out))
      else Finish(out)
  }

  /** The user's presence on `c` was established before the gate, with no eviction between. */
  predicate PresenceProved(h: History, r: Reads, c: Cid)
    requires InOrder(r, h)
  {
    Since(h[..r.gate], Establishes(c), Evicts(c))
  }

  /** The first 16 bytes of the MAC, or all of a shorter one. */
  predicate StartOfMac(auth: seq<byte>, mac: seq<byte>) {
    auth <= mac && |auth| == if |mac| < 16 then |mac| else 16
  }

  /** The pinUvAuthParam is the start of the MAC of the client data hash under the token that the latest
      PIN validation on `c` stored, with no eviction since. */
  ghost predicate TokenProved(h: History, r: Reads, c: Cid, req: Request, hmac: (seq<byte>, seq<byte>) -> seq<byte>)
    requires InOrder(r, h) && HasPinAuth(req)
  {
    exists u :: Since(h[..r.token], UnlocksWith(c, u), EvictsOrUnlocks(c))
             && StartOfMac(req.pinAuth.value, hmac(u.pinAuth, req.clientDataHash))
  }

  lemma TokenMatchesExactlyIfProved(h: History, r: Reads, c: Cid, req: Request,
                                    hmac: (seq<byte>, seq<byte>) -> seq<byte>, next: Answer)
    requires InOrder(r, h) && HasPinAuth(req) && next == Status(OK)
    ensures CheckPinAuth(h, r, c, req, hmac, next) == Status(OK) <==> TokenProved(h, r, c, req, hmac)
  {
    var s := Replay(h[..r.token]);
    forall u
      ensures (c in s && s[c].unlocked == Some(u)) <==> Since(h[..r.token], UnlocksWith(c, u), EvictsOrUnlocks(c))
    {
      UnlockedIsLatestPin(h[..r.token], c, u);
    }
    hide Since, ApplyAll;
    if c in s && s[c].unlocked.Some? {
      assert Since(h[..r.token], UnlocksWith(c, s[c].unlocked.value), EvictsOrUnlocks(c));
    }
  }

  /** MakeCredential succeeds exactly if the user's presence on that channel still counted
      at the gate, the request is complete, a demanded user verification was on record, a
      pinUvAuthParam that is present proves the channel's current token, and the
      credential was made. */
  lemma MakeCredentialOkExactly(h: History, r: Reads, c: Cid, request: Option<Request>,
                                hmac: (seq<byte>, seq<byte>) -> seq<byte>, out: Outcome)
    requires InOrder(r, h) && out != Failed(OK)
    ensures MakeCredential(h, r, c, request, hmac, out) == Status(OK)
       <==> PresenceProved(h, r, c) && request.Some? && request.value.complete
            && (request.value.uv ==> IsVerified(Replay(h[..r.state]), c))
            && (HasPinAuth(request.value) ==> TokenProved(h, r, c, request.value, hmac))
            && out.Produced?
  {
    PresenceIsEstablished(h[..r.gate], c);
    if request.Some? && HasPinAuth(request.value) {
      TokenMatchesExactlyIfProved(h, r, c, request.value, hmac, Status(OK));
    }
    hide Since, TokenProved, ApplyAll, HasUp;
  }

  /** GetAssertion succeeds under the same conditions, except that a demanded user
      verification always takes a pinUvAuthParam that proves the token. */
  lemma GetAssertionOkExactly(h: History, r: Reads, c: Cid, request: Option<Request>,
                              hmac: (seq<byte>, seq<byte>) -> seq<byte>, out: Outcome)
    requires InOrder(r, h) && out != Failed(OK)
    ensures GetAssertion(h, r, c, request, hmac, out) == Status(OK)
       <==> PresenceProved(h, r, c) && request.Some? && request.value.complete
            && (request.value.uv ==> HasPinAuth(request.value))
            && (HasPinAuth(request.value) ==> TokenProved(h, r, c, request.value, hmac))
            && out.Produced?
  {
    PresenceIsEstablished(h[..r.gate], c);
    if request.Some? && HasPinAuth(request.value) {
      TokenMatchesExactlyIfProved(h, r, c, request.value, hmac, Status(OK));
    }
    hide Since, TokenProved, ApplyAll, HasUp;
  }

  // ---- Which answer it is otherwise ----

  /** A PIN validation on `c` stored a token, with no eviction since. */
  ghost predicate HasToken(h: History, c: Cid) {
    exists u :: Since(h, UnlocksWith(c, u), EvictsOrUnlocks(c))
  }

  /** A demanded verification was on record at its read. */
  predicate VerificationProved(h: History, r: Reads, c: Cid)
    requires InOrder(r, h)
  {
    Since(h[..r.state], Verifies(c), EvictsOrDowngrades(c))
  }

  /** What follows once presence, the parameters and verification have passed. */
  ghost predicate AnswersPinAuth(h: History, r: Reads, c: Cid, req: Request,
                                 hmac: (seq<byte>, seq<byte>) -> seq<byte>, out: Outcome, a: Answer)
    requires InOrder(r, h)
  {
    if req.pinAuth.None? || req.pinAuth == Some([]) || TokenProved(h, r, c, req, hmac) then
      && (out.Produced? ==> a == Status(0x00)) && (out.Failed? ==> a == Status(out.code))
      && (out.Nothing? ==> a == Status(0x7F)) && (out.OutcomeThrew? ==> a == Threw)
    else if !HasToken(h[..r.token], c) then a == Threw
    else a == Status(if Since(h[..r.open], OpensSession(c), Evicts(c)) then 0x33 else 0x36)
  }

  lemma TokenIsThere(h: History, c: Cid)
    ensures HasToken(h, c) <==> Token(Replay(h), c).Some?
  {
    var s := Replay(h);
    forall u
      ensures (c in s && s[c].unlocked == Some(u)) <==> Since(h, UnlocksWith(c, u), EvictsOrUnlocks(c))
    {
      UnlockedIsLatestPin(h, c, u);
    }
    hide Since, ApplyAll;
    if c in s && s[c].unlocked.Some? {
      assert Since(h, UnlocksWith(c, s[c].unlocked.value), EvictsOrUnlocks(c));
    }
  }

  lemma PinAuthAnswers(h: History, r: Reads, c: Cid, req: Request,
                       hmac: (seq<byte>, seq<byte>) -> seq<byte>, out: Outcome)
    requires InOrder(r, h)
    ensures AnswersPinAuth(h, r, c, req, hmac, out,
                           if HasPinAuth(req) then CheckPinAuth(h, r, c, req, hmac, Finish(out)) else Finish(out))
  {
    if HasPinAuth(req) {
      TokenMatchesExactlyIfProved(h, r, c, req, hmac, Status(OK));
      TokenIsThere(h[..r.token], c);
      SessionIsOpen(h[..r.open], c);
    }
    hide Since, TokenProved, HasToken, ApplyAll;
  }

  /** MakeCredential's answers, in the order of its checks: 0x27 without presence, an
      exception for a request that does not decode, 0x14 for an incomplete one, 0x36 if
      verification is demanded and not on record; then an exception if a pinUvAuthParam
      meets no token, 0x33 if it does not prove the token, or 0x36 if by then the session
      is gone; and last the outcome of the credential operation. */
  lemma MakeCredentialAnswers(h: History, r: Reads, c: Cid, request: Option<Request>,
                              hmac: (seq<byte>, seq<byte>) -> seq<byte>, out: Outcome)
    requires InOrder(r, h)
    ensures
      var a := MakeCredential(h, r, c, request, hmac, out);
      if !PresenceProved(h, r, c) then a == Status(0x27)
      else if request.None? then a == Threw
      else if !request.value.complete then a == Status(0x14)
      else if request.value.uv && !VerificationProved(h, r, c) then a == Status(0x36)
      else AnswersPinAuth(h, r, c, request.value, hmac, out, a)
  {
    PresenceIsEstablished(h[..r.gate], c);
    VerifiedIsLatest(h[..r.state], c);
    if request.Some? {
      PinAuthAnswers(h, r, c, request.value, hmac, out);
    }
    hide Since, AnswersPinAuth, CheckPinAuth, ApplyAll, HasUp;
  }

  /** GetAssertion's: the same, but for a verification demanded without a pinUvAuthParam. */
  lemma GetAssertionAnswers(h: History, r: Reads, c: Cid, request: Option<Request>,
                            hmac: (seq<byte>, seq<byte>) -> seq<byte>, out: Outcome)
    requires InOrder(r, h)
    ensures
      var a := GetAssertion(h, r, c, request, hmac, out);
      if !PresenceProved(h, r, c) then a == Status(0x27)
      else if request.None? then a == Threw
      else if !request.value.complete then a == Status(0x14)
      else if request.value.uv && (request.value.pinAuth.None? || request.value.pinAuth == Some([])) then
        a == Status(0x36)
      else AnswersPinAuth(h, r, c, request.value, hmac, out, a)
  {
    PresenceIsEstablished(h[..r.gate], c);
    if request.Some? {
      PinAuthAnswers(h, r, c, request.value, hmac, out);
    }
    hide Since, AnswersPinAuth, CheckPinAuth, ApplyAll, HasUp;
  }

  /** Every caller caches presence as "verified", so the user verification MakeCredential
      demands is no more than presence that still counts. */
  lemma {:induction false} VerificationIsPresence(h: History, c: Cid)
    requires forall j | 0 <= j < |h| && h[j].CacheUp? :: h[j].state == Verified
    ensures IsVerified(Replay(h), c) <==> Since(h, Establishes(c), Evicts(c))
  {
    if h != [] {
      VerificationIsPresence(h[..|h| - 1], c);
      SinceStep(h, Establishes(c), Evicts(c));
      hide Since;
    }
  }
}
