# Verification model of soft_fido2

A Dafny model of the core of soft_fido2, a software FIDO2 authenticator, and proofs about
it. `dafny verify dfyconfig.toml` checks everything.

The model follows the program in four parts. Where a function describes what a method
computes, a lemma also spells the result out from the inputs and events alone.

**CTAPHID transport.** `CborCommand` is one message in transit: it reassembles a request
from an initialization frame (57 data bytes) and continuation frames (59 each) that may
come in any order, and hands out its response segment by segment. `CtapHidDevice` (UHID)
and `UsbIpHidDevice` dispatch frames to channels. Each class is proved against functions
on its value (`Append`, `Step`, `UsbStep`, ...), and the theorems are about runs of those
functions: reassembly is confluent, sender and receiver undo each other even among other
channels' frames, a message delivered once is answered with exactly its handler's answer,
channels do not interfere, IN requests are conserved and withdrawn as the host asks, and
the keepalive thread never speaks after the response. `ConcurrentSends` takes the device's
threads apart and says when their frames keep the order of the one-step device.

**Authenticator session.** `AuthenticatorApi` holds the per-channel entries (presence,
key-agreement pair, PIN token, unlocked wallet). What the state says about the past is
proved over every history of its actions, then used to say exactly when MakeCredential and
GetAssertion succeed, and how long an entry lives under the polling watchdog.

**Credential wallet.** The `.passkey` and `.stash` files, the operations on them, and the
abstract wallet they stand for. Every run of operations on the files refines the same run
on the abstract wallets. Credential creation, exclusion and first-match selection are
proved on top of it, and `AuthenticatorRuns` puts sessions, wallets and the command gates
into one run. The cryptography is a record of functions (`Crypto.Primitives`), and
a theorem that needs laws of them names them in its precondition; `CryptoConsistent` shows
that the laws can hold together.

**Codecs.** The credential-id and token layouts, 32-bit limb integers, QR digits, the
tunnel-domain loop, and the interpreter of binary records.

Where the code does something other than its comments or its documentation promise, the
model follows the code, and a lemma says exactly when the promise holds:

- a message of exactly 57 bytes waits for a continuation frame that the sender never
  sends (`Deliveries.SendThenReceive`, `Reassembly.ExactFitWaitsForStrayFrame`);
- a message whose first frame is repeated may run its handler more than once
  (`Deliveries.OnceExactly`, `Deliveries.RepeatedMessageRunsTwice`);
- continuation frames that overtake the first frame are lost
  (`Reassembly.EarlyFramesAreLost`);
- the lock does not keep two responses on one channel apart: one that a continuation frame
  completes is sent after the lock is released
  (`ConcurrentSends.CompletedMessageOvertaken`);
- INIT can draw a channel in use, and the message in transit there is lost
  (`Channels.SurvivesExactlyIfNotDrawn`, `Channels.RedrawLosesMessage`);
- every response the USB/IP device stores is a list, and `struct.pack` refuses one, so no
  segment is ever sent (`UsbIpResponses.ResponsesAreLists`,
  `UsbIpResponses.ListSegmentsAreNeverSent`); the other USB/IP theorems cover the device
  with and without the conversion to `bytes` the UHID device makes;
- the watchdog compares the age for equality, so an entry it does not look at during its
  31st second stays (`Watchdog.RemovedExactlyInWindow`); it also runs only where
  `AuthenticatorAPI()` is constructed, in `soft_fido2/platform/usbip_device.py:663`;
- an eviction between a PIN's decapsulation and its acceptance leaves a key pair that is
  None (`SessionHistory.MissingPairIsRacedPin`, `SessionHistory.RacedPinLosesPair`);
- repeated indices delete the wrong credentials (`IndexDeletion.DeletesExactlyIfDistinct`);
- a PIN change interrupted between its two writes locks the PIN protocol out unless both
  hashes have the same second half (`PasskeyFile.InterruptedPinChange`), and a completed
  one makes a session on that wallet raise unless the hash it keeps is the new PIN's or its
  first half (`RegisterThenAssert.PinChangeStalesExactly`);
- a token of no data cannot be read back (`SymmetricKey.DecryptInvertsEncrypt`);
- a coordinate below 2^224 is encoded in fewer than 32 bytes
  (`Limbs.AgreesWithFixedForm`);
- packing and unpacking a record restores its attributes exactly if no value follows
  padding, no field is a character, and every number marked `<` reads the same with its
  bytes reversed (`Packet.UnpackAfterPack`, `Packet.RestoredExactly`, and
  `Packet.PaddingShiftsNames` for an example).

Every handler's answer is an input of the step that runs it: handlers are total, and may
answer anything. Times, random draws, key pairs, nonces and the results of fingerprint and
dialog are inputs too.

## Model

| member | source | states |
|---|---|---|
| `Bytes.FromToBE` | soft_fido2/authenticator/fido2.py:193 | a number that fits a width survives big-endian encoding in it |
| `Bytes.ToFromBE` | soft_fido2/authenticator/fido2.py:214 | every byte string is the big-endian encoding, in its own length, of its value |
| `Bytes.FromToLE` | soft_fido2/key_pair.py:683 | a number that fits a width survives little-endian encoding in it |
| `Bytes.ToFromLE` | soft_fido2/key_pair.py:616 | every byte string is the little-endian encoding, in its own length, of its value |
| `Bytes.BEDigit` | soft_fido2/key_pair.py:865 | byte i of a big-endian number of n bytes counts 256 to the power n - 1 - i |
| `Bytes.LEDigit` | soft_fido2/key_pair.py:683 | byte i of a little-endian number counts 256 to the power i |
| `CborCommands.CborCommand.FromFrame` | soft_fido2/ctap/cborcmd.py:45-81 | a new command holds the byte count less one, the command byte and 56 request bytes, and runs its handler at once exactly if that many bytes suffice by the code's test |
| `CborCommands.CborCommand.UnpackRequest` | soft_fido2/ctap/cborcmd.py:129-150 | the response becomes the handler's answer with its length, or for a command without a handler one error byte with byte count 0 |
| `CborCommands.CborCommand.AppendSegment` | soft_fido2/ctap/cborcmd.py:83-127 | the drain loop takes the expected segment and all buffered ones that follow it, buffers later ones, ignores earlier ones, and runs the handler when the length is reached |
| `CborCommands.CborCommand.GetRspSeg` | soft_fido2/ctap/cborcmd.py:152-170 | the segment handed out and the response left join to the response before; segments are numbered 0, 0, 1, 2, ... |
| `PasskeyDevice.CtapHidDevice.SendResponseSegment` | soft_fido2/platform/passkey_device.py:31-53 | one 64-byte frame with the next segment is queued, unless byte count or sequence number does not pack, when the segment is lost |
| `PasskeyDevice.CtapHidDevice.SendResponseSegments` | soft_fido2/platform/passkey_device.py:56-59 | the loop ends and queues exactly the frames that cut the response at bytes 57, 116, 175, ..., as many of them as pack |
| `PasskeyDevice.CtapHidDevice.HandleIncomingSequence` | soft_fido2/platform/passkey_device.py:187-213 | a continuation frame reaches the channel's waiting command, and a completed one leaves the channel and is answered; without a command nothing changes |
| `PasskeyDevice.CtapHidDevice.CtapHidCbor` | soft_fido2/platform/passkey_device.py:112-146 | a command is ignored while another waits on its channel, raises for an unknown command byte or an unassigned channel, is answered at once, or waits |
| `PasskeyDevice.CtapHidDevice.CtapHidInit` | soft_fido2/platform/passkey_device.py:89-110 | the drawn channel is emptied whether or not it was in use, and one reply frame carries nonce and channel |
| `PasskeyDevice.CtapHidDevice.CtapHidPing` | soft_fido2/platform/passkey_device.py:62-67 | the fixed version string is queued and no channel changes |
| `PasskeyDevice.CtapHidDevice.CtapHidMsg` | soft_fido2/platform/passkey_device.py:69-87 | the U2F answer is fragmented onto the channel and no channel changes |
| `PasskeyDevice.CtapHidDevice.Acknowledge` | soft_fido2/platform/passkey_device.py:149-167 | an empty frame is queued and no channel changes |
| `PasskeyDevice.CtapHidDevice.ProcessOutput` | soft_fido2/platform/passkey_device.py:172-232 | each report has exactly the effect of the step function, and no two channels ever share a command |
| `Reassembly.SenderFragments` | soft_fido2/platform/passkey_device.py:31-59 | a response of 1 to 7609 bytes leaves as 1 + ceil(max(0, n - 57) / 59) frames numbered 0, 1, 2, ... below 128, carrying the channel, the length, and payloads that join to the response and zeros |
| `Reassembly.SequenceNumbersFit` | soft_fido2/platform/passkey_device.py:31-59 | sequence numbers stay below 128 if and only if the response has at most 7609 bytes |
| `Reassembly.DrainGathers` | soft_fido2/ctap/cborcmd.py:104-111 | draining takes the received frames up to the first gap, no more, and leaves exactly those beyond it in the buffer |
| `Reassembly.AppendReceives` | soft_fido2/ctap/cborcmd.py:83-127 | for any frame in any state of reception: the wanted number stays the least not received, the buffer exactly the received ones above it, and the handler runs exactly when the last missing frame comes, on the sent bytes |
| `Reassembly.DeviceTracks` | soft_fido2/platform/passkey_device.py:187-232 | confluence: after any sequence of deliveries of a message's frames, reordered and repeated at will, the device is determined by which frames have come |
| `Reassembly.EarlyFramesAreLost` | soft_fido2/platform/passkey_device.py:199-204 | continuation frames that come before the first frame have no effect |
| `Reassembly.LateFramesGather` | soft_fido2/ctap/cborcmd.py:83-127 | after the first frame of a longer message progress depends only on the set of frames received, until it is complete |
| `Reassembly.OneFirstFrameRunsOnce` | soft_fido2/ctap/cborcmd.py:75-127 | when the first frame comes once, the handler runs exactly once if every continuation frame comes after it and the message does not fill it exactly, and never otherwise |
| `Deliveries.TrackDelivers` | soft_fido2/ctap/cborcmd.py:83-127 | from any state without a waiting command, any further deliveries, first frames included, run the handler as often as the message is delivered in full, one delivery after the other |
| `Deliveries.SendThenReceive` | soft_fido2/ctap/cborcmd.py:83-170 | the sender's frames, each delivered any number of times in any order, run the handler exactly as often as that, each time on the bytes sent, and leave a command waiting exactly if a delivery is unfinished; nothing if the command byte is unknown |
| `Deliveries.OnceExactly` | soft_fido2/ctap/cborcmd.py:75-127 | the handler runs exactly once if and only if, for a longer message, all continuation frames come after the first delivery of the first frame and, once they have, no first frame is followed by all of them again; for a shorter one, the first frame comes once; for 57 bytes, never |
| `Deliveries.RepeatedMessageRunsTwice` | soft_fido2/ctap/cborcmd.py:75-127 | an example: two frames, each delivered twice in turn, run the handler twice |
| `DeliveredAnswers.OneAnswer` | soft_fido2/ctap/cborcmd.py:83-127 | where a delivered message runs its handler once, the answer is the one the handler gives at the delivery that completes the message |
| `DeliveredAnswers.SentCarries` | soft_fido2/platform/passkey_device.py:31-59 | the frames of a response carry its channel, command byte and byte count, are numbered 0, 1, 2, ... after the first, and their payloads join to the response and zeros |
| `DeliveredAnswers.DeliveredOnceIsAnswered` | soft_fido2/ctap/cborcmd.py:129-150 | for a message delivered once: commands 0x01, 0x02, 0x04, 0x06 and 0x0B are answered with frames that carry exactly what the handler gave at the completing delivery, its length as byte count; commands 0x07, 0x09 and 0x0D with the byte 0x01 and byte count 0 |
| `DeliveredAnswers.InitIsAnswered` | soft_fido2/platform/passkey_device.py:89-110 | INIT queues one frame: its channel, 0x86, byte count 17, the nonce, the drawn channel, 2, 5, 1, 2, 5, and zeros; the drawn channel is emptied |
| `DeliveredAnswers.PingIsAnswered` | soft_fido2/platform/passkey_device.py:62-67 | ping queues "U2F_V2" under command 0x01 and byte count 0, and changes no channel |
| `DeliveredAnswers.MsgIsAnswered` | soft_fido2/platform/passkey_device.py:69-87 | a U2F message is answered with frames that carry exactly its handler's answer under command byte 0x83 |
| `DeliveredAnswers.OthersAreAcknowledged` | soft_fido2/platform/passkey_device.py:149-167 | the other commands queue an empty frame on their channel |
| `DeliveredAnswers.UnassignedIsNotKept` | soft_fido2/platform/passkey_device.py:112-146 | on an unassigned channel a message that fits its first frame is answered, and of a longer one nothing is kept |
| `Reassembly.UnknownCommandIgnored` | soft_fido2/ctap/cborcmd.py:68 | a message with an unknown command byte changes nothing, however its frames arrive |
| `Reassembly.ExactFitWaitsForStrayFrame` | soft_fido2/ctap/cborcmd.py:75-77 | over any run of continuation frames on the channel, a message of 57 bytes runs its handler if and only if one of them is numbered 0, and then once |
| `Reassembly.StrayFrameJoinsRequest` | soft_fido2/ctap/cborcmd.py:99-102 | the bytes of that frame join the request |
| `Channels.ForeignStep` | soft_fido2/platform/passkey_device.py:112-232 | a frame of another channel changes nothing seen on this one, unless it is an INIT that draws it |
| `Channels.ChannelsDoNotInterfere` | soft_fido2/platform/passkey_device.py:112-213 | over any run, a channel's state, its handled requests and its outgoing frames are those of the run without the other channels' frames |
| `Channels.ForeignStepExactly` | soft_fido2/platform/passkey_device.py:96-106 | a frame of another channel changes what is seen on this one if and only if it is an INIT that draws it while it is unassigned or a command waits on it |
| `Channels.OwnFramesSuffice` | soft_fido2/platform/passkey_device.py:96-213 | over every run in which other channels' INITs do not re-draw the channel while it is in use, its own frames alone decide its state, its handled requests and its outgoing frames |
| `Channels.SurvivesExactlyIfNotDrawn` | soft_fido2/platform/passkey_device.py:96-106 | a waiting command survives any run of other channels' frames if and only if none of them is an INIT that draws the channel |
| `Interleaving.SendThenReceiveAmongOthers` | soft_fido2/platform/passkey_device.py:31-213 | interleaved at will with frames of other channels, the sender's frames run the handler of their channel as often as alone, each time on the bytes sent |
| `ConcurrentSends.DeviceIsAtomic` | soft_fido2/platform/passkey_device.py:112-213 | however the threads' puts are scheduled, the channels and handled requests are those of the one-step device, and the frames due are the ones it sends |
| `ConcurrentSends.OrderKeptExactlyInTurn` | soft_fido2/platform/passkey_device.py:53-59 | under any schedule the frames put on a channel are in the order of the one-step device if and only if each was put by the oldest report with frames left there |
| `ConcurrentSends.OneAtATimeIsInTurn` | soft_fido2/platform/passkey_device.py:53-59 | that is so whenever the host sends the next report on the channel only after the last response |
| `ConcurrentSends.ContiguousExactlyIfNotCutInto` | soft_fido2/platform/passkey_device.py:53-59 | the frames of a response are contiguous on its channel if and only if no frame of another response there was put in the middle of them |
| `ConcurrentSends.LockedResponsesKeepOrder` | soft_fido2/platform/passkey_device.py:128-146 | of two responses sent under the lock, the older is out before the younger begins |
| `ConcurrentSends.CompletedMessageOvertaken` | soft_fido2/platform/passkey_device.py:187-213 | with the lock respected, a new command's response can still overtake one a continuation frame completed on the same channel |
| `Channels.RedrawLosesMessage` | soft_fido2/platform/passkey_device.py:96-106 | an INIT that draws a channel in use loses the message in transit, whatever continuation frames follow |
| `UsbIpResponses.UsbIpHidDevice.BuildPacket` | soft_fido2/platform/usbip_device.py:976-989 | the packet is the next slice of the stored list or `bytes` behind its header, or an exception of the record interpreter |
| `UsbIpResponses.UsbIpHidDevice.SendResponseSegment` | soft_fido2/platform/usbip_device.py:953-1005 | the first waiting IN request is answered with the frame of the next segment, which is lost while the request waits on if it does not pack |
| `UsbIpDevice.PacksExactly` | soft_fido2/platform/usbip_device.py:976-993 | a segment packs if and only if the stored response is `bytes`, or converted, and its header packs; then the frame is the one the UHID device builds |
| `UsbIpResponses.UsbIpHidDevice.HandleOutgoing` | soft_fido2/platform/usbip_device.py:749-769 | the IN request is queued, then the first channel in insertion order with a ready response sends |
| `UsbIpResponses.UsbIpHidDevice.UnlinkRequest` | soft_fido2/platform/usbip_device.py:1007-1025 | the request is withdrawn from the queue exactly if it was waiting |
| `UsbIpResponses.UsbIpHidDevice.HandleIncomingSequence` | soft_fido2/platform/usbip_device.py:791-813 | a continuation frame reaches the channel's command, which stays stored, and a ready response sends one segment |
| `UsbIpResponses.UsbIpHidDevice.CtapHidCbor` | soft_fido2/platform/usbip_device.py:848-880 | a new command replaces the stored one even if that is unfinished |
| `UsbIpResponses.UsbIpHidDevice.HandleIncoming` | soft_fido2/platform/usbip_device.py:721-929 | each OUT frame has exactly the effect of the step function |
| `UsbIpDevice.SendMovesOne` | soft_fido2/platform/usbip_device.py:953-1005 | sending moves the head of the queue to the answered requests or moves nothing |
| `UsbIpDevice.RequestsConserved` | soft_fido2/platform/usbip_device.py:749-1025 | over any run with distinct sequence numbers, the answered requests in the order answered, followed by the waiting ones, are the queued ones in order except those withdrawn: nothing is lost, answered twice or overtaken |
| `UsbIpWithdrawals.UnlinkedExactly` | soft_fido2/platform/usbip_device.py:1007-1025 | over any run with distinct numbers, a request was taken off the queue unanswered if and only if the host withdrew it after polling with it and before a frame was sent for it |
| `UsbIpWithdrawals.WithdrawnForGood` | soft_fido2/platform/usbip_device.py:1007-1025 | once withdrawn, a request waits no more, and no frame is sent for it that had not been sent before |
| `UsbIpWithdrawals.WaitsExactly` | soft_fido2/platform/usbip_device.py:749-1025 | a request waits if and only if the host polled with it, no frame was sent for it, and it was not withdrawn since |
| `UsbIpWithdrawals.RequestsKeepOrder` | soft_fido2/platform/usbip_device.py:749-1025 | the requests answered, then those waiting, are in the order of the polls |
| `UsbIpWithdrawals.WrittenDeviceWaits` | soft_fido2/platform/usbip_device.py:953-1025 | on the device as written, the requests waiting are exactly those polled and not withdrawn since |
| `UsbIpResponses.RunSound` | soft_fido2/platform/usbip_device.py:953-1005 | in every run no two channels store the same response, and, while segments are `bytes` and segment numbers at most 256, what was sent of a stored response joined to what is left of it is what can be sent of it |
| `UsbIpResponses.SentIsPrefix` | soft_fido2/platform/usbip_device.py:953-1005 | over any run, the data sent of each response is a prefix of it; or, where its byte count is wider than 16 bits, a prefix of what follows the lost first 57 bytes |
| `UsbIpResponses.SegmentTakenWithRequest` | soft_fido2/platform/usbip_device.py:962-1005 | a segment is always taken, but an IN request is used up if and only if the stored response is `bytes`, or converted, and the header packs; then the answer is that frame |
| `UsbIpResponses.ResponsesAreLists` | soft_fido2/platform/usbip_device.py:842-925 | in every run each stored response is a list, whichever writer stored it |
| `UsbIpResponses.ListSegmentsAreNeverSent` | soft_fido2/platform/usbip_device.py:976-991 | so as written, the device answers no IN request with a segment in any run: each waits until it is withdrawn |
| `UsbIpDelivery.SegmentGoesOut` | soft_fido2/platform/usbip_device.py:953-1005 | a segment that packs answers the first waiting request, and with the last one the channel loses its command, unless it is the broadcast channel |
| `UsbIpDelivery.FramesGather` | soft_fido2/platform/usbip_device.py:791-880 | until all frames of a request have come, in whatever order, its command waits with those that have, whatever was stored on the channel before |
| `UsbIpDelivery.RequestIsAnswered` | soft_fido2/platform/usbip_device.py:749-1005 | on a device that converts segments, with no other response ready: after a request's frames in any order and as many polls as its response needs, the polls that waited and these get, in order, frames that carry exactly the handler's answer, or the error byte, as over UHID; the channel is then free |
| `UsbIpDelivery.UsbInitIsAnswered` | soft_fido2/platform/usbip_device.py:819-846 | on that device INIT answers the first waiting request with nonce, drawn channel, 2, 5, 1, 2, 12, and zeros |
| `UsbIpDelivery.UsbMsgIsAnswered` | soft_fido2/platform/usbip_device.py:882-925 | of the U2F commands only a version request on an assigned channel is answered, with "U2F_V2" |
| `UsbIpDelivery.ChannelsAreListed` | soft_fido2/platform/usbip_device.py:764 | in every run the channels are looked at in the order of their first assignment, each once |
| `KeepAlive.AdvanceKeepsInv` | soft_fido2/ctap/pending.py:42-65 | every atomic step of either thread keeps the ordering invariant |
| `KeepAlive.KeepalivesPrecedeResponse` | soft_fido2/ctap/pending.py:42-65 | in every interleaving at most one keepalive follows `interrupt` and none follows `join`, so all precede the response |
| `KeepAlive.OneMayFollowInterrupt` | soft_fido2/ctap/pending.py:44-61 | the bound is reached: one keepalive can follow `interrupt` |
| `KeepAlive.JoinReturns` | soft_fido2/ctap/cborcmd.py:315-317 | once interrupted the worker ends within two of its own steps under any schedule |
| `SessionStore.AuthenticatorApi.CacheUserPresence` | soft_fido2/ctap/api.py:113-132 | the state is recorded without restarting an existing entry's clock, and a new entry starts now |
| `SessionStore.AuthenticatorApi.GetOrCreatePinTokenKp` | soft_fido2/ctap/api.py:207-223 | a pair is generated only if the entry has none, even a None; the result is the stored pair |
| `SessionStore.AuthenticatorApi.DecapsulationKey` | soft_fido2/ctap/api.py:425-428 | a PIN's shared secret takes the stored pair, and raises if there is no entry, no pair or a None |
| `SessionStore.AuthenticatorApi.ProcessPasskeyFile` | soft_fido2/ctap/api.py:354-395 | the entry is replaced by the unlocked wallet with a new token and start time, keeping only the key-agreement pair |
| `SessionStore.AuthenticatorApi.TokenExpiryCheck` | soft_fido2/ctap/api.py:54-69 | a pass removes exactly the entries whose age, at their own reading of the clock, rounds down to 30 seconds, and changes no other |
| `SessionStore.AuthenticatorApi.GatherUserPresence` | soft_fido2/ctap/cborcmd.py:216-322 | it succeeds if and only if presence is skipped by configuration, already cached, or accepted before a rejection and before 15 seconds; in the last case, and the first, presence is recorded in the store as other threads have left it by then |
| `SessionStore.GrantedExactly` | soft_fido2/ctap/cborcmd.py:285-322 | presence is granted if and only if some pass of the loop finds a matching fingerprint or a click on accept, and every pass before it began under 15 seconds after the start and found neither these nor a rejection |
| `SessionHistory.SinceStep` | soft_fido2/ctap/api.py:113-132 | how "has happened, and not been undone since" develops with each action |
| `SessionHistory.UnlockedIsLatestPin` | soft_fido2/ctap/api.py:354-395 | over every history, a channel holds an unlocked wallet and token if and only if the latest PIN validation on it stored them with no eviction since |
| `SessionHistory.PresenceIsEstablished` | soft_fido2/ctap/api.py:72-132 | presence counts if and only if it was gathered, or a PIN accepted, on that channel with no eviction since |
| `SessionHistory.SessionIsOpen` | soft_fido2/ctap/api.py:113-395 | a channel has an entry if and only if presence was cached, a key agreed or a PIN accepted there with no eviction since |
| `SessionHistory.VerifiedIsLatest` | soft_fido2/ctap/api.py:89-132 | a channel counts as verified if and only if verification is what was last recorded there, with no eviction since |
| `SessionHistory.PairIsDrawn` | soft_fido2/ctap/api.py:207-223 | the pair of a channel is the one drawn by the key agreement that found none there, with no eviction since |
| `SessionHistory.PairLostExactly` | soft_fido2/ctap/api.py:207-223 | a channel that had a pair has none if and only if it was evicted and drew none after that |
| `SessionHistory.MissingPairIsRacedPin` | soft_fido2/ctap/api.py:382-428 | where PINs are accepted only in exchanges that began with a decapsulation, a pair is None if and only if an eviction with no new pair fell between the decapsulation and the acceptance of some PIN, with no eviction since |
| `SessionHistory.RacedPinLosesPair` | soft_fido2/ctap/api.py:354-433 | a run of the code's own steps in which that happens |
| `SessionHistory.PinKeyIsStable` | soft_fido2/ctap/api.py:207-433 | the pair advertised stays the pair used until the entry is evicted, whatever else happens |
| `Watchdog.YoungWhenChecked` | soft_fido2/ctap/api.py:54-69 | when looked at once a second, an entry was younger than 30 seconds at the last look |
| `Watchdog.SessionsEndInTime` | soft_fido2/ctap/api.py:54-69 | looked at at most a second apart, no entry reaches 31 seconds |
| `Watchdog.NoSessionEndsEarly` | soft_fido2/ctap/api.py:65 | no entry is removed before 30 seconds |
| `Watchdog.RemovedExactlyInWindow` | soft_fido2/ctap/api.py:65 | for any schedule, an entry is removed if and only if some look falls in its 31st second, unless a PIN validation restarts it |
| `Watchdog.SessionStaysExactly` | soft_fido2/ctap/api.py:54-69 | told from the history: an entry whose clock was started by its last PIN validation, or by what opened it, stays if and only if no look falls from 30 up to 31 seconds after that action |
| `Watchdog.ThirtySecondsFromPin` | soft_fido2/ctap/api.py:382-394 | while time does not run backwards, no entry is removed within 30 seconds of its last PIN validation, or of the presence or key agreement that opened it |
| `Watchdog.GoneAfterThirtyOne` | soft_fido2/ctap/api.py:54-69 | looked at at most a second apart, it is removed from 30 up to 31 seconds after that action |
| `Watchdog.LongerGapsMissSessions` | soft_fido2/ctap/api.py:54-69 | for every interval over a second some schedule misses an entry for ever |
| `CommandGates.TokenMatchesExactlyIfProved` | soft_fido2/ctap/cborcmd.py:324-334 | a pinUvAuthParam is accepted if and only if it is the first 16 bytes of the MAC under the token of the latest PIN validation on that channel, not evicted since |
| `CommandGates.MakeCredentialOkExactly` | soft_fido2/ctap/cborcmd.py:403-450 | CTAP2_OK if and only if presence counted at the gate, the request is complete, demanded verification is on record, a given pinUvAuthParam proves the token, and a credential was made |
| `CommandGates.GetAssertionOkExactly` | soft_fido2/ctap/cborcmd.py:463-510 | CTAP2_OK under the same conditions, except that demanded verification always takes a pinUvAuthParam that proves the token |
| `CommandGates.MakeCredentialAnswers` | soft_fido2/ctap/cborcmd.py:403-450 | every other answer, told from the history: 0x27 without presence, an exception for a request that does not decode, 0x14 for an incomplete one, 0x36 for missing verification; for a pinUvAuthParam, an exception without a token, 0x33 if it does not prove the token, 0x36 if the session is gone by then; else the outcome of the operation |
| `CommandGates.GetAssertionAnswers` | soft_fido2/ctap/cborcmd.py:463-510 | the same for GetAssertion, which answers 0x36 to a demand for verification without a pinUvAuthParam |
| `CommandGates.VerificationIsPresence` | soft_fido2/ctap/cborcmd.py:234-309 | since every caller caches "verified", the verification MakeCredential demands is no more than presence |
| `CryptoConsistent.LawsAreConsistent` | soft_fido2/key_pair.py:848-894 | the laws assumed of encryption, key exchange, PKCS12, CBOR, base64 and hashing can hold at once, and with them that all RPs and keys have different seeds and the cipher tells two of these apart from all others |
| `SymmetricKey.DecryptInvertsEncrypt` | soft_fido2/symmetric_key.py:59-197 | decryption gives the data back if and only if there is any and the token is within its time limit |
| `SymmetricKey.TokenBytes` | soft_fido2/symmetric_key.py:59-99 | a token holds, byte by byte, 0x81, the time in eight big-endian bytes, the nonce, the tag, and the text, sealed with the time as associated data |
| `CredentialId.CredentialIdRoundTrip` | soft_fido2/authenticator/fido2.py:177-315 | a key pair gets an id if and only if its algorithm fits 16 bits and its material is 32 bytes, and decoding gives it back if and only if the algorithm is supported and accepts the material |
| `CredentialId.IdBytes` | soft_fido2/authenticator/fido2.py:177-253 | an id is "1337C0D3" and the token of the algorithm as a 16-bit two's complement number and 32 bytes of material; for algorithm -7 U2F makes the same |
| `CredentialId.DecodesExactly` | soft_fido2/authenticator/fido2.py:292-315 | an id decodes to a key pair if and only if it has that prefix and its token decrypts to that pair's 34 bytes, of one of the seven algorithms, which accepts the material |
| `CredentialId.DecodersAgree` | soft_fido2/authenticator/u2f.py:67-87 | the CTAP2 and U2F decoders give the same result for every byte string under every key |
| `CredentialId.U2fIdOverCtap2` | soft_fido2/authenticator/u2f.py:89-114 | an id made over U2F decodes over CTAP2 if and only if the material was 32 bytes |
| `CredentialId.Fido2Authenticator.GetCredentialIdBytes` | soft_fido2/authenticator/fido2.py:98-253 | the id of an authenticator holds its key pair: an id it was given or has made is returned ever after and decodes to the pair, and one it makes does so if and only if the pair's kind is recoverable |
| `PasskeyFile.EcDecryptInverts` | soft_fido2/key_pair.py:848-894 | the key owner recovers the plaintext, from 4 + 178 + 16 + 16 bytes more than it |
| `PasskeyFile.StashHoldsUpperHalf` | soft_fido2/key_pair.py:585-592 | every saved stash has the 230 bytes the load demands and decrypts to the second half of the hash |
| `PasskeyFile.BodyLayout` | soft_fido2/key_pair.py:615-630 | the slices of a saved file give its key and certificate under its own hash and under no other, and its credentials |
| `PasskeyFile.SavedBytes` | soft_fido2/key_pair.py:681-703 | both files byte by byte: little-endian length, PKCS12 file and sealed credentials; sealed second half of the PIN hash; sealed data is the PEM length 178 big-endian, the anonymous PEM, IV, tag and text |
| `PasskeyFile.LoadExactly` | soft_fido2/key_pair.py:594-639 | a file pair loads if and only if the full hash, or half of it completed from the stash, is the saved one, and then gives exactly the saved record, even when the two files come from different saves |
| `PasskeyFile.InterruptedPinChange` | soft_fido2/key_pair.py:697-703 | with only the first file rewritten, the new PIN opens the wallet in full, opens it by half exactly if both hashes have the same second half, and the old PIN does not |
| `WalletHome.FidoHome.LoadPasskey` | soft_fido2/key_pair.py:594-639 | loading reads both files of that name and changes none |
| `WalletHome.FidoHome.SavePasskey` | soft_fido2/key_pair.py:641-703 | both files of that name are replaced, or on failure neither |
| `WalletHome.FidoHome.GeneratePasskey` | soft_fido2/qt/svc/passkey_service.py:55-107 | a wallet without credentials is written unless the name is taken |
| `WalletHome.FidoHome.AppendCredential` | soft_fido2/key_pair.py:475-494 | the credential is appended to those the files hold, or nothing changes |
| `WalletHome.FidoHome.LoadCredentials` | soft_fido2/qt/svc/credential_service.py:34-95 | the wallet is loaded with the PIN and written back |
| `WalletHome.FidoHome.DeleteCredentialsByIndex` | soft_fido2/qt/svc/credential_service.py:160-225 | checking, the deletion loop, the second load and the save have the effect of the operation Delete |
| `WalletHome.FidoHome.UpdatePin` | soft_fido2/qt/svc/credential_service.py:351-397 | the wallet is saved under the new PIN's hash if the current PIN opens it |
| `IndexDeletion.DeleteByIndex` | soft_fido2/qt/svc/credential_service.py:194-196 | for distinct indices the loop leaves the credentials at the other positions in their order |
| `IndexDeletion.SortFacts` | soft_fido2/qt/svc/credential_service.py:195 | the sorted indices are a descending permutation of those given |
| `IndexDeletion.DeletesExactlyIfDistinct` | soft_fido2/qt/svc/credential_service.py:189-196 | for valid indices in any order, exactly the credentials at the other positions remain, in order, if and only if no index repeats |
| `WalletRuns.LoadFromExactly` | soft_fido2/key_pair.py:594-639 | where the files stand for wallets, a name loads if and only if it names one whose current hash, or its first half, is given |
| `WalletRuns.SaveToExactly` | soft_fido2/key_pair.py:641-703 | saving goes through if and only if the PKCS12 file fits its length field, and then only that wallet changes |
| `WalletRuns.StepRefines` | soft_fido2/qt/svc/credential_service.py:34-397 | every operation on the files succeeds exactly when it does on the abstract wallets and leaves the files of the resulting wallets |
| `WalletRuns.RunsRefine` | soft_fido2/key_pair.py:475-703 | after any run of creations, listings, appends, deletions and PIN changes, the current 32-byte hash or its first 16 bytes load exactly the abstract key, certificate, full hash and credentials, and nothing else does |
| `WalletEffects.GenerateMakes` | soft_fido2/qt/svc/passkey_service.py:76-107 | after any run, a wallet is made if and only if its name loads under no hash and its file fits; then it loads, without credentials, under its 32-byte PIN hash and the first half, and every other name as before |
| `WalletEffects.ListShows` | soft_fido2/qt/svc/credential_service.py:34-95 | listing succeeds if and only if the PIN loads the wallet and it can be written back, and everything loads as before |
| `WalletEffects.ChangePinRekeys` | soft_fido2/qt/svc/credential_service.py:351-397 | a PIN change succeeds if and only if the current PIN loads the wallet and it can be saved; then exactly the new hash and its half load it, with key, certificate and credentials as they were |
| `WalletEffects.RegisterAppends` | soft_fido2/ctap/api.py:493-616 | a registration succeeds if and only if the hash loads the wallet, it has no credential for that RP and user, and a resident one can be saved; then the wallet loads with the credential behind the others |
| `WalletEffects.DeleteRemoves` | soft_fido2/qt/svc/credential_service.py:160-225 | with distinct indices a deletion succeeds if and only if the PIN loads the wallet, all indices are in range and the saves fit; then the wallet loads with exactly the credentials at the other positions, in order |
| `WalletRuns.FailureLosesNothing` | soft_fido2/qt/svc/credential_service.py:183-225 | an operation that fails, an invalid index included, leaves every wallet loading as before |
| `WalletRuns.WalletsHaveNoRepeats` | soft_fido2/ctap/api.py:493-511 | no run puts two resident credentials for one user of one RP in a wallet |
| `WalletRuns.ResidentsAreUnique` | soft_fido2/ctap/api.py:493-616 | whoever loads a wallet after any run finds at most one resident credential for each user of each RP |
| `Ceremonies.Authenticator.AttestationOut` | soft_fido2/ctap/api.py:466-616 | the wallet of a verified channel, else the platform key, makes the credential; an existing user is excluded; a resident one is appended to that wallet's files |
| `Ceremonies.Authenticator.FirstAssertion` | soft_fido2/ctap/api.py:619-703 | the loop answers with the first entry it can recover under the wallet's key |
| `Ceremonies.Authenticator.MaybePlatformAssertion` | soft_fido2/ctap/api.py:646-680 | the loop answers with the first entry recoverable under the platform key, passing over the prefix check's rejects |
| `Ceremonies.Authenticator.AssertionOut` | soft_fido2/ctap/api.py:682-706 | the caller's list is extended in place by the RP's resident credentials, then the wallet and then the platform key are tried over the extended list |
| `CredentialSelection.SelectedExactly` | soft_fido2/ctap/api.py:697-706 | the answer is the first recoverable entry, or NO_CREDENTIALS if and only if there is none |
| `CredentialSelection.AssertionExactly` | soft_fido2/ctap/api.py:646-706 | the answer is the first of allow list and residents recoverable under the wallet's RP seed with its user, else the first under the platform's without, NO_CREDENTIALS if and only if neither exists, and an exception if and only if the wallet no longer loads |
| `CredentialSelection.ResidentsInFileOrder` | soft_fido2/ctap/api.py:691-696 | the residents of an RP are one entry for each of its credentials in the wallet, at increasing positions, none missing and none foreign |
| `CredentialSelection.ResidentsAnswerInFileOrder` | soft_fido2/ctap/api.py:682-706 | with a wallet that loads, the caller's list becomes itself followed by those; and where the wallet's seed recovers none of the caller's, the answer is the credential of this RP at the least position of the wallet that it recovers, for its user |
| `RegisterThenAssert.NewIdRecovers` | soft_fido2/ctap/api.py:543-578 | a new id decodes to the new key pair under the same key, RP and info string |
| `RegisterThenAssert.AttestationExactly` | soft_fido2/ctap/api.py:493-616 | with a wallet that loads: excluded if and only if it has a credential of that RP and that user; otherwise an id is made if and only if one can be built and, for a resident credential, the wallet with it behind the others saved; with the platform key, if and only if one can be built |
| `RegisterThenAssert.AttestationInRun` | soft_fido2/ctap/api.py:493-616 | in every run, on a verified channel whose hash opens its wallet: refused if and only if the wallet has a credential of that RP and user, and otherwise made, unless it is resident and the PKCS12 file outgrows its length field |
| `RegisterThenAssert.CreatedIsFoundByWallet` | soft_fido2/ctap/api.py:580-706 | a created id that is offered, or resident, on any channel whose wallet has the key it was made with is recovered to the same key pair unless an earlier candidate also belongs to that key, and never NO_CREDENTIALS |
| `RegisterThenAssert.CreatedIsFoundByPlatform` | soft_fido2/ctap/api.py:646-706 | the same for an id made with the platform key, on a channel without a wallet or with one no candidate belongs to |
| `RegisterThenAssert.WalletStays` | soft_fido2/qt/svc/credential_service.py:34-397 | no run removes a wallet or changes its key |
| `RegisterThenAssert.ResidentStays` | soft_fido2/key_pair.py:475-494 | a resident credential stays in its wallet through every run without a deletion from it |
| `RegisterThenAssert.SessionKeyIsCurrent` | soft_fido2/ctap/api.py:354-395 | the key a session took from a wallet file stays that wallet's key |
| `RegisterThenAssert.StaleExactlyIfPinLost` | soft_fido2/qt/svc/credential_service.py:351-397 | a session's hash opens its wallet if and only if the last change of its PIN since the unlock, if any, set one the hash opens |
| `RegisterThenAssert.AssertionRaisesExactlyIfPinLost` | soft_fido2/ctap/api.py:682-691 | over every run, an assertion with a wallet raises if and only if that is not so |
| `RegisterThenAssert.ResidentIsFoundAgain` | soft_fido2/ctap/api.py:543-706 | a resident credential registered on one channel, on every channel that unlocks the same wallet, until something is deleted from that wallet: an unnamed assertion raises if and only if the PIN has been changed away from the session since its unlock, and otherwise signs with the credential unless an earlier candidate belongs to the wallet |
| `RegisterThenAssert.AssertionRaisesExactlyIfStale` | soft_fido2/ctap/api.py:682-691 | an assertion with an unlocked wallet raises if and only if the hash the session keeps no longer opens the wallet |
| `RegisterThenAssert.PinChangeStalesExactly` | soft_fido2/qt/svc/credential_service.py:351-397 | after a PIN change, an assertion on a session on that wallet raises if and only if the hash the session keeps is neither the new PIN's nor its first half |
| `RpIsolation.RecoversExactlyOwn` | soft_fido2/ctap/api.py:619-640 | of ids whose seeds the cipher tells apart, a seed recovers exactly those made under it |
| `RpIsolation.OnlyOwnRpAnswers` | soft_fido2/ctap/api.py:646-706 | over made ids, where key derivation and cipher tell this RP's seeds apart from the others': the answer is the first made for this RP with the wallet's key, else the first made for it with the platform key, and NO_CREDENTIALS if and only if there is neither; without a wallet, the platform key alone; ids of other RPs never answer |
| `AuthenticatorRuns.RunsKept` | soft_fido2/ctap/api.py:234-395 | in every run of sessions, PINs, registrations and wallet management, each session's key is the one of a wallet its PIN opened |
| `AuthenticatorRuns.SessionsHoldCurrentKeys` | soft_fido2/ctap/api.py:354-395 | in every run, an unlocked session's key is its wallet's current key |
| `PinUnlocking.PinUnlocksFirst` | soft_fido2/ctap/api.py:234-395 | in every run, a PIN unlocks the first listed wallet whose hash or first half it is: the session then holds its name, key, certificate, the hash and the new token, is verified and starts its clock anew; if it opens none nothing changes, and never a file or another channel |
| `PinUnlocking.KeyIsResolved` | soft_fido2/ctap/api.py:467-490 | told from the history at its two reads, an attestation takes the key of the latest PIN accepted on a verified channel, raises if the session is gone by the second read, and else takes the platform's |
| `AuthenticatorRuns.ResidentIsFoundInRun` | soft_fido2/ctap/api.py:234-706 | in every such run, a resident credential once registered, on every channel a PIN unlocks the same wallet on, until something is deleted from that wallet: an unnamed assertion raises if and only if the last PIN change since that unlock set a PIN the session's hash does not open, and otherwise signs with it |
| `AuthenticatorRuns.GetAssertionOk` | soft_fido2/ctap/cborcmd.py:463-510 | GetAssertion with the real assertion behind its gates answers CTAP2_OK if and only if the gates let it through and the assertion signs |
| `PinUnlocking.CreationAnswers` | soft_fido2/ctap/cborcmd.py:437-450 | behind its gates MakeCredential answers 0x00 for a credential made and 0x19 for an excluded one, and raises with the attestation |
| `PinUnlocking.AssertionAnswers` | soft_fido2/ctap/cborcmd.py:496-510 | behind its gates GetAssertion answers 0x00 for a signature and 0x2E if no credential is recoverable, and raises with the assertion |
| `PinUnlocking.SecondIsExcluded` | soft_fido2/ctap/api.py:493-511 | in every run, behind its gates and with a wallet that opens, MakeCredential answers 0x19 if and only if the wallet has a credential of that RP and user |
| `AuthenticatorRuns.RegisteredThenAsserted` | soft_fido2/ctap/cborcmd.py:403-510 | after a MakeCredential for a resident credential answered CTAP2_OK, in every run without a deletion from its wallet, a GetAssertion for the RP on any channel that unlocked the wallet is answered CTAP2_OK if and only if its gates let it through and the PIN has not been changed away from the session |
| `Limbs.LimbFormUnique` | soft_fido2/key_pair.py:333-341 | a number has only one encoding in whole words without a leading zero word |
| `Limbs.LongToBytes` | soft_fido2/key_pair.py:333-341 | the loop ends with that encoding, for every number |
| `Limbs.BytesToLong` | soft_fido2/key_pair.py:344-353 | the loop ends with the big-endian value if and only if the length is a multiple of four |
| `Limbs.RoundTrip` | soft_fido2/key_pair.py:333-353 | every number has its encoding in whole words, and the decoder reads that back as the number |
| `Limbs.EncodingDropsZeroWords` | soft_fido2/key_pair.py:333-353 | the one encoding of a decoded string is that string without its leading zero words |
| `Limbs.DecodeThenEncode` | soft_fido2/key_pair.py:333-353 | decoding then encoding drops exactly the leading zero words |
| `Limbs.AgreesWithFixedForm` | soft_fido2/authenticator/u2f.py:132-137 | limb form and 32-byte form of a coordinate are the same if and only if it is at least 2^224, and below it the limb form is shorter |
| `Limbs.UncompressedPointHolds` | soft_fido2/authenticator/u2f.py:132-137 | the 65-byte point holds both coordinates |
| `CableQr.DecodeQrData` | soft_fido2/platform/cable.py:43-74 | the chunk loop and the tail table compute the chunkwise decoding, raising where it is undefined |
| `CableQr.DecodedBytes` | soft_fido2/platform/cable.py:43-76 | chunk i of 17 digits gives bytes 7i to 7i + 6, and a last one of 3, 5, 8, 10, 13 or 15 digits 1 to 6 bytes: those of its decimal number, lowest first |
| `CableQr.DecimalDigit` | soft_fido2/platform/cable.py:50 | digit i of a decimal number of n digits counts 10 to the power n - 1 - i |
| `CableQr.DigitsSuffice` | soft_fido2/platform/cable.py:58-70 | 3, 5, 8, 10, 13, 15 and 17 digits hold every value of 1 to 7 bytes, and the tail table maps them back |
| `CableQr.DecodeInvertsEncode` | soft_fido2/platform/cable.py:43-76 | every byte string survives the encoding of section 11.5 of CTAP 2.2 and this decoder |
| `CableQr.DecodesExactlyIfChunksFit` | soft_fido2/platform/cable.py:48-74 | decoding is defined if and only if every chunk's value fits its bytes |
| `CableQr.EncodeInvertsDecode` | soft_fido2/platform/cable.py:53-74 | encoding what was decoded gives the digits back if and only if the tail has one of the six lengths, or is empty |
| `TunnelDomain.BuildDomain` | soft_fido2/platform/cable.py:104-122 | the base-32 loop ends with prefix, digits and the chosen top-level domain |
| `TunnelDomain.DecodeTunnelServerDomain` | soft_fido2/platform/cable.py:78-122 | which values give an assigned name (negative ones index from the end), none, a generated name, or an exception |
| `TunnelDomain.ShaInputBytes` | soft_fido2/platform/cable.py:99-101 | the 31 bytes hashed, one by one: the ASCII salt, the value with its low byte first, and a zero |
| `TunnelDomain.DomainCharacters` | soft_fido2/platform/cable.py:106-120 | the domain character by character: "cable.", as many base-32 digits as the value over four takes, lowest first, and the top-level domain of its lowest two bits |
| `TunnelDomain.LabelFits` | soft_fido2/platform/cable.py:115-117 | the label of a 64-bit value has at most 13 characters |
| `TunnelDomain.LabelReadsBack` | soft_fido2/platform/cable.py:115-117 | the label determines its value |
| `TunnelDomain.DomainsDiffer` | soft_fido2/platform/cable.py:106-122 | different values give different domains |
| `TunnelDomain.DomainIsDigestPrefix` | soft_fido2/platform/cable.py:103-122 | two digests give one domain if and only if their first eight bytes are the same |
| `Packet.BaseStructure.Pack` | soft_fido2/ctap/packet.py:95-108 | the loop packs the fields in order, raising if one does not pack |
| `Packet.BaseStructure.Unpack` | soft_fido2/ctap/packet.py:110-122 | the loop assigns the values by position, and nothing if it raises |
| `Packet.PacksIfWritable` | soft_fido2/ctap/packet.py:95-108 | a record packs if and only if each value can be written: a number that fits its width, a byte string, an ASCII code |
| `Packet.PackedBytes` | soft_fido2/ctap/packet.py:82-108 | each field's bytes follow those of the fields before it: numbers in the record's byte order, byte strings cut or filled with zeros, zeros for padding |
| `Packet.UnpackAfterPack` | soft_fido2/ctap/packet.py:81-122 | for distinct names and values that fit, every field reads back, into whatever record, if and only if no value follows padding; numbers marked `<` then read back with their bytes reversed and characters as byte strings |
| `Packet.ValueAfterPaddingIsLost` | soft_fido2/ctap/packet.py:110-122 | in every layout with a value after padding, some value field keeps, in every record it is unpacked into, what that held before |
| `Packet.BackExactly` | soft_fido2/ctap/packet.py:113-119 | a value reads back as itself if and only if it is no character and, when marked `<`, its bytes read the same from both ends |
| `Packet.RestoredExactly` | soft_fido2/ctap/packet.py:81-122 | packing and unpacking restores every attribute, into whatever record, if and only if no value follows padding and every value reads back as itself |
| `Packet.PaddingShiftsNames` | soft_fido2/ctap/packet.py:110-122 | an example: a value after padding comes back under the padding's name |
| `Packet.RefusedField` | soft_fido2/ctap/packet.py:106-108 | one field that does not pack makes the whole record raise |
| `Packet.InitFrameIsPacked` | soft_fido2/ctap/packet.py:125-151 | the initialization packet packs if and only if its byte count fits 16 bits, to the bytes the device model sends |
| `Packet.ContFrameIsPacked` | soft_fido2/ctap/packet.py:154-179 | the same for the continuation packet and its 8-bit sequence number |

## Left out

- `CborCommands.CborCommand.AppendSegment`: what a handler computes from its request is an input; exceptions raised inside a handler are not modelled.
- `CborCommands.CborCommand.Prepare`: a command created without a frame shares class-level `request` and `sequence_buffer` values with others; no such command receives a frame on the UHID device, and on USB/IP each is modelled with its own.
- `PasskeyDevice.CtapHidDevice.ProcessOutput`: one report is one step; ConcurrentSends takes its puts apart, but what a report does to the channels stays one step, also for INIT, which assigns its channel outside the lock.
- `PasskeyDevice.CtapHidDevice.SendResponseSegments`: the outgoing queue is unbounded; the program's queue blocks at its maximum size.
- `UsbIpResponses.UsbIpHidDevice.StoreCommand`: stored commands are values held in the dictionary, so the model does not capture two references to one command.
- `UsbIpResponses.UsbIpHidDevice.HandleIncoming`: the empty replies to OUT frames and to unknown commands, which use no queued request, are not recorded.
- `UsbIpDelivery.RequestIsAnswered`: polls that come between the frames of a request count as waiting before it, and no other channel has a response ready meanwhile.
- `SessionStore.AuthenticatorApi.ProcessPasskeyFile`: what the PIN opened is an input here; AuthenticatorRuns says what that is.
- `RpIsolation.OnlyOwnRpAnswers`: which seeds key derivation and cipher tell apart is a hypothesis, because no cipher with a 16-byte tag can tell all keys apart.
- `AuthenticatorRuns.RunsKept`: registrations and PINs are one step each against the files.
- `SessionStore.AuthenticatorApi.GatherUserPresence`: fingerprint hardware, dialogs and their messages are inputs.
- `Ceremonies.Authenticator.AttestationOut`: attestation statements, authenticator data and signatures are not modelled, and no library call in building them fails.
- `Ceremonies.Authenticator.AssertionOut`: the session's entry is read in one step, and signing never fails once the key pair is recovered.
- `WalletHome.FidoHome.SavePasskey`: file system errors other than the interruption InterruptedPinChange covers, and the `.passkey` suffix rule, are not modelled.
- `Packet.UnpackAfterPack`: fields that are themselves records, which `unpack` cannot read, are not modelled, nor are values of type str.
- `CableQr.DecodeQrData`: characters that are not digits; the CBOR decoding of the result.
- TPM-backed platform keys.
- AES-GCM, ECDH, PKCS12, CBOR, base64, SHA-256, HMAC and HKDF are functions with the laws `Crypto` states, and X.509 certificates are byte strings.
- `delete_credential` is the one-index case of `delete_credentials`.
- `get_pin_retries`, whose every query decrements the count.
- The USB/IP `KeepAliveWorker`, whose thread is created but never started, and USB enumeration.
- Attestation statement builders, certificates, U2F responses, the Qt user interface, D-Bus and IPC.
