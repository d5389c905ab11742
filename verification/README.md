# A verified model of the MCTP serial bridge

The bridge relays MCTP packets between a serial line, the kernel's MCTP stack and one client of a broadcast
socket. This project models its framing codec, its receive state machine, the hand-off between its threads and
its dispatch loop, and proves what they do to whole byte streams and over whole runs.

| file | contents |
|---|---|
| `Bytes.dfy` | bytes, packets, size narrowing, 16-bit words from two bytes |
| `Fcs.dfy` | the frame check sequence: shift register, table, linearity, what it detects, parity |
| `Period.dfy` | after how many shifts the register repeats |
| `Stuffing.dfy` | byte stuffing and its inverse |
| `Frame.dfy` | what a sender builds, what the receiver's test accepts |
| `Detection.dfy` | corruptions of a frame that cannot go unnoticed |
| `BitErrors.dfy` | flipped bits and bursts in the unstuffed interior, check included: which go unnoticed |
| `Receiver.dfy` | the receive state machine, the parser it implements, the cutoff, round trips |
| `Streams.dfy` | recovery from any state, containment of damage, relaying, provenance, the receiver's invariant |
| `WireDamage.dfy` | any one wire byte changed in any way, flags and escapes included |
| `WireBits.dfy`, `WireBursts.dfy` | bits flipped on the wire; bursts on the wire |
| `Sharing.dfy` | frames that share a flag |
| `Handoff.dfy` | receive thread and dispatch thread of one port under every interleaving |
| `Bridge.dfy` | the whole bridge as a machine of atomic steps, and what every run of it keeps |
| `Rounds.dfy` | single steps and rounds, by what they do to ports, wires and the client |
| `Settling.dfy` | from every point of a run the bridge can come to rest with everything forwarded |
| `ReceiveBuffer.dfy`, `MctpSerial.dfy`, `BcastMessenger.dfy`, `MctpBridge.dfy` | the classes of the program, proved against the machines |

## How the parts fit

`Fcs.Fcs` is the mathematical shift register; `MctpSerial.CalcFcs` is the loop over the table and is proved equal to
it. `Receiver.Step` is one byte through the receive state machine; `MctpSerial.UpdateRxFSM` updates the fields in
place and is proved to take that step. `Receiver.Parse` says, without states, what a stream delivers: it is cut at
the frame characters, and a piece in an open frame is delivered if it is, byte for byte, the stuffing of something
a sender could have built. `Receiver.Refines` proves the machine equal to the parser on every stream, and the stream
theorems rest on that. `Bridge.Act` is one atomic step of any of the three threads; every call of a method of
`Dispatch.MctpBridge` is proved to be a run of that machine whose steps are written down (`RoundActions`,
`ScriptActions`), so that the theorems on all runs hold of the loop. The theorems on runs are stated over what can be
read off the steps of a run (`Incoming`, `Refusals`, `HandedOver`) and over byte 1 of the messages themselves; the
methods also say in terms of the objects what goes to which wire.

Facts about the code that its own documentation does not state, or states otherwise:

- The comment at `MctpSerial.cpp:361` gives the frame character as 0x7F and the one at line 374 has the check cover
  it. The code uses 0x7E and leaves it out of the check; the model follows the code.
- The cutoff of 550 bytes does not matter, and not only because it exceeds the longest frame: any cutoff from 260 to
  65540 delivers the same packets from every stream, and no other does. Above that range the size, compared in sixteen
  bits, comes round to the byte count of a frame of more than 65536 bytes (`Receiver.CutoffExact`).
- RFC 1662 allows two frames to share the frame character between them. After a delivery this receiver waits for
  another opening character. Frames that share their characters therefore all arrive if and only if no two
  deliverable messages are neighbours (`Sharing.SharingLosesNothing`); of a row of deliverable ones every second is
  lost (`Sharing.SharingLosesEverySecond`).
- The check is sent most significant byte first, out of the register's bit order. In the unstuffed interior it still
  catches any three flipped bits, check included, which is the most that is possible (`BitErrors.ThreeFlipsRefused`,
  `FourFlipsAccepted`). What the order costs is bursts: of those of at most sixteen bits in three successive bytes all
  are caught but twelve differences: five in the last two covered bytes and the first byte of the check, eight in
  the last covered byte and the check, of which one is also among the five (`BitErrors.BurstAccepted`,
  `SlipsBefore`, `SlipsAfter`).
- On the wire the receiver sees flags and escapes before it checks anything. A byte that becomes anything but a flag,
  wherever it is, costs its own frame and nothing else (`WireDamage.WireByteReplaced`). A byte that becomes a flag can
  deliver a packet nobody sent: in the frame of a message of at most 255 bytes, exactly when what follows it has the
  right byte count and leaves the register where the whole frame does (`WireDamage.FlagInFrame`); one flipped bit is enough (`WireBits.OneFlipMakesAFlag`). Two
  flipped bits that move an escape can turn one packet into another (`WireBits.TwoFlipsMoveAnEscape`). Flips in bytes
  that are and stay ordinary, and bursts in such bytes, are caught as in the interior (`WireBits.WireBitsFlipped`,
  `WireBursts.WireBurst`).
- The dispatch loop reads the byte at index 1 of every message. For messages of the serial device that read is in
  range on every run. For a datagram of the client it is in range if and only if the datagram does not have exactly
  one byte; what lies behind that byte decides whether it is forwarded (`Bridge.StrayMatters`,
  `Bridge.OneByteDatagram`), though no receiver ever delivers it (`Bridge.Outbound`).

Proofs that need only the algebra of exclusive or, or only the contract of a recursive function, say so with `hide`.

## Model

| member | source | states |
|---|---|---|
| Fcs.TableEntry | linux-mctp/mctp-bridge/src/MctpSerial.hpp:76-109 | all 256 table entries are eight shifts of their index in the register with polynomial 0x8408 |
| Fcs.TableIsShiftRegister | linux-mctp/mctp-bridge/src/MctpSerial.cpp:263-263 | the table-driven update is the shift-register update, for every register and byte |
| Serial.MctpSerial.CalcFcs | linux-mctp/mctp-bridge/src/MctpSerial.cpp:260-265 | the loop over the table computes the shift register's check of the first `len` bytes |
| Fcs.FcsLinear | linux-mctp/mctp-bridge/src/MctpSerial.cpp:260-265 | the check of a difference is the difference of the checks, for all registers and sequences of one length |
| Fcs.FcsCollision | linux-mctp/mctp-bridge/src/MctpSerial.cpp:260-265 | two sequences of one length share a check if and only if their difference has check zero from a zero register |
| Fcs.FcsInjective | linux-mctp/mctp-bridge/src/MctpSerial.cpp:260-265 | different registers stay different whatever equal bytes follow |
| Fcs.OneByteChangeShows | linux-mctp/mctp-bridge/src/MctpSerial.cpp:260-265 | changing any one byte changes the check |
| Fcs.BurstShows | linux-mctp/mctp-bridge/src/MctpSerial.cpp:260-265 | any error confined to sixteen consecutive bits changes the check |
| Period.PeriodExact | linux-mctp/mctp-bridge/src/MctpSerial.cpp:260-265 | a bit in the register comes back after k shifts if and only if 32767 divides k |
| BitErrors.TwoFlipsShow | linux-mctp/mctp-bridge/src/MctpSerial.cpp:260-265 | two flipped bits leave the check as it was if and only if their distance is a multiple of 32767 |
| Fcs.FcsParity | linux-mctp/mctp-bridge/src/MctpSerial.cpp:260-265 | the check carries the parity of all that entered the register |
| Stuffing.UnstuffStuff | linux-mctp/mctp-bridge/src/MctpSerial.cpp:272-287 | what the sender escapes the receiver's rules recover |
| Stuffing.StuffUnstuff | linux-mctp/mctp-bridge/src/MctpSerial.cpp:427-447 | conversely, every piece the receiver's rules accept is the stuffing of its content |
| Stuffing.StuffOneByteReplaced | linux-mctp/mctp-bridge/src/MctpSerial.cpp:427-447 | an ordinary wire byte replaced by another breaks an escape or changes exactly one content byte |
| Serial.MctpSerial.TransmitFrame | linux-mctp/mctp-bridge/src/MctpSerial.cpp:272-287 | appends the frame to the wire, all but its first and last byte stuffed |
| Serial.MctpSerial.Send | linux-mctp/mctp-bridge/src/MctpSerial.cpp:298-315 | appends to the wire the encoding that `EncodeShape`, `DecodeStuffed` and `RoundTrip` describe |
| Frame.EncodeShape | linux-mctp/mctp-bridge/src/MctpSerial.cpp:298-315 | frame characters at both ends only; exact size, at most 2n + 9; the interior is recovered |
| Frame.InteriorIff | linux-mctp/mctp-bridge/src/MctpSerial.cpp:334-347 | an interior is what a sender of its revision builds if and only if its byte count and check bytes are right |
| Frame.ValidateIsPayload | linux-mctp/mctp-bridge/src/MctpSerial.cpp:330-349 | the receiver's test accepts exactly the interiors that carry a message of 5 to 255 bytes |
| Frame.DecodeStuffed | linux-mctp/mctp-bridge/src/MctpSerial.cpp:298-315 | a sent message decodes to itself if it has 5 to 255 bytes and to nothing otherwise |
| Frame.DecodeExactly | linux-mctp/mctp-bridge/src/MctpSerial.cpp:330-349 | the pieces that decode are exactly those some sender emits, whatever its revision byte |
| Serial.MctpSerial.ValidateRx | linux-mctp/mctp-bridge/src/MctpSerial.cpp:330-349 | decides the receiver's test and records the byte count, in that order |
| Detection.OneByteDetected | linux-mctp/mctp-bridge/src/MctpSerial.cpp:330-349 | no accepted unstuffed interior differs from another in a single byte: revision, count, message or check |
| Detection.BurstDetected | linux-mctp/mctp-bridge/src/MctpSerial.cpp:343-347 | a burst of at most sixteen bits in the covered region, check intact, is always refused |
| Detection.TwoBytesAreABurst | linux-mctp/mctp-bridge/src/MctpSerial.cpp:343-347 | any change of two adjacent bytes is such a burst |
| Detection.AcceptedIsEven | linux-mctp/mctp-bridge/src/MctpSerial.cpp:343-347 | every accepted unstuffed interior has an even number of 1 bits |
| Detection.OddErrorDetected | linux-mctp/mctp-bridge/src/MctpSerial.cpp:343-347 | any odd number of bits flipped in the unstuffed interior, check included, is refused |
| BitErrors.ThreeFlipsRefused | linux-mctp/mctp-bridge/src/MctpSerial.cpp:330-349 | up to three flipped bits anywhere in the unstuffed interior, check included, are refused unless they cancel out |
| BitErrors.CloseIsRefused | linux-mctp/mctp-bridge/src/MctpSerial.cpp:330-349 | an unstuffed interior that differs from an accepted one in one, two, three or any odd number of bits is refused |
| BitErrors.FourFlipsAccepted | linux-mctp/mctp-bridge/src/MctpSerial.cpp:330-349 | three is the most: every accepted unstuffed interior is four flipped bits away from another accepted one |
| BitErrors.BurstAccepted | linux-mctp/mctp-bridge/src/MctpSerial.cpp:330-349 | a burst of at most sixteen bits in three successive bytes anywhere in the unstuffed interior, check included, is accepted if and only if it changes nothing or is one of the differences listed for the border of message and check |
| BitErrors.BorderChangeAccepted | linux-mctp/mctp-bridge/src/MctpSerial.cpp:344-347 | the last message byte and the first check byte changed together are accepted if and only if the differences are 0x91 and 0x85, or none |
| Serial.MctpSerial.UpdateRxFSM | linux-mctp/mctp-bridge/src/MctpSerial.cpp:377-450 | takes exactly the machine's step on one byte: fields, queue, history, and whether a token is due; nothing if no byte was read |
| Serial.MctpSerial.WriteWakeByte | linux-mctp/mctp-bridge/src/MctpSerial.cpp:407-412 | offers the token: accepted, it waits in the pipe; refused, it is lost; the dispatch thread may have run since the push |
| Serial.MctpSerial.EndOfFrame | linux-mctp/mctp-bridge/src/MctpSerial.cpp:396-418 | a valid frame is stripped and queued, its token is due and the receiver waits; otherwise a frame is open |
| Receiver.Refines | linux-mctp/mctp-bridge/src/MctpSerial.cpp:377-450 | on every stream, from either clean state, the machine delivers exactly what the parser says |
| Receiver.CleanPiece | linux-mctp/mctp-bridge/src/MctpSerial.cpp:396-418 | what one piece and its closing character deliver, and the state they leave |
| Receiver.SameAfterFlag | linux-mctp/mctp-bridge/src/MctpSerial.cpp:421-437 | after every frame character the state does not depend on the cutoff |
| Receiver.CutoffExact | linux-mctp/mctp-bridge/src/MctpSerial.cpp:421-437 | a cutoff is indistinguishable from 550 on all streams if and only if it lies between 260 and 65540 |
| Receiver.LooseCutoffLetsTheSizeWrap | linux-mctp/mctp-bridge/src/MctpSerial.cpp:336-336 | with a larger cutoff a message of 65536 bytes is delivered although its byte count says 0 |
| Receiver.GivesUpExactly | linux-mctp/mctp-bridge/src/MctpSerial.cpp:420-425 | a frame of ordinary bytes is given up with exactly the 551st collected byte |
| Receiver.RoundTrip | linux-mctp/mctp-bridge/src/MctpSerial.cpp:298-315 | messages of any lengths, from a clean state: exactly those of 5 to 255 bytes arrive, in order |
| Receiver.DeliveredExactly | linux-mctp/mctp-bridge/src/MctpSerial.cpp:330-336 | one message of any length from a clean state: it arrives if and only if it has 5 to 255 bytes |
| Receiver.RoundTripEndsClean | linux-mctp/mctp-bridge/src/MctpSerial.cpp:377-450 | and the receiver ends clean |
| Streams.Recovery | linux-mctp/mctp-bridge/src/MctpSerial.cpp:396-447 | from any state and any collected bytes at most the first frame is lost, and only if its opening character completes a packet |
| Streams.NoticeableDamageIsContained | linux-mctp/mctp-bridge/src/MctpSerial.cpp:330-349 | a frame whose unstuffed content has a one-byte, burst, odd-bit or up-to-three-bit change is dropped and all frames around it arrive |
| Streams.AnyPiece | linux-mctp/mctp-bridge/src/MctpSerial.cpp:396-447 | a piece of any content between two frame characters delivers what it decodes to and touches no frame around it |
| Streams.DamageIsContained | linux-mctp/mctp-bridge/src/MctpSerial.cpp:414-447 | any piece that does not decode costs nothing but itself |
| WireDamage.OneByteAnywhere | linux-mctp/mctp-bridge/src/MctpSerial.cpp:377-450 | any wire byte of a frame, flags and escapes included, changed into any other: all frames around it arrive, and exactly `Instead`, at most one packet, in its place |
| WireDamage.InsteadNothing | linux-mctp/mctp-bridge/src/MctpSerial.cpp:377-450 | whichever wire byte of whatever frame becomes anything but a flag, nothing arrives in its place |
| WireDamage.WireByteReplaced | linux-mctp/mctp-bridge/src/MctpSerial.cpp:377-450 | hence, in a stream: that frame is dropped and all around it arrive, with no exception for flags, escapes or header |
| WireDamage.FlagInFrame | linux-mctp/mctp-bridge/src/MctpSerial.cpp:396-418 | a flag in place of an inner byte, message of at most 255 bytes: exactly when the rest is delivered as a packet, and which |
| WireBits.WireBitsFlipped | linux-mctp/mctp-bridge/src/MctpSerial.cpp:377-450 | one, two, three or any odd number of bits flipped on the wire in bytes that are and stay ordinary: that frame is dropped, all around it arrive |
| WireBursts.BurstShrinks | linux-mctp/mctp-bridge/src/MctpSerial.cpp:427-450 | bits changed within a window of the stuffed sequence, in bytes that are and stay ordinary, lie within a window of the same size of the content |
| WireBursts.WireBurst | linux-mctp/mctp-bridge/src/MctpSerial.cpp:377-450 | a burst of at most sixteen bits on the wire, in bytes that are and stay ordinary: all frames around it arrive, and nothing in its place except exactly for the listed differences at the border of message and check |
| WireBits.OneFlipMakesAFlag | linux-mctp/mctp-bridge/src/MctpSerial.cpp:377-450 | a frame in which one flipped wire bit makes a flag and delivers another packet, in any stream |
| WireBits.TwoFlipsMoveAnEscape | linux-mctp/mctp-bridge/src/MctpSerial.cpp:377-450 | two different deliverable packets whose frames differ in two wire bits |
| Sharing.SharedFlags | linux-mctp/mctp-bridge/src/MctpSerial.cpp:396-418 | pieces that share their frame characters all arrive if and only if no two neighbours decode, nor the first one outside a frame |
| Sharing.SharingLosesNothing | linux-mctp/mctp-bridge/src/MctpSerial.cpp:400-413 | messages sent that way all arrive if and only if no two deliverable ones are neighbours |
| Sharing.SharingLosesEverySecond | linux-mctp/mctp-bridge/src/MctpSerial.cpp:400-413 | of deliverable messages sent that way exactly the first, third, fifth and so on arrive |
| Streams.RelayIsTransparent | linux-mctp/mctp-bridge/src/MctpBridge.cpp:205-224 | what was decoded from any stream, re-encoded and decoded again, is the same list of packets |
| Streams.Provenance | linux-mctp/mctp-bridge/src/MctpSerial.cpp:396-413 | every delivery has a well-formed frame of its own in the input, in order, sharing no frame character |
| Streams.ReceiverInvariant | linux-mctp/mctp-bridge/src/MctpSerial.cpp:377-450 | after any stream the collected bytes are the content of the current piece, within the cutoff |
| Handoff.NextKeepsInv | linux-mctp/mctp-bridge/src/MctpSerial.cpp:400-413 | every atomic step of either thread keeps the accounting of packets and tokens |
| Handoff.EveryScheduleKeepsInv | linux-mctp/mctp-bridge/src/ReceiveBuffer.cpp:32-53 | under every interleaving popped and queued packets are those pushed, and the queue size equals its pending announcements |
| Handoff.FetchNeverWaits | linux-mctp/mctp-bridge/src/MctpSerial.cpp:457-462 | whoever has read a token finds a packet, and its pop does not block |
| Handoff.Ledger | linux-mctp/mctp-bridge/src/MctpSerial.cpp:407-412 | under every interleaving: the bytes taken in are those that arrive while the thread reads, `lost` counts the refused writes, and the tokens waiting and read are the accepted writes, all counted from the events |
| Handoff.ConsumedFromStream | linux-mctp/mctp-bridge/src/MctpSerial.cpp:405-412 | what was fetched is a prefix of what the bytes that arrived carry; at rest exactly one packet per refused write is missing |
| Serial.MctpSerial.ReadPipe | linux-mctp/mctp-bridge/src/MctpBridge.cpp:206-207 | takes one token if there is one |
| Serial.MctpSerial.Receive | linux-mctp/mctp-bridge/src/MctpSerial.cpp:457-462 | hands out the oldest packet, or an empty one from an empty queue |
| Serial.MctpSerial.RxEmpty | linux-mctp/mctp-bridge/src/MctpSerial.cpp:322-324 | reports whether the queue is empty |
| Serial.MctpSerial.constructor | linux-mctp/mctp-bridge/src/MctpSerial.cpp:43-51 | a new port is at the start of the hand-off |
| Buffers.ReceiveBuffer.Push | linux-mctp/mctp-bridge/src/ReceiveBuffer.cpp:32-36 | appends at the back |
| Buffers.ReceiveBuffer.Pop | linux-mctp/mctp-bridge/src/ReceiveBuffer.cpp:46-53 | takes from the front, or waits exactly if there is nothing |
| Buffers.ReceiveBuffer.TryPop | linux-mctp/mctp-bridge/src/ReceiveBuffer.cpp:62-68 | takes from the front, or yields an empty packet and changes nothing |
| Buffers.ReceiveBuffer.Empty | linux-mctp/mctp-bridge/src/ReceiveBuffer.cpp:75-78 | reports emptiness |
| Bridge.ActKeepsInv | linux-mctp/mctp-bridge/src/MctpBridge.cpp:145-227 | every atomic step of any thread keeps the accounting of both directions |
| Bridge.Outbound | linux-mctp/mctp-bridge/src/MctpBridge.cpp:173-203 | every run: a receiver of this program on the serial line decodes an order-preserving merge of all packets fetched from the kernel's side and of the client's messages of 5 to 255 bytes whose byte 1 is 0x00 or 0xff; the client's messages are exactly the nonempty datagrams handed over, in order, each cut to 256 bytes and taken at a step of its own |
| Bridge.DatagramArrives | linux-mctp/mctp-bridge/src/MctpBridge.cpp:173-190 | a datagram of 5 to 255 bytes taken from the connected client is recorded whole, and heard whole on the line if its byte 1 is 0x00 or 0xff |
| Bridge.OfferedExactly | linux-mctp/mctp-bridge/src/MctpBridge.cpp:173-190 | between any two points of a run the recorded client messages are those handed over at steps that serve the connected client, all of them, in order |
| Bridge.Inbound | linux-mctp/mctp-bridge/src/MctpBridge.cpp:205-225 | every run: each packet fetched from the line is routed once, in order; the client got exactly those with byte 1 0x00 or 0xff that were routed while it was connected and whose send succeeded, each connection state being that of the very step; a receiver of this program at the kernel's side decodes exactly the others by byte 1 |
| Bridge.RunLedger | linux-mctp/mctp-bridge/src/MctpSerial.cpp:377-412 | between any two points of a run each port took in exactly the bytes that arrived while it read, and lost exactly the refused tokens |
| Bridge.TokensServed | linux-mctp/mctp-bridge/src/MctpBridge.cpp:192-208 | every run: each token a pipe accepted is waiting, is being served, or has fetched exactly one packet |
| Bridge.PortsKeepUp | linux-mctp/mctp-bridge/src/MctpBridge.cpp:192-213 | every run: what was fetched is a prefix of what the bytes that arrived carry, no fetch after a token fails or blocks, and all that is queued has 5 to 255 bytes, so that the read of byte 1 is in range |
| Rounds.LinuxAlone | linux-mctp/mctp-bridge/src/MctpBridge.cpp:192-203 | from any reachable state about to wait: a report for the kernel's port alone, with a token there, sends its oldest packet to the serial line and moves nothing else |
| Rounds.TtyAlone | linux-mctp/mctp-bridge/src/MctpBridge.cpp:205-225 | likewise for the serial device: its oldest packet goes to the kernel's side or to the client by its byte 1, and the loop goes on unless a send broke the pipe |
| Rounds.ClientAlone | linux-mctp/mctp-bridge/src/MctpBridge.cpp:173-190 | likewise for the client: the datagram goes out exactly if byte 1 is 0x00 or 0xff |
| Rounds.StepConnects | linux-mctp/mctp-bridge/src/MctpBridge.cpp:148-150 | a client is connected from the step that accepts it to the step that reads an error or an empty datagram from it |
| Rounds.AcceptGoesOn | linux-mctp/mctp-bridge/src/MctpBridge.cpp:148-150 | a round goes on to wait whether or not a client was there; only a failing accept ends the loop |
| Bridge.StrayMatters | linux-mctp/mctp-bridge/src/MctpBridge.cpp:173-190 | the step on the client's socket depends on memory behind the datagram if and only if the datagram has exactly one byte |
| Bridge.OneByteDatagram | linux-mctp/mctp-bridge/src/MctpBridge.cpp:173-190 | a run from the start in which such a datagram is forwarded or not as that memory says, and is heard by nobody either way |
| Bridge.SettledPortsForwardAll | linux-mctp/mctp-bridge/src/MctpBridge.cpp:192-224 | with nothing under way, everything that came in as a frame has gone out as one, but for as many packets at the end as tokens were refused |
| Settling.CanForwardAll | linux-mctp/mctp-bridge/src/MctpBridge.cpp:145-227 | from every reachable point, unless the loop has stopped, finitely many steps in which nothing arrives and no token is refused lead to rest; if none was refused before, everything that came in has gone out there |
| Bridge.TwoBridges | linux-mctp/mctp-bridge/src/MctpBridge.cpp:145-227 | bytes of one bridge fed to another: a receiver of this program behind the far bridge hears the unicast messages the near bridge sent |
| Broadcast.BcastMessenger.AcceptConnection | linux-mctp/mctp-bridge/src/BcastMessenger.cpp:96-105 | connected exactly after a client was taken; throws exactly on a real error |
| Broadcast.BcastMessenger.RecvMessage | linux-mctp/mctp-bridge/src/BcastMessenger.cpp:127-146 | the datagram whole up to 256 bytes, its first 256 beyond; an empty one or an error ends the connection |
| Broadcast.BcastMessenger.SendMessage | linux-mctp/mctp-bridge/src/BcastMessenger.cpp:152-159 | sends only while connected; a failure loses the message, a broken pipe ends the program |
| Dispatch.MctpBridge.constructor | linux-mctp/mctp-bridge/src/MctpBridge.cpp:46-50 | a new bridge is not running, and its ports are at the start of the machine |
| Dispatch.MctpBridge.Open | linux-mctp/mctp-bridge/src/MctpBridge.cpp:102-102 | sets the loop running and leaves the machine at its start |
| Dispatch.MctpBridge.AcceptClient | linux-mctp/mctp-bridge/src/MctpBridge.cpp:148-150 | throws exactly if no client was connected and accepting failed; a connected client is kept, a waiting one taken; is the machine's step |
| Dispatch.MctpBridge.SelectReady | linux-mctp/mctp-bridge/src/MctpBridge.cpp:152-171 | each descriptor is ready exactly if it is reported and, a pipe, holds a token, or, the client, is connected; is the machine's step |
| Dispatch.MctpBridge.HandleClient | linux-mctp/mctp-bridge/src/MctpBridge.cpp:173-190 | the serial wire grows by the encoding of the datagram exactly if a connected, readable client sent it with byte 1 0x00 or 0xff; is the machine's step |
| Dispatch.MctpBridge.HandleLinux | linux-mctp/mctp-bridge/src/MctpBridge.cpp:192-203 | the oldest queued packet is fetched and encoded on the serial wire; is a run of the machine, with the receive threads overtaking between token and packet |
| Dispatch.MctpBridge.HandleTty | linux-mctp/mctp-bridge/src/MctpBridge.cpp:205-225 | the oldest queued packet is fetched and goes to the kernel's wire or to the client by its byte 1; is a run of the machine, likewise |
| Dispatch.MctpBridge.RouteMessage | linux-mctp/mctp-bridge/src/MctpBridge.cpp:212-223 | byte 1 0x00 or 0xff: to the client if one is connected; otherwise onto the kernel's wire; ends the program exactly if that send breaks the pipe |
| Dispatch.MctpBridge.StopRequested | linux-mctp/mctp-bridge/src/MctpBridge.cpp:146-146 | the loop ends exactly if the bridge has been closed |
| Dispatch.MctpBridge.HandleRound | linux-mctp/mctp-bridge/src/MctpBridge.cpp:147-226 | one round, for every behaviour of its environment, is the run `RoundActions` of the machine |
| Dispatch.MctpBridge.Run | linux-mctp/mctp-bridge/src/MctpBridge.cpp:145-227 | the whole loop is the run `ScriptActions`, and stops only at a close, a failing accept or a broken pipe |
| Dispatch.EveryRoundPolls | linux-mctp/mctp-bridge/src/MctpBridge.cpp:146-171 | with none of these, every round tries to accept and waits exactly once, in order |
| Dispatch.MctpBridge.RunOpened | linux-mctp/mctp-bridge/src/MctpBridge.cpp:145-227 | from an opened bridge: what was fetched from both ports, and what the two wires and the client's socket carry afterwards |

## Left out

- Opening, configuring and closing devices, the termios settings, file descriptors, thread start and join: operating-system plumbing. A read is a byte that arrives or does not; a write always succeeds, except to the wake pipe and to the client, where it may fail. `Dispatch.MctpBridge.Open` assumes that opening succeeds.
- Dispatch.MctpBridge.Run: speaks of every finite number of rounds. Timeouts of select() are rounds in which nothing is reported. The receive threads overtake the dispatch thread before each of its calls and between token and packet; overtaking between the emptiness test and the pop is left to modules Handoff and Bridge.
- Serial.MctpSerial.UpdateRxFSM: one function of the source is two methods here, up to the push and from the token on, so that the dispatch thread can run between them. The field `producer` is the thread's place in it; the assignment of the receive state that follows the token is made with the push, since no other thread looks at it.
- The bytes of one frame are written in one step. Only the dispatch thread writes to a port, so nothing can fall between them.
- Bridge.Outbound: what is heard on the serial line, and in Bridge.Inbound and Bridge.TwoBridges on the kernel's side, is what receivers of this program decode. That the kernel's line discipline decodes the same is an assumption; it is not part of this model.
- Broadcast.BcastMessenger.SendMessage: how a send() ends is up to the environment. The program handles SIGINT and SIGTERM only, so that SIGPIPE would end it; the model stops the dispatch thread then and lets the receive threads go on, which promises no less.
- The socket's setup and cleanup, and the states before a client can be accepted.
- Scheduling, timing, the memory model and liveness: what is proved holds at every point of every interleaving; that a point of rest can be reached is proved (`Settling.CanForwardAll`), not that the scheduler reaches it.
- NullModem and SerialInspector copy bytes between terminals and are taken as wires. MctpNetlink, LinuxMctpSerial, the command line, and the Python controllers are not part of this model.
