# hass-sma-rs: verified model

A Dafny model of the byte-level protocol stack that talks to SMA inverters over Bluetooth, of the
session above it and of the supervisor that keeps the session alive, with proofs of what they
guarantee.

* **Codec.** `Stuffing`, `Fcs` (with `Parity`), `Frames` and `Packets` are the byte stuffing, the
  FCS-16 of section C.2 of RFC 1662, the frame builder and parser, and the layer-2 packet codec. `Framer` is the
  incremental frame reader, proved equal to a left-to-right scan of everything it was fed.
  `EndToEnd` joins them: packets encoded, framed, sent back to back and cut anywhere come back
  unchanged. `Receiver` carries that through the receive loop of the transport, which it shows to
  be one of the scripted links below.
* **Session.** `Transports` is the link as a script of what its sends and receives come to.
  `Replies` and `Handshake` say what the receive loops and the handshake make of a script;
  `Session` is the session object, proved to do exactly that and to keep an orderly history.
  `SessionTheorems`, `HandshakeTheorems` and `HistoryTheorems` say what follows for every script
  and every sequence of calls, `LinkTheorems` what it means over a socket. `OutcomeTheorems` tells
  the result of every wait from the arriving frames and failures alone, `Requests` what a device
  reads off every request.
* **Supervisor.** `Reconnect` is the reconnect loop (backoff, sleep detection, grace after a
  yield), and `ReconnectTheorems` what it does in seconds. `Cooldown` is the poll loop of one session with its per-target cooldown ladder.
* **Readers.** `Records`, `Status` and `EventLog` are the walkers over reply bodies.

Objects the program updates in place are classes here, and their `Valid()` predicates are what
holds over any sequence of calls. Bytes and wire words are bit-vectors; lengths and packet ids are
numbers, with truncation to sixteen bits and the fifteen-bit id mask written out. A byte-order or
bit-level step is kept in a small function of its own so that the lemmas above it need not see it.

## Where the code and its documentation disagree

The model follows the code.

* The parser strips the FCS without checking it (`FrameTheorems.ChecksumNeverRead`), although the
  FCS would catch any corruption within sixteen consecutive bits (`Fcs.BurstDetected`) and any odd
  number of flipped bits (`Parity.OddFlipsDetected`).
* Packet ids are documented as fifteen bits, but the counter runs over sixteen: an id of 32768 or
  more is never matched by any reply (`SessionTheorems.HighIdNeverMatches`), and below that the
  echo of the current request always is (`HistoryTheorems.EchoAnswersQuery`).
* A push frame is documented to run to the end of the frame. One sent as it is does exactly when
  it holds no 0x7D and does not end in 0x7E (`FrameTheorems.RawPushIff`); others lose bytes at the
  end, are changed or are refused (`FrameTheorems.UnstuffedPushMisread`,
  `FrameTheorems.EscapedPushLost`). A stuffed one always does (`FrameTheorems.Layer2RoundTrip`).
* A 0x0100 logon reply is documented as a hard failure; the loop goes on, and reports the code of
  the last refusal (`HandshakeTheorems.LogonOutcome`, `HandshakeTheorems.RefusalThenAcceptance`).
* "event-log" errors are documented as errors of one device; a refused event-log request is tagged
  "event-log-retcode", which counts as fatal (`HistoryTheorems.EventLogFailures`, with a reply that
  gets there in `HistoryTheorems.RefusalIsFatal`).
* The event-log parser expects joined record regions, but the session joins whole bodies, so the
  prefixes of all fragments but the first are read as record data. Parsing any joined bodies gives
  what parsing each gives exactly when the joined payload leads with the records of all of them,
  without the prefixes, and what follows is too short for a record or starts with a blank half
  (`EventLog.JoinedBodiesIff`; in terms of the fragments, `EventLog.FragmentsReturnIff`). One
  fragment always does, two only if every record of the second is its prefix twice over
  (`EventLog.JoinedParsesIff`), three with records never (`EventLog.ThreeNeverReturn`), while four
  may (`EventLog.FourMayReturn`). `EventLog.JoinedRecordIsShifted` is an input that fails.
* `encode_l2` is documented to write two zero words before the id; it writes the error code in the
  first, so they are zero exactly when that is (`Packets.ZeroWordsIff`).

## Model

| member | source | states |
|---|---|---|
| Stuffing.StuffBytes | crates/sma-bt-protocol/src/frame.rs:297-308 | the stuffing loop computes the stuffed form of its input |
| Stuffing.UnstuffBytes | crates/sma-bt-protocol/src/frame.rs:360-374 | the unstuffing loop computes the unstuffed form, or the truncated-escape error |
| Stuffing.StuffConcat | crates/sma-bt-protocol/src/frame.rs:297-308 | stuffing distributes over concatenation |
| Stuffing.StuffIsClean | crates/sma-bt-protocol/src/frame.rs:297-308 | a stuffed region holds no delimiter or flow-control byte, and is longer by the number of special bytes |
| Stuffing.StuffedByte | crates/sma-bt-protocol/src/frame.rs:297-308 | which five bytes are escaped, and to what |
| Stuffing.StuffAvoids | crates/sma-bt-protocol/src/frame.rs:297-308 | a stuffed region holds none of 7E, 11, 12 and 13 |
| Stuffing.StuffLength | crates/sma-bt-protocol/src/frame.rs:297-308 | it is longer than its data by the number of 7D, 7E, 11, 12 and 13 in it |
| Stuffing.UnstuffInvertsStuff | crates/sma-bt-protocol/src/frame.rs:297-374 | unstuffing inverts stuffing on every input |
| Stuffing.UnstuffKeepsIff | crates/sma-bt-protocol/src/frame.rs:360-374 | unstuffing leaves a region as it is exactly when it holds no escape byte |
| Stuffing.UnstuffFailsIff | crates/sma-bt-protocol/src/frame.rs:360-374 | unstuffing fails exactly when the run of escapes at the end is odd |
| Fcs.BuildTable | crates/sma-bt-protocol/src/fcs.rs:11-29 | the nested loops fill the table with eight register steps of each index |
| Fcs.Fcs16.Update | crates/sma-bt-protocol/src/fcs.rs:50-52 | one table-driven update is the bitwise absorption of the byte |
| Fcs.Fcs16.UpdateSlice | crates/sma-bt-protocol/src/fcs.rs:56-60 | a slice is absorbed byte by byte, in order |
| Fcs.Compute | crates/sma-bt-protocol/src/fcs.rs:71-75 | the one-call form is the checksum of the whole input |
| Fcs.CheckValue | crates/sma-bt-protocol/src/fcs.rs:82-87 | the checksum of the digits 1 to 9 is 906E, the standard vector |
| Fcs.TableStepIsBitwise | crates/sma-bt-protocol/src/fcs.rs:11-52 | for every state and byte the table-driven update equals eight steps of the 0x8408 shift register |
| Fcs.FcsLeavesGoodResidue | crates/sma-bt-protocol/src/fcs.rs:50-66 | data followed by its FCS, low byte first, leaves the register at 0xF0B8 |
| Fcs.AbsorbIsInjective | crates/sma-bt-protocol/src/fcs.rs:50-52 | for a fixed byte, different states stay different |
| Fcs.PairIsInjective | crates/sma-bt-protocol/src/fcs.rs:50-52 | from a fixed state, two bytes can be told from the state they leave |
| Fcs.AdjacentCorruptionDetected | crates/sma-bt-protocol/src/fcs.rs:71-75 | messages that differ only inside two adjacent bytes have different checksums |
| Fcs.BurstIsInjective | crates/sma-bt-protocol/src/fcs.rs:50-52 | from a fixed state, three bytes can be told from the state they leave if the first agree in their low bits and the last in the others |
| Fcs.BurstDetected | crates/sma-bt-protocol/src/fcs.rs:71-75 | messages of one length that differ only inside sixteen consecutive bits have different checksums, wherever in a byte the bits start |
| Parity.ShiftKeepsParity | crates/sma-bt-protocol/src/fcs.rs:11-29 | a step of the 0x8408 shift register keeps parity |
| Parity.AbsorbAddsParity | crates/sma-bt-protocol/src/fcs.rs:50-52 | an update adds the parity of the byte to that of the register |
| Parity.OddFlipsDetected | crates/sma-bt-protocol/src/fcs.rs:71-75 | messages of one length that differ in an odd number of bits, wherever they are, have different checksums |
| Frames.FrameBuilder.Extend | crates/sma-bt-protocol/src/frame.rs:234-237 | appends to the payload |
| Frames.FrameBuilder.Build | crates/sma-bt-protocol/src/frame.rs:240-245 | the bytes emitted are the wire form of the frame |
| Frames.FrameBuilder.BuildL1Only | crates/sma-bt-protocol/src/frame.rs:247-263 | header and raw payload |
| Frames.FrameBuilder.BuildL2Wrapped | crates/sma-bt-protocol/src/frame.rs:265-293 | header, separator, stuffed payload with checksum, delimiter |
| Frames.NextDelimiter | crates/sma-bt-protocol/src/frame.rs:338-344 | finds the first delimiter from a position on |
| FrameTheorems.SignatureWord | crates/sma-bt-protocol/src/frame.rs:121-131 | comparing the four signature bytes is comparing the little-endian word |
| FrameTheorems.HeaderFields | crates/sma-bt-protocol/src/frame.rs:90-106 | every field a parser reads off a built header is the one written, the length modulo 65536 |
| FrameTheorems.Layer2RoundTrip | crates/sma-bt-protocol/src/frame.rs:121-174 | all observed layer-2 shapes (separator or not, any trailer value or none) parse back to their payload |
| FrameTheorems.ChecksumNeverRead | crates/sma-bt-protocol/src/frame.rs:155-163 | frames that differ only in the checksum value parse to the same frame |
| FrameTheorems.OverlongIsRefused | crates/sma-bt-protocol/src/frame.rs:134-139 | a frame too long for its length field is refused |
| FrameTheorems.L1RoundTripIff | crates/sma-bt-protocol/src/frame.rs:175-195 | a control frame comes back unchanged exactly when it fits the length field and its payload does not look like layer 2 |
| FrameTheorems.L2RoundTripIff | crates/sma-bt-protocol/src/frame.rs:133-174 | a layer-2 frame comes back unchanged exactly when it fits the length field and its payload starts with the signature |
| FrameTheorems.Layer2FailsIff | crates/sma-bt-protocol/src/frame.rs:147-167 | a layer-2 payload is unreadable exactly when its stuffed region ends in a cut-off escape; the two-byte shortage never happens |
| FrameTheorems.ParseOutcome | crates/sma-bt-protocol/src/frame.rs:79-197 | for every input, exactly when a parse succeeds and exactly when it fails in which way |
| FrameTheorems.WireHeaderSums | crates/sma-bt-protocol/src/frame.rs:247-285 | every wire starts with 7E and its length, low byte first, and its first four bytes cancel out under exclusive or |
| FrameTheorems.ParsedHeaderSums | crates/sma-bt-protocol/src/frame.rs:79-99 | so does every frame the parser takes, with its whole length declared |
| FrameTheorems.ParsesIff | crates/sma-bt-protocol/src/frame.rs:79-197 | a parse succeeds exactly on such a header, unless the stuffed region ends in a cut-off escape |
| FrameTheorems.HeaderChangeRefused | crates/sma-bt-protocol/src/frame.rs:94-99 | a frame with any one of its first four bytes changed is refused |
| FrameTheorems.ParseFailures | crates/sma-bt-protocol/src/frame.rs:79-197 | what each parse error says about the input; no other error is possible |
| FrameTheorems.BlobAgreesWithFrame | crates/sma-bt-protocol/src/frame.rs:317-357 | the wire bytes of a built frame from offset 18 on, with any junk after them, read on their own as the same payload as the frame |
| FrameTheorems.BuiltFrameHasGoodFcs | crates/sma-bt-protocol/src/frame.rs:265-292 | the stuffed region of a built frame, unstuffed, is the payload and two bytes and leaves the register at 0xF0B8 |
| FrameTheorems.RawPushIff | crates/sma-bt-protocol/src/frame.rs:140-167 | a push sent as it is comes back unchanged exactly when it fits the length field, starts with the signature, holds no 0x7D and does not end in 0x7E |
| FrameTheorems.UnstuffedPushMisread | crates/sma-bt-protocol/src/frame.rs:147-167 | a raw push without special bytes before its final delimiter byte loses its last three bytes |
| FrameTheorems.EscapedPushLost | crates/sma-bt-protocol/src/frame.rs:147-167 | raw pushes with an escape byte: one that is refused, one that comes back changed |
| Packets.EncodeL2 | crates/sma-bt-protocol/src/packet.rs:61-88 | the encoder with its reused scratch array writes the header fields in order and then the body |
| Packets.ZeroWordsIff | crates/sma-bt-protocol/src/packet.rs:56-82 | the two words before the id are zero exactly when the error code is |
| Packets.EncodedFields | crates/sma-bt-protocol/src/packet.rs:61-88 | where in the encoded packet each field stands, byte range by byte range |
| Packets.SignatureAndId | crates/sma-bt-protocol/src/packet.rs:61-88 | it starts with FF 03 60 65, and its last header word is the id with the top bit set, low byte first |
| Packets.DecodeInvertsEncode | crates/sma-bt-protocol/src/packet.rs:61-116 | decoding gives the packet back with its id cut to fifteen bits |
| Packets.PacketRoundTripIff | crates/sma-bt-protocol/src/packet.rs:84-113 | a packet survives the wire exactly when its id is below 32768 |
| Packets.EncodeInvertsDecodeIff | crates/sma-bt-protocol/src/packet.rs:94-116 | encoding inverts decoding exactly when the bytes a decoder ignores have the values a sender writes |
| Framer.FrameReader.Push | crates/bluez-transport/src/framer.rs:48-52 | after any pushes and pops the frames handed out and queued and the bytes held are those of the scan of everything fed |
| Framer.FrameReader.PushByte | crates/bluez-transport/src/framer.rs:54-103 | one byte advances the state as the scan does; resynchronisation terminates |
| Framer.FrameReader.Replay | crates/bluez-transport/src/framer.rs:77-88 | replaying three bytes into an empty reader scans them, without a second header check |
| Framer.FrameReader.PopFrame | crates/bluez-transport/src/framer.rs:106-108 | hands out the oldest queued frame |
| Framer.ScanAppend | crates/bluez-transport/src/framer.rs:54-103 | the scan of a stream does not depend on how it is cut |
| FramerTheorems.ScanPartitions | crates/bluez-transport/src/framer.rs:54-103 | emitted frames, dropped bytes and held bytes partition the stream in order |
| FramerTheorems.SegmentsAreForced | crates/bluez-transport/src/framer.rs:54-103 | a byte is dropped only where no header starts, a frame taken only where one does and as long as it declares |
| FramerTheorems.EmittedAreWellFramed | crates/bluez-transport/src/framer.rs:66-102 | every frame handed out has a good header and its declared length, between 18 and 2048 |
| FramerTheorems.HeaderAtIff | crates/bluez-transport/src/framer.rs:66-75 | a header is four bytes that start with 7E, cancel out, and declare 18 to 2048 |
| FramerTheorems.HeaderChangeSeen | crates/bluez-transport/src/framer.rs:66-88 | one changed byte and it is no header |
| FramerTheorems.Resync | crates/bluez-transport/src/framer.rs:66-88 | garbage in which no header starts costs none of the frames after it |
| FramerTheorems.ShortScan | crates/bluez-transport/src/framer.rs:77-88 | fewer than four bytes never complete a frame |
| EndToEnd.ReceiveWireIff | crates/sma-bt-protocol/src/frame.rs:79-293 | one frame is received as the message sent exactly under the stated conditions on length, payload and id |
| EndToEnd.DeliveredUnchanged | crates/bluez-transport/src/framer.rs:48-103 | the stream of any sendable messages is scanned, parsed and decoded into exactly those messages, with nothing left over |
| EndToEnd.ReceiveChunks | crates/bluez-transport/src/framer.rs:48-108 | fed chunk by chunk, however the stream is cut, a fresh reader hands out exactly the messages sent and holds nothing back |
| EndToEnd.DeliveredIffSendable | crates/bluez-transport/src/framer.rs:24-103 | for any list of messages, the sender's conditions on each are exactly what delivery needs |
| EndToEnd.BodyFits | crates/bluez-transport/src/framer.rs:26-28 | a packet body of up to 984 bytes fits the reader's limit whatever has to be escaped |
| EndToEnd.EmittedFrameParses | crates/sma-bt-protocol/src/frame.rs:79-197 | a frame the reader hands out fails to parse exactly when its stuffed region ends in a cut-off escape |
| EndToEnd.DecodeOfParsed | crates/sma-bt-protocol/src/packet.rs:94-100 | a control frame never decodes as a packet; a layer-2 frame fails to exactly when its payload is under 28 bytes |
| Receiver.RfcommTransport.RecvFrame | crates/bluez-transport/src/rfcomm.rs:175-216 | frames come out in order, every byte read stays in the reader even if the receive fails, no complete frame is withheld, and nothing is read beyond a complete frame, a failed read or a passed deadline; each receive takes the next of the items the link is a script of |
| Receiver.RfcommTransport.ReadOnce | crates/bluez-transport/src/rfcomm.rs:188-208 | one read: its bytes go through the reader before anything else is decided, and a complete frame is handed out |
| Receiver.ReceivedIsSent | crates/bluez-transport/src/rfcomm.rs:175-216 | over any sequence of receives on reads that carry some messages, the frames returned are received as the first of those messages in order, and as all of them once everything is read and nothing queued |
| Receiver.ReceivesBringAll | crates/bluez-transport/src/rfcomm.rs:175-216 | whatever fails or times out in between, successive receives bring exactly the frames the reads complete, in order |
| Receiver.IntactBringsFrames | crates/bluez-transport/src/rfcomm.rs:175-216 | on a link that neither fails nor times out they bring nothing else |
| Transports.Transport.SendFrame | crates/bluez-transport/src/mock.rs:58-64 | records the frame and follows the script; fails once closed |
| Transports.Transport.RecvFrame | crates/bluez-transport/src/mock.rs:66-75 | takes the next scripted item; fails once closed or exhausted |
| Transports.Transport.Close | crates/bluez-transport/src/mock.rs:77-80 | closes, and nothing else |
| Session.Session.constructor | crates/inverter-client/src/session.rs:133-143 | a new session is disconnected, with id 0 and no identity |
| Session.Session.NextPcktid | crates/inverter-client/src/session.rs:149-152 | the id wraps over sixteen bits and skips 0 |
| Session.Session.RecvUntilL1Ctrl | crates/inverter-client/src/session.rs:158-202 | the wait is the listening function for frames with the given control word, with a budget of 12 |
| Session.Session.RecvL2WithPktId | crates/inverter-client/src/session.rs:208-282 | the wait is the listening function for replies with the given id, with a budget of 16 |
| Session.Session.RecvInitFromTarget | crates/inverter-client/src/session.rs:288-332 | the nested wait for the init reply of one device |
| Session.Session.RecvLogonReply | crates/inverter-client/src/session.rs:514-588 | the nested logon wait with its last refusal |
| Session.Session.HandshakeAndLogon | crates/inverter-client/src/session.rs:349-611 | result, state, frames sent, receives made, id and identity are those of the staged handshake function; the history grows by the opening, the frames sent, and a login exactly on success |
| Session.Session.Greet | crates/inverter-client/src/session.rs:353-447 | announce, hello, echo, topology |
| Session.Session.Identify | crates/inverter-client/src/session.rs:449-473 | init, and the identity from its reply |
| Session.Session.LogOn | crates/inverter-client/src/session.rs:475-588 | logoff, logon, and the logon verdict |
| Session.Session.QueryForDevice | crates/inverter-client/src/session.rs:632-675 | refused without any traffic unless logged in; else one frame, recorded as a query, and one wait for its id |
| Session.Session.DoQuery | crates/inverter-client/src/session.rs:617-621 | queries the device the handshake identified |
| Session.Session.QueryEventLogForDevice | crates/inverter-client/src/session.rs:687-747 | refused without any traffic unless logged in; else one frame, recorded as an event-log request, and the joined fragments |
| Session.Session.CollectFragments | crates/inverter-client/src/session.rs:717-746 | the fragment loop joins the bodies the fragment function lists |
| Session.Session.Close | crates/inverter-client/src/session.rs:750-754 | disconnects and closes, sends nothing |
| Session.Session.GracefulClose | crates/inverter-client/src/session.rs:766-787 | exactly one logoff attempt if logged in, none otherwise, then closed |
| SessionTheorems.ListenStops | crates/inverter-client/src/session.rs:213-281 | where a wait stops, what it returns there and how much it consumes |
| SessionTheorems.ListenSucceedsIff | crates/inverter-client/src/session.rs:213-281 | a wait succeeds exactly when an accepted frame comes within the budget and before a failed receive; it returns the first and consumes through it |
| SessionTheorems.ListenFailures | crates/inverter-client/src/session.rs:159-201 | a failed wait reports silence or a transport error, within its budget |
| SessionTheorems.WaitFinds | crates/inverter-client/src/session.rs:213-281 | a wait from any place of the stream returns the first accepted frame there and consumes through it |
| SessionTheorems.WaitFindsOrStops | crates/inverter-client/src/session.rs:213-281 | a wait from any place of the stream finds such a frame, or runs out of receives or meets a failed one first |
| SessionTheorems.HeardIsForced | crates/inverter-client/src/session.rs:213-281 | the places where successive waits find their frames are determined by the stream |
| SessionTheorems.NextIdIsPositive | crates/inverter-client/src/session.rs:149-152 | an id is never 0 |
| SessionTheorems.ConsecutiveIdsDiffer | crates/inverter-client/src/session.rs:149-152 | any 32767 consecutive ids differ in the fifteen bits on the wire |
| SessionTheorems.IdsRepeatAfter32767 | crates/inverter-client/src/session.rs:149-152 | the next one can coincide: the bound is exact |
| SessionTheorems.EchoMatchesIff | crates/inverter-client/src/session.rs:222-269 | a reply echoing an id is taken for a request exactly when the request's id equals its fifteen bits, and carries the body through |
| SessionTheorems.HighIdNeverMatches | crates/inverter-client/src/session.rs:258-269 | no reply matches an id of 32768 or more |
| SessionTheorems.OldEchoesNeverMatch | crates/inverter-client/src/session.rs:213-281 | the echo of any of the 32766 requests before is never taken for the current reply; the current echo is exactly when its id is below 32768 |
| Requests.AnnounceBytes | crates/inverter-client/src/session.rs:360-367 | the announce frame, byte by byte |
| Requests.EchoBytes | crates/inverter-client/src/session.rs:402-414 | the echo frame, byte by byte, with the network id from the hello |
| Requests.AnnounceIsRead | crates/inverter-client/src/session.rs:360-367 | it is received as a control frame to the address 1.0.0 with control word 0201 and the text ver |
| Requests.EchoIsRead | crates/inverter-client/src/session.rs:402-414 | it is received as a control frame to the device with control word 2 and that body |
| Requests.QueryIsRead | crates/sma-bt-protocol/src/commands.rs:97-116 | with an id below 32768 a query is received as a packet with that id to the given device, naming its command and range of records |
| Requests.EventLogIsRead | crates/sma-bt-protocol/src/commands.rs:122-140 | so is an event-log request, naming its window of time |
| Requests.InitIsRead | crates/sma-bt-protocol/src/auth.rs:57-66 | an init request is received as a packet to every device with an empty command |
| Requests.LogoffIsRead | crates/sma-bt-protocol/src/auth.rs:70-80 | so is a logoff with its command words |
| Requests.LogonIsRead | crates/sma-bt-protocol/src/auth.rs:87-110 | a logon is received with the group, a timeout of 900 seconds, the time, and twelve bytes that give the first twelve of the password back, and zero after its end, once the key of the group is taken off |
| HandshakeTheorems.LogonOutcome | crates/inverter-client/src/session.rs:514-588 | logon succeeds exactly when a matching reply with code 0 is seen, and returns the first; else it reports the last refusal, or silence |
| HandshakeTheorems.InitOutcome | crates/inverter-client/src/session.rs:288-332 | the init wait returns the first reply with our id from the device that said hello |
| HandshakeTheorems.ControlFramesArrived | crates/inverter-client/src/session.rs:294-298 | every frame the nested loops see really arrived with control word 1 |
| HandshakeTheorems.ControlFramesHeard | crates/inverter-client/src/session.rs:158-202 | the frames a nested loop sees are those with control word 1 in stream order, each within twelve receives of the one before, up to its turns or the first such wait that fails |
| HandshakeTheorems.InitFollows | crates/inverter-client/src/session.rs:288-332 | where the stream brings the init reply of the device that said hello, the init wait returns it and consumes through it |
| HandshakeTheorems.InitFound | crates/inverter-client/src/session.rs:288-332 | the init wait succeeds only there |
| HandshakeTheorems.LogonFollows | crates/inverter-client/src/session.rs:514-588 | where the stream brings the first acceptance, the logon wait returns it, whatever was refused before |
| HandshakeTheorems.LogonFound | crates/inverter-client/src/session.rs:514-588 | the logon wait succeeds only there |
| HandshakeTheorems.RefusalThenAcceptance | crates/inverter-client/src/session.rs:549-561 | after a refusal with code 0x0100 an acceptance still logs on, and a timeout makes that code the result |
| HandshakeTheorems.WelcomeFollows | crates/inverter-client/src/session.rs:349-611 | if the sends go out and hello, topology, init reply and acceptance come in time, the handshake logs in, receives exactly through the acceptance and stores the identity of the init reply |
| HandshakeTheorems.HandshakeSucceedsIff | crates/inverter-client/src/session.rs:349-611 | the handshake succeeds exactly when all of that comes, for every script |
| HandshakeTheorems.HandshakeSound | crates/inverter-client/src/session.rs:349-611 | for every script: at most 397 receives, frames sent a prefix of the five-frame script with consecutive ids, logged in exactly on success, every error fatal, identity from an init reply of the device that said hello |
| OutcomeTheorems.AnswerMeans | crates/inverter-client/src/session.rs:222-269 | what answers a request: a frame with a layer-2 packet with its id |
| OutcomeTheorems.AcceptanceMeans | crates/inverter-client/src/session.rs:522-541 | what accepts a logon: a frame with a packet with its id and code 0 |
| OutcomeTheorems.InitMeans | crates/inverter-client/src/session.rs:299-325 | what answers an init request: a frame from the device that said hello with a packet with its id |
| OutcomeTheorems.HelloMeans | crates/inverter-client/src/session.rs:380-397 | what makes a hello usable, and the error each other frame gives |
| OutcomeTheorems.WaitStopsAt | crates/inverter-client/src/session.rs:158-202 | a wait in vain: a timeout or a used-up budget is silence in that phase, any other failed receive is an error of the transport |
| OutcomeTheorems.HelloStops | crates/inverter-client/src/session.rs:368-397 | the handshake when the announce cannot be sent or no usable hello answers it |
| OutcomeTheorems.EchoNotSent | crates/inverter-client/src/session.rs:402-415 | when the echo cannot be sent |
| OutcomeTheorems.TopologyStops | crates/inverter-client/src/session.rs:158-202 | when no topology frame comes: after twelve others, a timeout or another failure |
| OutcomeTheorems.InitNotSent | crates/inverter-client/src/session.rs:452-457 | when the init request cannot be sent |
| OutcomeTheorems.InitStops | crates/inverter-client/src/session.rs:288-332 | when no init reply comes: after sixteen other replies, twelve other frames, a timeout or another failure |
| OutcomeTheorems.IdentityStored | crates/inverter-client/src/session.rs:466-473 | the identity the session stores is that in the init reply |
| OutcomeTheorems.LogonNotSent | crates/inverter-client/src/session.rs:475-503 | when the logoff or the logon cannot be sent |
| OutcomeTheorems.LogonOnFrames | crates/inverter-client/src/session.rs:514-588 | of the frames with control word 1 that come in time after the logon, it succeeds exactly if one carries the logon id and code 0; else it reports the code of the last that carries the id, or silence if none does |
| OutcomeTheorems.SettledOnFrames | crates/inverter-client/src/session.rs:515-587 | the same for any list of such frames |
| OutcomeTheorems.StrayIgnored | crates/inverter-client/src/session.rs:530-532 | a reply with another id never changes the result, whatever its code |
| OutcomeTheorems.StrayThenRefusal | crates/inverter-client/src/session.rs:530-575 | a late reply to an earlier request with code 0, then a refusal, then nothing: the logon fails with the code of the refusal |
| OutcomeTheorems.SuccessOnFrames | crates/inverter-client/src/session.rs:349-611 | behind every handshake that succeeds there are a usable hello, an arrived init reply with the init id from the device that said it, whose identity is stored, and an arrived reply with the logon id and code 0 |
| HistoryTheorems.LoginBefore | crates/inverter-client/src/session.rs:638-698 | every query, event-log and logoff frame has a login before it with no close or logoff in between |
| HistoryTheorems.OneLogoffPerLogin | crates/inverter-client/src/session.rs:766-787 | between any two graceful logoffs there is a login |
| HistoryTheorems.NoQueryAfterLogoff | crates/inverter-client/src/session.rs:638-787 | nothing is asked after a logoff, close or new handshake until the next login |
| HistoryTheorems.YieldTeardown | crates/daemon/src/main.rs:764-918 | the double close on the yield path attempts exactly one logoff |
| HistoryTheorems.QueryFailures | crates/inverter-client/src/session.rs:50-67 | a query in a logged-in session fails only with a fatal transport error or with silence, which is not fatal |
| HistoryTheorems.QuerySucceedsIff | crates/inverter-client/src/session.rs:632-675 | a query succeeds exactly when its frame is sent and a reply with its id comes in time; it returns the first such body |
| OutcomeTheorems.QueryNotSent | crates/inverter-client/src/session.rs:643-657 | a query that cannot be sent fails with the error of the transport, one of the session |
| OutcomeTheorems.QueryOnFrames | crates/inverter-client/src/session.rs:208-282 | what a query comes to after fewer than sixteen frames that do not answer it: an answer gives its body, a timeout is silence of the device, any other failure is one of the session; after sixteen it is silence |
| HistoryTheorems.EchoAnswersQuery | crates/inverter-client/src/session.rs:643-674 | a device that echoes the id gets its body through exactly when the id is below 32768 |
| HistoryTheorems.QueryWithHighIdFails | crates/inverter-client/src/session.rs:643-657 | with an id of 32768 or more every query fails |
| HistoryTheorems.EventLogAggregates | crates/inverter-client/src/session.rs:717-746 | an event-log call succeeds exactly when its frame is sent and the matching replies in the stream run, all with code 0, to the first of at most twelve bytes or to the thirty-second; its result joins exactly their bodies |
| HistoryTheorems.EventLogFailures | crates/inverter-client/src/session.rs:717-725 | it is refused exactly when one of these replies has another code; of all its errors only silence leaves the session usable |
| OutcomeTheorems.EventLogStops | crates/inverter-client/src/session.rs:208-282 | an event-log call that waits in vain for its next fragment: a timeout or sixteen other frames is silence, any other failure is one of the session |
| HistoryTheorems.EventLogReadIff | crates/inverter-client/src/session.rs:717-746 | the result of a successful call is read as the records of the replies it joined exactly when its payload leads with them, without the prefixes in between |
| HistoryTheorems.RefusalIsFatal | crates/inverter-client/src/session.rs:717-725 | a reply to an event-log request with another code makes the call fail with an error fatal to the session |
| HistoryTheorems.AnswersMean | crates/daemon/src/main.rs:811-849 | what the poll loop makes of a query: answered exactly when a reply came in time, a failed device exactly on silence, a failed session exactly on a transport error |
| HistoryTheorems.PollVerdict | crates/daemon/src/main.rs:811-849 | the poll of a device is good exactly when every query is answered; else the first that is not decides, against the device on silence and against the session on a transport error |
| LinkTheorems.MessageMatches | crates/inverter-client/src/session.rs:222-269 | the wire form of a message is taken for the reply to a request exactly when it is a packet with its id |
| LinkTheorems.FramesBrought | crates/bluez-transport/src/rfcomm.rs:175-216 | on a link that carries some messages, whatever fails or comes late, the frames that arrive are those of the messages not yet received, in order |
| LinkTheorems.QueryOverChunks | crates/inverter-client/src/session.rs:632-675 | over a socket, however the bytes are cut and whatever fails or comes late, a query succeeds exactly when it is sent, one of the next sixteen messages is a packet with its id and no receive fails before that is in; it returns the body of the first as it was sent |
| LinkTheorems.QueryOverIntactLink | crates/inverter-client/src/session.rs:632-675 | on a link that neither fails nor comes late, it succeeds exactly when it is sent and one of the next sixteen messages is a packet with its id |
| Reconnect.BackoffStaysInRange | crates/daemon/src/main.rs:401-403 | the backoff stays within 2 and 60 seconds |
| Reconnect.NoDownsInGrace | crates/daemon/src/main.rs:489-514 | while the grace after a yield is live, no host-down failure counts |
| Reconnect.SleepNeedsThreeDowns | crates/daemon/src/main.rs:528-534 | a ten-minute wait is never chosen in the grace, and only after three host-down failures outside it since the last connect |
| Reconnect.SleepLasts | crates/daemon/src/main.rs:528-534 | once asleep, every failed connect waits ten minutes until one succeeds |
| Reconnect.OfflineOncePerOutage | crates/daemon/src/main.rs:495-507 | between two offline announcements there is a successful handshake |
| Reconnect.TransientLadder | crates/daemon/src/main.rs:533-538 | outside the grace, a run of other failures doubles the wait each time, up to a minute |
| Reconnect.AttemptsSpaced | crates/daemon/src/main.rs:528-536 | a failed connect comes no earlier than the wait after any earlier one allows |
| Reconnect.SleepRate | crates/daemon/src/main.rs:528-534 | asleep, failed connects in a row are at least ten minutes apart each |
| Reconnect.GraceRetriesBounded | crates/daemon/src/main.rs:408-409 | one grace sees at most twelve host-down failures |
| Reconnect.LadderValues | crates/daemon/src/main.rs:401-403 | after a connect the ladder is 2, 4, 8, 16, 32 and then 60 seconds |
| ReconnectTheorems.GraceLasts | crates/daemon/src/main.rs:489-514 | for 180 seconds after a yield with no connect since, a host-down failure waits 15 seconds, is not announced and does not count; from then on it counts |
| ReconnectTheorems.CountsWithoutYield | crates/daemon/src/main.rs:489-514 | without a yield since the last connect every host-down failure counts |
| ReconnectTheorems.CounterMeans | crates/daemon/src/main.rs:489-538 | a connect clears the counter, a failure adds one at most; at three it waits ten minutes and below at most one, and the third is the one that is announced |
| ReconnectTheorems.RejectionPauses | crates/daemon/src/main.rs:554-564 | each rejected session costs five seconds on top of the wait before it |
| ReconnectTheorems.AtFirst | crates/daemon/src/main.rs:533-538 | the first failures that are not host-down wait 2, 4, 8, 16 and 32 seconds and then a minute each |
| ReconnectTheorems.AfterServed | crates/daemon/src/main.rs:533-542 | so do those after a session that was served |
| ReconnectTheorems.AfterRejected | crates/daemon/src/main.rs:554-564 | after a rejected one they wait 4, 8, 16 and 32 seconds and then a minute each |
| ReconnectTheorems.ServedThenDown | crates/daemon/src/main.rs:489-538 | after a served session three host-down failures wait 2, 4 and 600 seconds, and the third announces the outage |
| ReconnectTheorems.AfterYield | crates/daemon/src/main.rs:764-780 | in the 180 seconds after a yield host-down failures wait 15 seconds each and others 2, and none is announced |
| Reconnect.Supervisor.OnConnectFailed | crates/daemon/src/main.rs:482-540 | wait, announcement, streak, backoff and deadline are what the history calls for |
| Reconnect.Supervisor.OnConnected | crates/daemon/src/main.rs:476-542 | a connect resets streak, deadline and backoff |
| Reconnect.Supervisor.OnHandshakeFailed | crates/daemon/src/main.rs:554-564 | a failed handshake doubles the backoff |
| Reconnect.Supervisor.OnHandshakeDone | crates/daemon/src/main.rs:597-605 | a handshake ends the outage |
| Reconnect.Supervisor.OnYield | crates/daemon/src/main.rs:764-780 | a yield starts the grace |
| Reconnect.Supervisor.RunInverter | crates/daemon/src/main.rs:472-920 | over any run of rounds with a clock that never goes back and sleeps that last, the history grows by what each round adds, in order, stays lawful, and the variables hold what it says |
| Reconnect.RunsAreLawful | crates/daemon/src/main.rs:472-920 | what the rounds of any run add makes a lawful history |
| Cooldown.Poller.TakeTurn | crates/daemon/src/main.rs:786-895 | a resting target is skipped, another polled, and counter and deadline follow the history; other targets keep theirs |
| Cooldown.Poller.Query | crates/daemon/src/main.rs:810-849 | the first query that is not answered decides the poll |
| Cooldown.Poller.Sweep | crates/daemon/src/main.rs:786-896 | the history grows by the visits of the turns in order up to the first that aborts, and the sweep fails exactly when one does; targets not in it keep their counters and deadlines |
| Cooldown.SweepVisits | crates/daemon/src/main.rs:786-896 | a sweep visits all its turns in order unless one aborts, and then that one last |
| Cooldown.Poller.PollLoop | crates/daemon/src/main.rs:757-905 | the session yields exactly when the configured tick comes and no sweep before it aborts, breaks exactly when one aborts first, and its history is that of the sweeps |
| Cooldown.RestsBetween | crates/daemon/src/main.rs:797-894 | after three or more failures in a row a target's next poll starts no earlier than the ladder allows |
| Cooldown.NextPollRests | crates/daemon/src/main.rs:797-894 | after exactly three, four, five, and six or more failures in a row the next poll starts at least 60, 300, 900 and 1800 seconds after the last |
| Cooldown.TurnTaken | crates/daemon/src/main.rs:797-803 | a turn is skipped exactly if it comes before that; after fewer than three failures none is |
| Cooldown.VerdictMeans | crates/daemon/src/main.rs:810-849 | the first query of a poll that is not answered decides it |
| Cooldown.PollRecorded | crates/daemon/src/main.rs:850-895 | a good or bad poll is recorded as such, one that breaks the session aborts |
| Cooldown.CooldownBound | crates/daemon/src/main.rs:752-895 | from the start of a session or from its last success on, the k-th poll of a target that fails until then starts at least 60 + 300 + 900 + 1800 * (k - 6) seconds after its third failure |
| Records.ForEach28Record | crates/inverter-client/src/values.rs:114-128 | the walker visits the records of the region in order |
| Records.RecordsShape | crates/inverter-client/src/values.rs:114-128 | every full record, then one of twenty bytes if at least twenty are left |
| Records.RecordPlaces | crates/inverter-client/src/values.rs:81-128 | where in the body each record stands |
| Records.ParseSpotAcTotalPower | crates/inverter-client/src/values.rs:185-194 | the last matching record decides, even without a reading |
| Records.ParseDcBlock | crates/inverter-client/src/values.rs:427-452 | over the same records as the walker, the last record of each kind and string decides |
| Records.ParseCosphi | crates/inverter-client/src/values.rs:238-249 | the first matching record with a reading decides |
| Records.ParseSingleWattsRecord | crates/inverter-client/src/values.rs:267-284 | the first record in range with a usable slot decides, slots taken in the fixed order |
| Records.KindBytes | crates/inverter-client/src/values.rs:97-128 | the kind of a record is in its second and third byte, the string number in its first |
| Records.ReadingAtSixteen | crates/inverter-client/src/values.rs:146-155 | the reading is the word at offset 16, unless that is 80000000 |
| Records.MagnitudeMeans | crates/inverter-client/src/values.rs:238-249 | the size of a reading does not depend on its sign |
| Records.CosphiKinds | crates/inverter-client/src/values.rs:238-249 | which kinds count as a power factor |
| Records.WattsBySlot | crates/inverter-client/src/values.rs:267-284 | a nameplate value is the first usable word of those at offsets 16, 8, 12, 20 and 24 |
| Records.DcByRecord | crates/inverter-client/src/values.rs:427-452 | which record each direct-current reading comes from |
| Status.ParseDeviceStatus | crates/inverter-client/src/values.rs:481-508 | the last full status record with a value decides; a selected slot goes before an earlier one |
| Status.NoStatusIff | crates/inverter-client/src/values.rs:484-505 | a record reports no status exactly when it is of another kind, cut, or without any value |
| Status.StatusBySlot | crates/inverter-client/src/values.rs:484-505 | the first selected word of those at offsets 8, 12, 16 and 20, even behind one that is not selected; if none is, the first with a value |
| Status.ParseTypeLabelRaw | crates/inverter-client/src/values.rs:296-320 | the first tag selected in a label record before its end mark |
| Status.LabelFromMeans | crates/inverter-client/src/values.rs:303-316 | within a label record, the first slot with the selected mark decides unless an end mark comes before it |
| Status.LabelOfMeans | crates/inverter-client/src/values.rs:300-316 | the slots of a label record begin at its ninth byte, and there are three kinds of it |
| Status.LabelInMeans | crates/inverter-client/src/values.rs:296-320 | which forty-byte record the label comes from |
| EventLog.ParseEventLogRecords | crates/inverter-client/src/values.rs:653-683 | the records after the prefix, up to padding or a cut-off record |
| EventLog.EventsRoundTripIff | crates/inverter-client/src/values.rs:653-683 | parsing inverts serialising exactly when the tail is too short for a record or starts with padding |
| EventLog.EventsByPlace | crates/inverter-client/src/values.rs:653-683 | every 24 bytes after the first twelve there is a record, word by word, up to the first place where there is padding or too little |
| EventLog.EventsAppend | crates/inverter-client/src/values.rs:660-681 | records that are not padding come back in order, followed by what the rest holds |
| EventLog.EventsReadIff | crates/inverter-client/src/values.rs:653-683 | some records are what is read exactly when their bytes lead, back to back, and what follows is too short for another or starts with a blank half |
| EventLog.JoinedBodiesIff | crates/inverter-client/src/session.rs:717-746 | for any number of bodies of any content, parsing them joined gives what parsing each gives exactly when the joined payload leads with the records of all, without the prefixes |
| EventLog.JoinedFragmentsIff | crates/inverter-client/src/session.rs:717-746 | the same for any number of fragments and a last short one, with the length left after the records |
| EventLog.FragmentsReturnIff | crates/inverter-client/src/session.rs:717-746 | the same as a condition on the prefixes and records: with the later prefixes in a queue, each record half after the first fragment is the front of the queue, which then moves to the back, and what is left over is too short or starts blank |
| EventLog.ThreeNeverReturn | crates/inverter-client/src/session.rs:717-746 | three fragments whose third has records never come back joined |
| EventLog.FourMayReturn | crates/inverter-client/src/session.rs:717-746 | four fragments with records that do |
| EventLog.JoinedParsesIff | crates/inverter-client/src/session.rs:717-746 | the records of two joined fragments and a last short one come back exactly when every record of the second is its prefix twice over and the last is shorter than a prefix or follows a blank one |
| EventLog.JoinedRecordIsShifted | crates/inverter-client/src/session.rs:729 | an input whose second fragment comes back as another record |
| EventLog.JoinedPrefixIsMisread | crates/inverter-client/src/session.rs:729 | the record after those of the first fragment takes its entry number from the second prefix |

## Left out

- Sockets, blocking tasks, mutexes and libc calls; a link is a script of what its operations come to, and a receive on a script that has run out fails instead of blocking.
- Closing a transport always succeeds, as it does in both implementations; the trait would allow an error.
- Real time: the clock is a reading passed in, in whole seconds, that never goes back; the reconnect waits last at least as long as they should, other sleeps are left out.
- MQTT, metrics, uploads, storage, logging, configuration and the command line, including the identity queries and event-log fetch the supervisor makes once per login.
- The topology frame's peer list and the probe command, which only produce output.
- Reconnect.Supervisor.OnConnectFailed: the failure streak is a number without the 32-bit bound of the original counter.
- Cooldown.Poller.TakeTurn: the answers to a poll's queries are given with the turn (what they mean for the session is in HistoryTheorems.AnswersMean); the failure counter does not saturate at 32 bits.
- Cooldown.Poller.PollLoop: the tick counter does not wrap at 32 bits.
- Session.Session.QueryForDevice: a query kind is its command word and record range; the table from names to these words is not modelled.
- Frames.FrameBuilder.Build: memory limits on frame size are not modelled.
- Records.ForEach28Record: the walker collects its records instead of calling a closure on each; the readers then run the closure's body over them in order.
- Readers that follow the same pattern with other constants (temperature, frequency, phases, energy and time counters, relay, software version), the scaling to floating point, and the tables from tags to texts.
