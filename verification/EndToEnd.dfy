/** From packets to wire bytes and back through the stream reader, the frame parser and the
    packet decoder. */
module EndToEnd {
  import opened Bytes
  import opened Stuffing
  import opened Frames
  import opened FrameTheorems
  import opened Framer
  import opened FramerTheorems
  import opened Packets
  import Fcs

  /** What one side hands to the other: a bare control frame, or a framed packet. */
  datatype Message =
    | Control(localBt: BtAddr, destBt: BtAddr, control: u16, payload: bytes)
    | Data(localBt: BtAddr, destBt: BtAddr, control: u16, packet: Packet)

  function FrameOf(m: Message): Frame {
    match m
    case Control(l, d, c, payload) => Frame(L1Only, l, d, c, payload)
    case Data(l, d, c, packet) => Frame(L2Wrapped, l, d, c, Encode(packet))
  }

  function WireOf(m: Message): bytes {
    Wire(FrameOf(m))
  }

  function WiresOf(ms: seq<Message>): seq<bytes> {
    if ms == [] then [] else [WireOf(ms[0])] + WiresOf(ms[1..])
  }

  /** What a receiver makes of one reassembled frame. */
  function Receive(raw: bytes): Option<Message> {
    match Parse(raw)
    case Err(_) => None
    case Ok(f) =>
      match f.kind
      case L1Only => Some(Control(f.localBt, f.destBt, f.control, f.payload))
      case L2Wrapped =>
        match Decode(f.payload)
        case None => None
        case Some(packet) => Some(Data(f.localBt, f.destBt, f.control, packet))
  }

  function ReceiveAll(frames: seq<bytes>): seq<Option<Message>> {
    if frames == [] then [] else [Receive(frames[0])] + ReceiveAll(frames[1..])
  }

  function Sent(ms: seq<Message>): seq<Option<Message>> {
    if ms == [] then [] else [Some(ms[0])] + Sent(ms[1..])
  }

  /** What a sender can check: the wire form is no longer than the reader accepts, a control
      payload does not look like layer 2, a packet id fits in fifteen bits. */
  predicate Sendable(m: Message) {
    && |WireOf(m)| <= LONGEST
    && match m
       case Control(_, _, _, payload) => !LooksLikeLayer2(payload)
       case Data(_, _, _, packet) => packet.header.pktId < APP_PACKET_BIT
  }

  lemma EncodedHasSignature(p: Packet)
    ensures SignatureAt(Encode(p), 0) && |Encode(p)| == L2_HEADER_LEN + |p.body|
  {
    hide HeaderBytes;
    EncodedFields(p);
  }

  /** One frame is received as the message it was built from exactly when its length fits the
      length field, its payload does not look like layer 2 and its id fits in fifteen bits. */
  lemma ReceiveWireIff(m: Message)
    ensures Receive(WireOf(m)) == Some(m) <==>
      && |WireOf(m)| <= 0xFFFF
      && match m
         case Control(_, _, _, payload) => !LooksLikeLayer2(payload)
         case Data(_, _, _, packet) => packet.header.pktId < APP_PACKET_BIT
  {
    hide Parse, Decode, Encode, LooksLikeLayer2, Layer2Wire;
    match m
    case Control(l, d, c, payload) =>
      L1RoundTripIff(l, d, c, payload);
    case Data(l, d, c, packet) =>
      EncodedHasSignature(packet);
      L2RoundTripIff(l, d, c, Encode(packet));
      PacketRoundTripIff(packet);
      if |WireOf(m)| > 0xFFFF {
        OverlongIsRefused(FrameOf(m));
      }
  }

  lemma HeadedIsFramed(l: BtAddr, d: BtAddr, c: u16, rest: bytes)
    requires 18 + |rest| <= LONGEST
    ensures WellFramed(WithHeader(l, d, c, rest))
  {
    hide Header, HeaderCheck, Value;
    HeaderFields(18 + |rest|, l, d, c, rest);
  }

  lemma WireIsFramed(m: Message)
    requires |WireOf(m)| <= LONGEST
    ensures WellFramed(WireOf(m))
  {
    hide Header, Layer2Wire, WellFramed, Encode, Fcs.Fcs;
    var f := FrameOf(m);
    HeadedIsFramed(f.localBt, f.destBt, f.control,
      if f.kind.L1Only? then f.payload else Layer2Wire(true, f.payload, Trailed(Fcs.Fcs(f.payload))));
  }

  lemma {:induction false} WiresAreFramed(ms: seq<Message>)
    requires forall m :: m in ms ==> Sendable(m)
    ensures forall f :: f in WiresOf(ms) ==> WellFramed(f)
    ensures |WiresOf(ms)| == |ms|
    ensures ReceiveAll(WiresOf(ms)) == Sent(ms)
  {
    hide WellFramed, Receive, WireOf;
    if ms != [] {
      assert Sendable(ms[0]);
      WireIsFramed(ms[0]);
      ReceiveWireIff(ms[0]);
      WiresAreFramed(ms[1..]);
      assert WiresOf(ms)[1..] == WiresOf(ms[1..]);
    }
  }

  /** Any messages, encoded, framed and sent back to back, are reassembled, parsed and decoded
      into exactly the messages sent, with nothing left over. */
  lemma DeliveredUnchanged(ms: seq<Message>)
    requires forall m :: m in ms ==> Sendable(m)
    ensures var scan := ScanOf(Flatten(WiresOf(ms)));
      && FramesOf(scan.segments) == WiresOf(ms) && scan.rest == []
      && ReceiveAll(FramesOf(scan.segments)) == Sent(ms)
  {
    hide WellFramed, Receive, WireOf, Sendable;
    WiresAreFramed(ms);
    assert [] + Flatten(WiresOf(ms)) == Flatten(WiresOf(ms));
    Resync([], WiresOf(ms));
    if ms == [] {
      ScanOfNothing();
    }
  }

  /** Takes every queued frame and makes of it what a receiver does. */
  method Drain(reader: FrameReader) returns (got: seq<Option<Message>>)
    requires reader.Valid()
    modifies reader
    ensures reader.Valid() && reader.fed == old(reader.fed)
    ensures reader.completed == [] && reader.popped == old(reader.popped + reader.completed)
    ensures got == ReceiveAll(old(reader.completed))
  {
    hide ScanOf, FramesOf, Receive, Pending;
    got := [];
    ghost var queue := reader.completed;
    ghost var k := 0;
    while true
      invariant reader.Valid() && reader.fed == old(reader.fed)
      invariant k <= |queue| && reader.completed == queue[k..]
      invariant reader.popped == old(reader.popped) + queue[..k]
      invariant got == ReceiveAll(queue[..k])
      decreases |queue| - k
    {
      var frame := reader.PopFrame();
      if frame.None? {
        assert queue[..k] == queue;
        return;
      }
      assert queue[..k + 1] == queue[..k] + [queue[k]];
      ReceiveAllConcat(queue[..k], [queue[k]]);
      ReceiveAllOne(queue[k]);
      got := got + [Receive(frame.value)];
      k := k + 1;
    }
  }

  /** End to end: however the stream of some messages is cut into chunks, a fresh reader that
      is fed chunk by chunk, and emptied after each, hands out exactly the messages sent and
      holds nothing back. */
  method ReceiveChunks(chunks: seq<bytes>, ghost ms: seq<Message>) returns (got: seq<Option<Message>>, held: bytes)
    requires forall m :: m in ms ==> Sendable(m)
    requires Flatten(chunks) == Flatten(WiresOf(ms))
    ensures got == Sent(ms) && held == []
  {
    hide ScanOf, FramesOf, ReceiveAll, WiresOf, Sendable, Pending, Flatten;
    var reader := new FrameReader();
    got := [];
    NothingYet();
    for i := 0 to |chunks|
      invariant reader.Valid() && fresh(reader) && reader.completed == []
      invariant reader.fed == Flatten(chunks[..i])
      invariant got == ReceiveAll(reader.popped)
    {
      FlattenGrows(chunks[..i], chunks[i]);
      assert chunks[..i + 1] == chunks[..i] + [chunks[i]];
      reader.Push(chunks[i]);
      ReceiveAllConcat(reader.popped, reader.completed);
      var more := Drain(reader);
      got := got + more;
    }
    assert chunks[..|chunks|] == chunks;
    assert reader.popped + [] == reader.popped;
    DeliveredUnchanged(ms);
    held := reader.inProgress;
  }

  lemma NothingYet()
    ensures Flatten([]) == [] && ReceiveAll([]) == []
  {
  }

  lemma {:induction false} ReceiveAllConcat(a: seq<bytes>, b: seq<bytes>)
    ensures ReceiveAll(a + b) == ReceiveAll(a) + ReceiveAll(b)
  {
    hide Receive;
    if a == [] {
      assert a + b == b;
    } else {
      assert (a + b)[1..] == a[1..] + b;
      ReceiveAllConcat(a[1..], b);
    }
  }

  lemma ReceiveAllOne(f: bytes)
    ensures ReceiveAll([f]) == [Receive(f)]
  {
    hide Receive;
    assert [f][1..] == [];
  }

  /** The sender's conditions are exactly what delivery needs: the stream of some messages is
      taken apart at their ends, and each is received as sent, if and only if all of them meet
      those conditions. */
  lemma DeliveredIffSendable(ms: seq<Message>)
    ensures FramesOf(ScanOf(Flatten(WiresOf(ms))).segments) == WiresOf(ms) && ReceiveAll(WiresOf(ms)) == Sent(ms)
       <==> forall m :: m in ms ==> Sendable(m)
  {
    hide WellFramed, Receive, WireOf, ScanOf, FramesOf, Sendable;
    if forall m :: m in ms ==> Sendable(m) {
      DeliveredUnchanged(ms);
    } else if FramesOf(ScanOf(Flatten(WiresOf(ms))).segments) == WiresOf(ms) && ReceiveAll(WiresOf(ms)) == Sent(ms) {
      var k :| 0 <= k < |ms| && !Sendable(ms[k]);
      OneOfMany(ms, k);
      EmittedAreWellFramed(Flatten(WiresOf(ms)), k);
      UnsendableIsLost(ms[k]);
    }
  }

  lemma {:induction false} OneOfMany(ms: seq<Message>, k: nat)
    requires k < |ms|
    ensures |WiresOf(ms)| == |ReceiveAll(WiresOf(ms))| == |Sent(ms)| == |ms|
    ensures WiresOf(ms)[k] == WireOf(ms[k]) && Sent(ms)[k] == Some(ms[k])
    ensures ReceiveAll(WiresOf(ms))[k] == Receive(WireOf(ms[k]))
  {
    hide Receive, WireOf;
    assert WiresOf(ms)[1..] == WiresOf(ms[1..]);
    if |ms| > 1 {
      OneOfMany(ms[1..], if k > 0 then k - 1 else 0);
    } else {
      assert WiresOf(ms[1..]) == [];
    }
  }

  lemma UnsendableIsLost(m: Message)
    requires WellFramed(WireOf(m)) && Receive(WireOf(m)) == Some(m)
    ensures Sendable(m)
  {
    hide WellFramed, Receive, WireOf;
    FramedIsShort(WireOf(m));
    ReceiveWireIff(m);
  }

  lemma FramedIsShort(f: bytes)
    requires WellFramed(f)
    ensures |f| <= LONGEST
  {
  }

  /** A body of up to 984 bytes always fits, even if every byte has to be escaped. */
  lemma BodyFits(l: BtAddr, d: BtAddr, c: u16, packet: Packet)
    requires |packet.body| <= 984
    ensures |WireOf(Data(l, d, c, packet))| <= LONGEST
  {
    hide Header, Encode, Stuff;
    var payload := Encode(packet);
    EncodedHasSignature(packet);
    StuffIsClean(Region(payload, Trailed(Fcs.Fcs(payload))));
  }

  // ---------------------------------------------------------------- frames from anyone

  /** Whatever is on the stream, a frame the reader hands out parses, unless it is a layer-2
      frame that ends in a cut-off escape; nothing else can go wrong. */
  lemma EmittedFrameParses(s: bytes, j: nat)
    requires j < |FramesOf(ScanOf(s).segments)|
    ensures var f := FramesOf(ScanOf(s).segments)[j];
      |f| >= 18 && (if CutOff(f) then Parse(f) == Err(TruncatedEscape) else Parse(f).Ok?)
  {
    hide ScanOf, FramesOf, HeaderCheck, Value, Parse, CutOff;
    EmittedAreWellFramed(s, j);
    ParseOutcome(FramesOf(ScanOf(s).segments)[j]);
  }

  /** A parsed control frame never decodes as a packet; a parsed layer-2 frame fails to decode
      exactly when its payload is too short for a packet header. */
  lemma DecodeOfParsed(raw: bytes)
    requires Parse(raw).Ok?
    ensures var f := Parse(raw).value;
      match f.kind
      case L1Only => Decode(f.payload).None?
      case L2Wrapped => Decode(f.payload).None? <==> |f.payload| < L2_HEADER_LEN
  {
    hide HeaderCheck, Value, Layer2Payload, Unstuff;
    match SignatureOffset(raw)
    case None =>
      SignatureSeenIff(raw);
    case Some(i) =>
      Layer2FailsIff(raw, i);
  }
}
