/** What every wait of a session comes to, told from the frames and failures that arrive. */
module OutcomeTheorems {
  import opened Bytes
  import opened Frames
  import opened Packets
  import opened Transports
  import opened Replies
  import opened Handshake
  import opened Session
  import opened SessionTheorems
  import opened HandshakeTheorems
  import opened HistoryTheorems
  import Cooldown

  // ---------------------------------------------------------------- frames

  /** A frame that can be read, with the given control word. */
  predicate HasControl(b: bytes, control: u16) {
    Parse(b).Ok? && Parse(b).value.control == control
  }

  /** A frame that can be read and holds a packet with the given id. */
  predicate CarriesId(b: bytes, id: PacketId) {
    && Parse(b).Ok? && Decode(Parse(b).value.payload).Some?
    && Decode(Parse(b).value.payload).value.header.pktId == id
  }

  function PacketIn(b: bytes): Packet
    requires Parse(b).Ok? && Decode(Parse(b).value.payload).Some?
  {
    Decode(Parse(b).value.payload).value
  }

  /** A layer-2 frame with a packet with the given id. */
  predicate AnswersTo(b: bytes, id: PacketId) {
    CarriesId(b, id) && Parse(b).value.kind.L2Wrapped?
  }

  /** A logon reply with the given id and code. */
  predicate SaysCode(b: bytes, id: PacketId, code: u16) {
    CarriesId(b, id) && PacketIn(b).header.errorCode == code
  }

  /** An init reply with the given id from the given device. */
  predicate IsInitReply(b: bytes, id: PacketId, device: BtAddr) {
    CarriesId(b, id) && Parse(b).value.localBt == device
  }

  /** A hello that can be used: control word 2, at least 23 bytes, firmware 4 or later at offset
      19. */
  predicate IsHello(b: bytes) {
    HasControl(b, 0x0002) && |b| >= 23 && b[19] >= 4
  }

  lemma ControlMeans(b: bytes, want: u16)
    ensures WithControl(want)(b) == if HasControl(b, want) then Some(b) else None
  {
    hide Parse;
  }

  lemma AnswerMeans(b: bytes, id: PacketId)
    ensures WithPktId(id)(b).Some? <==> AnswersTo(b, id)
    ensures AnswersTo(b, id) ==>
      var h := PacketIn(b).header;
      WithPktId(id)(b) == Some(L2Reply(id, h.errorCode, h.appSusyId, h.appSerial, PacketIn(b).body))
  {
    hide Parse, Decode;
    assert WithPktId(id)(b) == MatchingReply(b, id);
  }

  lemma AcceptanceMeans(b: bytes, id: PacketId)
    ensures WithAcceptance(id)(b).Some? <==> SaysCode(b, id, 0)
  {
    hide Parse, Decode;
    assert WithAcceptance(id)(b) == Acceptance(LooseReply(b, id));
  }

  lemma LooseMeans(b: bytes, id: PacketId)
    ensures LooseReply(b, id).Some? <==> CarriesId(b, id)
    ensures CarriesId(b, id) ==> LooseReply(b, id).value.errorCode == PacketIn(b).header.errorCode
  {
    hide Parse, Decode;
  }

  lemma InitMeans(b: bytes, id: PacketId, device: BtAddr)
    ensures WithInitReply(id, device)(b) == InitReply(b, id, device)
    ensures InitReply(b, id, device).Some? <==> IsInitReply(b, id, device)
    ensures IsInitReply(b, id, device) ==>
      && InitReply(b, id, device).value.appSusyId == PacketIn(b).header.appSusyId
      && InitReply(b, id, device).value.appSerial == PacketIn(b).header.appSerial
  {
    hide Parse, Decode;
  }

  /** What the session makes of the first frame it gets. */
  lemma HelloMeans(b: bytes)
    ensures HelloFrom(b).Ok? <==> IsHello(b)
    ensures IsHello(b) ==> HelloFrom(b) == Ok(Parse(b).value.localBt)
    ensures Parse(b).Err? ==> HelloFrom(b) == Err(ParseFailed(Parse(b).error))
    ensures Parse(b).Ok? && !HasControl(b, 0x0002) ==> HelloFrom(b) == Err(Protocol(HelloCtrl))
    ensures HasControl(b, 0x0002) && |b| < 23 ==> HelloFrom(b) == Err(Protocol(HelloShort))
    ensures HasControl(b, 0x0002) && |b| >= 23 && b[19] < 4 ==> HelloFrom(b) == Err(FirmwareTooOld(b[19]))
  {
    hide Parse;
  }

  // ---------------------------------------------------------------- one wait

  /** What a receive that fails makes of a wait: a timeout is silence, anything else an error of
      the transport. */
  lemma FailureMeans(e: TransportError, phase: Phase)
    ensures ReceiveError(e, phase) == if e == Timeout then Silent(phase) else TransportFailed(e)
  {
  }

  /** A wait from a place in the stream that skips everything up to another. */
  lemma WaitStopsAt<T>(st: Stream, from: nat, accept: bytes -> Option<T>, phase: Phase, budget: nat, k: nat)
    requires from <= k <= from + budget && SkippedBetween(st, accept, from, k)
    requires k < from + budget ==> ItemAt(st, k).Failed?
    ensures var g := Listen(Drop(st, from), accept, phase, budget);
      && (k == from + budget ==> g.result == Err(Silent(phase)))
      && (k < from + budget ==>
            g.result == Err(if ItemAt(st, k).error == Timeout then Silent(phase)
                            else TransportFailed(ItemAt(st, k).error)))
  {
    hide Listen, ItemAt, Drop;
    var later, m := Drop(st, from), k - from;
    var n := ListenStops(later, accept, phase, budget);
    forall j: nat ensures ItemAt(later, j) == ItemAt(st, from + j) {
      DropItems(st, from, j);
    }
    OneStop(later, accept, budget, n, m);
  }

  lemma OneStop<T>(st: Stream, accept: bytes -> Option<T>, budget: nat, n: nat, m: nat)
    requires n <= budget && AllSkipped(st, accept, n)
    requires n < budget ==> ItemAt(st, n).Failed? || Accepted(st, accept, n)
    requires m <= budget && AllSkipped(st, accept, m) && (m < budget ==> ItemAt(st, m).Failed?)
    ensures n == m
  {
    hide ItemAt;
  }

  // ---------------------------------------------------------------- a query

  /** The first k receives bring only frames that do not answer a request. */
  predicate Unanswered(st: Stream, id: PacketId, k: nat) {
    forall j :: 0 <= j < k ==> ItemAt(st, j).Arrived? && !AnswersTo(ItemAt(st, j).frame, id)
  }

  lemma UnansweredIsSkipped(st: Stream, id: PacketId, k: nat)
    requires Unanswered(st, id, k)
    ensures SkippedBetween(st, WithPktId(id), 0, k) && AllSkipped(st, WithPktId(id), k)
  {
    hide AnswersTo, ItemAt, WithPktId;
    forall j | 0 <= j < k ensures ItemAt(st, j).Arrived? && WithPktId(id)(ItemAt(st, j).frame).None? {
      AnswerMeans(ItemAt(st, j).frame, id);
    }
  }

  /** A query whose frame cannot be sent fails with the error of the transport. */
  lemma QueryNotSent(localBt: BtAddr, appSerial: u32, susyId: u16, serial: u32, kind: QueryKind, cur: Cursor,
                     e: TransportError)
    requires FailureOf(cur.link.sends) == Some(e)
    ensures var q := QueryRun(localBt, appSerial, susyId, serial, kind, cur).0;
      q == Err(TransportFailed(e)) && AnswerOf(q) == Cooldown.SessionFailed
  {
    hide QueryWire;
  }

  /** A query that is sent comes to what its first receives bring. After fewer than sixteen
      frames that do not answer it: an answer gives its body, a timeout is silence of the device,
      and any other failure is one of the session. After sixteen of them it is silence. */
  lemma QueryOnFrames(localBt: BtAddr, appSerial: u32, susyId: u16, serial: u32, kind: QueryKind, cur: Cursor, k: nat)
    requires FailureOf(cur.link.sends).None? && k <= 16
    requires Unanswered(cur.link.stream, NextId(cur.pktId), k)
    ensures var q := QueryRun(localBt, appSerial, susyId, serial, kind, cur).0;
      var item := ItemAt(cur.link.stream, k);
      && (k == 16 || item == Failed(Timeout) ==>
            q == Err(Silent(Query)) && AnswerOf(q) == Cooldown.DeviceFailed && !IsSessionFatal(q.error))
      && (k < 16 && item.Failed? && item.error != Timeout ==>
            q == Err(TransportFailed(item.error)) && AnswerOf(q) == Cooldown.SessionFailed && IsSessionFatal(q.error))
      && (k < 16 && item.Arrived? && AnswersTo(item.frame, NextId(cur.pktId)) ==>
            q == Ok(PacketIn(item.frame).body) && AnswerOf(q) == Cooldown.Answered)
  {
    hide QueryWire, Listen, AnswersTo, ItemAt, WithPktId, Parse, Decode, Unanswered;
    var st, id := cur.link.stream, NextId(cur.pktId);
    UnansweredIsSkipped(st, id, k);
    NothingDropped(st);
    if k == 16 || ItemAt(st, k).Failed? {
      WaitStopsAt(st, 0, WithPktId(id), Query, 16, k);
    } else {
      AnswerMeans(ItemAt(st, k).frame, id);
      if AnswersTo(ItemAt(st, k).frame, id) {
        assert AnswersTo(ItemAt(st, k).frame, id) && CarriesId(ItemAt(st, k).frame, id) by {
          AnswerCarries(ItemAt(st, k).frame, id);
        }
        WaitFinds(st, 0, WithPktId(id), Query, 16, k);
      }
    }
  }

  lemma AnswerCarries(b: bytes, id: PacketId)
    requires AnswersTo(b, id)
    ensures CarriesId(b, id)
  {
  }

  // ---------------------------------------------------------------- an event-log call

  lemma {:induction false} FragmentsStop(st: Stream, from: nat, want: PacketId, budget: nat, at: seq<nat>, k: nat)
    requires Heard(st, from, WithPktId(want), 16, at) && |at| < budget && AllContinue(RepliesAt(st, from, want, at))
    requires Onward(from, at) <= k <= Onward(from, at) + 16
    requires SkippedBetween(st, WithPktId(want), Onward(from, at), k)
    requires k < Onward(from, at) + 16 ==> ItemAt(st, k).Failed?
    ensures var r := ListenFragments(Drop(st, from), want, budget).result;
      && (k == Onward(from, at) + 16 ==> r == Err(Silent(EventLog)))
      && (k < Onward(from, at) + 16 ==>
            r == Err(if ItemAt(st, k).error == Timeout then Silent(EventLog) else TransportFailed(ItemAt(st, k).error)))
    decreases |at|
  {
    hide Listen, WithPktId, ItemAt, Drop, SkippedBetween, Accepted;
    if at == [] {
      WaitStopsAt(st, from, WithPktId(want), EventLog, 16, k);
    } else {
      WaitFinds(st, from, WithPktId(want), EventLog, 16, at[0]);
      var rs := RepliesAt(st, from, want, at);
      assert rs[1..] == RepliesAt(st, at[0] + 1, want, at[1..]);
      assert Continues(rs[0]) && forall i :: 0 <= i < |rs[1..]| ==> rs[1..][i] == rs[i + 1];
      assert Onward(at[0] + 1, at[1..]) == Onward(from, at);
      FragmentsStop(st, at[0] + 1, want, budget - 1, at[1..], k);
    }
  }

  /** An event-log call that has taken fewer than thirty-two fragments, each with code 0 and more
      than twelve bytes, and then waits in vain: a timeout, or sixteen frames that do not answer
      it, is silence; any other failure is one of the session. */
  lemma EventLogStops(localBt: BtAddr, appSerial: u32, susyId: u16, serial: u32, start: u32, end: u32, cur: Cursor,
                      at: seq<nat>, k: nat)
    requires FailureOf(cur.link.sends).None? && |at| < 32
    requires Heard(cur.link.stream, 0, WithPktId(NextId(cur.pktId)), 16, at)
    requires forall r :: r in RepliesAt(cur.link.stream, 0, NextId(cur.pktId), at) ==> r.errorCode == 0 && |r.body| > 12
    requires Onward(0, at) <= k <= Onward(0, at) + 16
    requires forall j :: Onward(0, at) <= j < k ==>
               ItemAt(cur.link.stream, j).Arrived? && !AnswersTo(ItemAt(cur.link.stream, j).frame, NextId(cur.pktId))
    requires k < Onward(0, at) + 16 ==> ItemAt(cur.link.stream, k).Failed?
    ensures var r := EventLogRun(localBt, appSerial, susyId, serial, start, end, cur).0;
      var item := ItemAt(cur.link.stream, k);
      && (k == Onward(0, at) + 16 || item == Failed(Timeout) ==> r == Err(Silent(EventLog)) && !IsSessionFatal(r.error))
      && (k < Onward(0, at) + 16 && item.error != Timeout ==>
            r == Err(TransportFailed(item.error)) && IsSessionFatal(r.error))
  {
    hide EventLogWire, ListenFragments, Bodies, Heard, RepliesAt, ItemAt, WithPktId, AnswersTo, Drop;
    var st, id := cur.link.stream, NextId(cur.pktId);
    NothingDropped(st);
    forall j | Onward(0, at) <= j < k ensures ItemAt(st, j).Arrived? && WithPktId(id)(ItemAt(st, j).frame).None? {
      AnswerMeans(ItemAt(st, j).frame, id);
    }
    FragmentsStop(st, 0, id, 32, at, k);
  }

  // ---------------------------------------------------------------- the handshake, stage by stage

  /** The announce frame cannot be sent, or nothing usable answers it. */
  lemma HelloStops(s: Setup, from: Cursor)
    ensures var o, item := Run(s, from), Head(from.link.stream);
      match FailureOf(from.link.sends)
      case Some(e) => o.result == Err(TransportFailed(e)) && o.state == Handshaking
      case None =>
        match item
        case Failed(e) =>
          o.result == Err(if e == Timeout then Silent(Hello) else TransportFailed(e)) && o.state == Handshaking
        case Arrived(b) =>
          !IsHello(b) ==> o.state == Handshaking && o.result == Err(
            if Parse(b).Err? then ParseFailed(Parse(b).error)
            else if !HasControl(b, 0x0002) then Protocol(HelloCtrl)
            else if |b| < 23 then Protocol(HelloShort)
            else FirmwareTooOld(b[19]))
  {
    hide Parse, VerWire, SendEcho, HelloFrom;
    if Head(from.link.stream).Arrived? {
      HelloMeans(Head(from.link.stream).frame);
    }
  }

  /** What is behind a usable hello: the rest of the handshake, with the device that said it. */
  lemma HelloPasses(s: Setup, from: Cursor) returns (cur: Cursor)
    requires FailureOf(from.link.sends).None?
    requires Head(from.link.stream).Arrived? && IsHello(Head(from.link.stream).frame)
    ensures var b := Head(from.link.stream).frame;
      Run(s, from) == SendEcho(s, cur, b[22], Parse(b).value.localBt)
    ensures cur.link == Link(Drop(from.link.stream, 1), LaterSends(from.link.sends)) && cur.pktId == from.pktId
    ensures cur.receives == from.receives + 1
  {
    hide Parse, VerWire, SendEcho, HelloFrom, Drop;
    HelloMeans(Head(from.link.stream).frame);
    FirstDropped(from.link.stream);
    cur := Received(Attempted(from, VerWire()), Tail(from.link.stream), 1);
  }

  /** No frame with the given control word from one place to another. */
  predicate NoControl(st: Stream, control: u16, from: nat, to: nat) {
    forall j :: from <= j < to ==> ItemAt(st, j).Arrived? && !HasControl(ItemAt(st, j).frame, control)
  }

  lemma NoControlIsSkipped(st: Stream, control: u16, from: nat, to: nat)
    requires NoControl(st, control, from, to)
    ensures SkippedBetween(st, WithControl(control), from, to)
  {
    hide HasControl, ItemAt, WithControl;
    forall j | from <= j < to ensures ItemAt(st, j).Arrived? && WithControl(control)(ItemAt(st, j).frame).None? {
      ControlMeans(ItemAt(st, j).frame, control);
    }
  }

  /** The echo cannot be sent. */
  lemma EchoNotSent(s: Setup, from: Cursor, e: TransportError)
    requires FailureOf(from.link.sends).None? && FailureOf(LaterSends(from.link.sends)) == Some(e)
    requires Head(from.link.stream).Arrived? && IsHello(Head(from.link.stream).frame)
    ensures Run(s, from).result == Err(TransportFailed(e)) && Run(s, from).state == Handshaking
  {
    hide Run, Parse, IsHello, EchoWire, FailureOf, LaterSends, Drop;
    assert |Head(from.link.stream).frame| >= 23 && Parse(Head(from.link.stream).frame).Ok? by {
      HelloIsRead(Head(from.link.stream).frame);
    }
    var cur := HelloPasses(s, from);
  }

  lemma HelloIsRead(b: bytes)
    requires IsHello(b)
    ensures |b| >= 23 && Parse(b).Ok?
  {
    hide Parse;
  }

  /** The wait for the topology: twelve other frames, or a timeout, is silence; any other failure
      is one of the transport. */
  lemma TopologyStops(s: Setup, from: Cursor, k: nat)
    requires SendsGo(from.link.sends, 2)
    requires Head(from.link.stream).Arrived? && IsHello(Head(from.link.stream).frame)
    requires 1 <= k <= 13 && NoControl(from.link.stream, 0x0005, 1, k)
    requires k < 13 ==> ItemAt(from.link.stream, k).Failed?
    ensures var o, item := Run(s, from), ItemAt(from.link.stream, k);
      && o.state == Handshaking
      && (k == 13 || item == Failed(Timeout) ==> o.result == Err(Silent(Topology)))
      && (k < 13 && item.error != Timeout ==> o.result == Err(TransportFailed(item.error)))
  {
    hide Run, Parse, IsHello, EchoWire, FailureOf, LaterSends, Drop, Listen, HasControl, NoControl, ItemAt, WithControl,
      SendInit, SendsGo;
    HelloIsRead(Head(from.link.stream).frame);
    OneSend(from.link.sends, 2);
    OneSend(LaterSends(from.link.sends), 1);
    var cur := HelloPasses(s, from);
    NoControlIsSkipped(from.link.stream, 0x0005, 1, k);
    WaitStopsAt(from.link.stream, 1, WithControl(0x0005), Topology, 12, k);
  }

  /** The first topology frame, at the given place, in time. */
  predicate TopologyAt(st: Stream, t: nat) {
    1 <= t < 13 && NoControl(st, 0x0005, 1, t) && ItemAt(st, t).Arrived? && HasControl(ItemAt(st, t).frame, 0x0005)
  }

  /** What is behind it. */
  lemma TopologyPasses(s: Setup, from: Cursor, t: nat) returns (cur: Cursor)
    requires SendsGo(from.link.sends, 2)
    requires Head(from.link.stream).Arrived? && IsHello(Head(from.link.stream).frame)
    requires TopologyAt(from.link.stream, t)
    ensures Parse(Head(from.link.stream).frame).Ok?
    ensures Run(s, from) == SendInit(s, cur, Parse(Head(from.link.stream).frame).value.localBt)
    ensures cur.link == Link(Drop(from.link.stream, t + 1), LaterSends(LaterSends(from.link.sends)))
    ensures cur.pktId == from.pktId
  {
    hide Run, Parse, IsHello, EchoWire, FailureOf, LaterSends, Drop, Listen, HasControl, NoControl, ItemAt, WithControl,
      SendInit, SendsGo;
    var st, b := from.link.stream, Head(from.link.stream).frame;
    HelloIsRead(b);
    OneSend(from.link.sends, 2);
    OneSend(LaterSends(from.link.sends), 1);
    var c1 := HelloPasses(s, from);
    NoControlIsSkipped(st, 0x0005, 1, t);
    ControlMeans(ItemAt(st, t).frame, 0x0005);
    WaitFinds(st, 1, WithControl(0x0005), Topology, 12, t);
    var c2 := Attempted(c1, EchoWire(b[22], Parse(b).value.localBt));
    cur := Received(c2, Drop(st, t + 1), t);
  }

  /** Places of the stream where one after the other a frame with control word 1 comes, each the
      first within twelve receives. */
  predicate RepliesHeard(st: Stream, from: nat, at: seq<nat>)
    decreases |at|
  {
    at == [] ||
    (&& from <= at[0] < from + 12 && NoControl(st, 0x0001, from, at[0])
     && ItemAt(st, at[0]).Arrived? && HasControl(ItemAt(st, at[0]).frame, 0x0001)
     && RepliesHeard(st, at[0] + 1, at[1..]))
  }

  lemma {:induction false} RepliesAreHeard(st: Stream, from: nat, at: seq<nat>)
    ensures RepliesHeard(st, from, at) <==> Heard(st, from, WithControl(0x0001), 12, at)
    decreases |at|
  {
    hide HasControl, ItemAt, WithControl;
    if at != [] {
      forall j: nat ensures WithControl(0x0001)(ItemFrame(st, j))
                            == if HasControl(ItemFrame(st, j), 0x0001) then Some(ItemFrame(st, j)) else None
      {
        ControlMeans(ItemFrame(st, j), 0x0001);
      }
      assert NoControl(st, 0x0001, from, at[0]) <==> SkippedBetween(st, WithControl(0x0001), from, at[0]) by {
        assert forall j: nat :: ItemAt(st, j).Arrived? ==> ItemFrame(st, j) == ItemAt(st, j).frame;
      }
      assert ItemAt(st, at[0]).Arrived? ==> ItemFrame(st, at[0]) == ItemAt(st, at[0]).frame;
      RepliesAreHeard(st, at[0] + 1, at[1..]);
    }
  }

  function ItemFrame(st: Stream, j: nat): bytes {
    match ItemAt(st, j)
    case Arrived(b) => b
    case Failed(_) => []
  }

  /** The wait for the init reply: sixteen other replies, or a timeout or twelve other frames in
      the wait for the next, is silence; any other failure is one of the transport. */
  lemma {:induction false} InitWaitStops(st: Stream, from: nat, want: PacketId, target: BtAddr, budget: nat,
                                         at: seq<nat>, k: nat)
    requires RepliesHeard(st, from, at) && |at| <= budget
    requires forall i :: 0 <= i < |at| ==> !IsInitReply(ItemFrame(st, at[i]), want, target)
    requires |at| < budget ==>
      && Onward(from, at) <= k <= Onward(from, at) + 12 && NoControl(st, 0x0001, Onward(from, at), k)
      && (k < Onward(from, at) + 12 ==> ItemAt(st, k).Failed?)
    ensures var r := ListenInit(Drop(st, from), want, target, budget).result;
      && (|at| == budget ==> r == Err(Silent(Init)))
      && (|at| < budget && k == Onward(from, at) + 12 ==> r == Err(Silent(Init)))
      && (|at| < budget && k < Onward(from, at) + 12 ==>
            r == Err(if ItemAt(st, k).error == Timeout then Silent(Init) else TransportFailed(ItemAt(st, k).error)))
    decreases |at|
  {
    hide Listen, ItemAt, Drop, WithControl, InitReply, HasControl, IsInitReply, NoControl;
    if at != [] {
      assert ItemFrame(st, at[0]) == ItemAt(st, at[0]).frame;
      assert forall i :: 0 <= i < |at[1..]| ==> at[1..][i] == at[i + 1];
      NoControlIsSkipped(st, 0x0001, from, at[0]);
      ControlMeans(ItemAt(st, at[0]).frame, 0x0001);
      WaitFinds(st, from, WithControl(0x0001), Init, 12, at[0]);
      InitMeans(ItemAt(st, at[0]).frame, want, target);
      assert Onward(at[0] + 1, at[1..]) == Onward(from, at);
      InitWaitStops(st, at[0] + 1, want, target, budget - 1, at[1..], k);
    } else if budget > 0 {
      NoControlIsSkipped(st, 0x0001, from, k);
      WaitStopsAt(st, from, WithControl(0x0001), Init, 12, k);
    }
  }

  /** The handshake up to its init request, if that goes out. */
  lemma InitAwaited(s: Setup, from: Cursor, t: nat) returns (cur: Cursor)
    requires SendsGo(from.link.sends, 3)
    requires Head(from.link.stream).Arrived? && IsHello(Head(from.link.stream).frame)
    requires TopologyAt(from.link.stream, t)
    ensures Parse(Head(from.link.stream).frame).Ok?
    ensures Run(s, from) == AwaitInit(s, cur, Parse(Head(from.link.stream).frame).value.localBt)
    ensures cur.link.stream == Drop(from.link.stream, t + 1) && cur.pktId == NthId(from.pktId, 1)
    ensures SendsGo(from.link.sends, 5) <==> SendsGo(cur.link.sends, 2)
    ensures cur.link.sends == LaterSends(LaterSends(LaterSends(from.link.sends)))
  {
    hide Run, Parse, IsHello, InitWire, FailureOf, LaterSends, Drop, TopologyAt, AwaitInit, SendsGo, NextId;
    var sends := from.link.sends;
    OneSend(sends, 3);
    OneSend(sends, 2);
    OneSend(sends, 5);
    OneSend(LaterSends(sends), 2);
    OneSend(LaterSends(sends), 1);
    OneSend(LaterSends(sends), 4);
    OneSend(LaterSends(LaterSends(sends)), 1);
    OneSend(LaterSends(LaterSends(sends)), 3);
    NoSends(LaterSends(LaterSends(sends)));
    NthSteps(from.pktId);
    var c2 := TopologyPasses(s, from, t);
    var id := NextId(c2.pktId);
    cur := Attempted(c2.(pktId := id), InitWire(s, id));
  }

  /** The init wait in vain: the session stays in enumeration, and says silence or which error of
      the transport it was. */
  lemma InitStops(s: Setup, from: Cursor, t: nat, at: seq<nat>, k: nat)
    requires SendsGo(from.link.sends, 3)
    requires Head(from.link.stream).Arrived? && IsHello(Head(from.link.stream).frame)
    requires TopologyAt(from.link.stream, t)
    requires RepliesHeard(from.link.stream, t + 1, at) && |at| <= 16
    requires Parse(Head(from.link.stream).frame).Ok?
    requires forall i :: 0 <= i < |at| ==>
               !IsInitReply(ItemFrame(from.link.stream, at[i]), NthId(from.pktId, 1),
                            Parse(Head(from.link.stream).frame).value.localBt)
    requires |at| < 16 ==>
      && Onward(t + 1, at) <= k <= Onward(t + 1, at) + 12
      && NoControl(from.link.stream, 0x0001, Onward(t + 1, at), k)
      && (k < Onward(t + 1, at) + 12 ==> ItemAt(from.link.stream, k).Failed?)
    ensures var o, item := Run(s, from), ItemAt(from.link.stream, k);
      && o.state == Enumerating
      && (|at| == 16 || k == Onward(t + 1, at) + 12 || item == Failed(Timeout) ==> o.result == Err(Silent(Init)))
      && (|at| < 16 && k < Onward(t + 1, at) + 12 && item.error != Timeout ==>
            o.result == Err(TransportFailed(item.error)))
  {
    hide Run, Parse, IsHello, TopologyAt, SendsGo, IsInitReply, ItemFrame, ListenInit, Drop, NthId, NoControl,
      RepliesHeard, ItemAt;
    var cur := InitAwaited(s, from, t);
    var target := Parse(Head(from.link.stream).frame).value.localBt;
    InitWaitStops(from.link.stream, t + 1, cur.pktId, target, 16, at, k);
  }

  // ---------------------------------------------------------------- the logon

  /** The last of some frames that carries an id. */
  predicate LastToCarry(fs: seq<bytes>, id: PacketId, k: nat) {
    k < |fs| && CarriesId(fs[k], id) && forall j :: k < j < |fs| ==> !CarriesId(fs[j], id)
  }

  /** What the logon loop makes of the frames with control word 1 it gets to see: it ends with
      the first that carries its id and code 0; if there is none, with the code of the last one
      that carries its id, or in silence. Frames with another id never matter. */
  lemma {:induction false} SettledOnFrames(fs: seq<bytes>, id: PacketId, last: Option<L2Reply>)
    ensures var r := Settle(RepliesIn(fs, id), last);
      && (r.Ok? <==> exists k :: 0 <= k < |fs| && SaysCode(fs[k], id, 0))
      && (r.Err? && (forall k :: 0 <= k < |fs| ==> !CarriesId(fs[k], id)) ==> r == Err(Verdict(last)))
      && (forall k: nat, c: u16 :: r.Err? && LastToCarry(fs, id, k) && SaysCode(fs[k], id, c) ==>
            r == Err(LogonFailed(c)))
  {
    hide SaysCode, CarriesId, LooseReply;
    if fs != [] {
      var more := fs[1..];
      var now := SettledStep(fs, id, last);
      SettledOnFrames(more, id, now);
      assert forall k :: 0 <= k < |more| ==> more[k] == fs[k + 1];
      forall k | 0 < k < |fs| && LastToCarry(fs, id, k) ensures LastToCarry(more, id, k - 1) {
        assert CarriesId(more[k - 1], id);
      }
      forall k | 0 < k < |fs| && SaysCode(fs[k], id, 0) ensures SaysCode(more[k - 1], id, 0) {
      }
    }
  }

  /** The first of the frames ends it with code 0, is remembered with another, and else is passed
      over. */
  lemma SettledStep(fs: seq<bytes>, id: PacketId, last: Option<L2Reply>) returns (now: Option<L2Reply>)
    requires fs != []
    ensures SaysCode(fs[0], id, 0) ==> CarriesId(fs[0], id) && Settle(RepliesIn(fs, id), last).Ok?
    ensures !SaysCode(fs[0], id, 0) ==> Settle(RepliesIn(fs, id), last) == Settle(RepliesIn(fs[1..], id), now)
    ensures forall c: u16 :: SaysCode(fs[0], id, c) ==> Verdict(now) == LogonFailed(c)
    ensures !CarriesId(fs[0], id) ==> now == last
  {
    hide LooseReply, Parse, Decode;
    LooseMeans(fs[0], id);
    match LooseReply(fs[0], id)
    case None =>
      now := last;
      assert [] + RepliesIn(fs[1..], id) == RepliesIn(fs[1..], id);
    case Some(r) =>
      now := Some(r);
      assert ([r] + RepliesIn(fs[1..], id))[1..] == RepliesIn(fs[1..], id);
  }

  lemma CarriedIsRead(b: bytes, id: PacketId)
    requires CarriesId(b, id)
    ensures Parse(b).Ok? && Decode(Parse(b).value.payload).Some?
  {
  }

  /** In particular a reply with another id is passed over, whatever code it has. */
  lemma StrayIgnored(st: Stream, id: PacketId, last: Option<L2Reply>, budget: nat, b: bytes)
    requires Head(st) == Arrived(b) && HasControl(b, 0x0001) && !CarriesId(b, id) && budget > 0
    ensures ListenLogon(st, id, last, budget).result == ListenLogon(Tail(st), id, last, budget - 1).result
  {
    hide HasControl, CarriesId, LooseReply, Head, Tail, WithControl;
    ControlMeans(b, 0x0001);
    LooseMeans(b, id);
    assert UntilControl(st, 0x0001, Logon) == Got(Ok(b), Tail(st), 1);
  }

  /** A late reply to an earlier request with code 0, then the refusal, then nothing: the logon
      fails with the code of the refusal. */
  lemma StrayThenRefusal(st: Stream, id: PacketId, stray: bytes, refusal: bytes)
    requires Head(st) == Arrived(stray) && HasControl(stray, 0x0001) && !CarriesId(stray, id)
    requires Head(Tail(st)) == Arrived(refusal) && HasControl(refusal, 0x0001) && SaysCode(refusal, id, 0x0100)
    requires Head(Tail(Tail(st))) == Failed(Timeout)
    ensures ListenLogon(st, id, None, 16).result == Err(LogonFailed(0x0100))
  {
    hide HasControl, LooseReply, Head, Tail, WithControl, Parse, Decode;
    StrayIgnored(st, id, None, 16, stray);
    ControlMeans(refusal, 0x0001);
    LooseMeans(refusal, id);
    assert UntilControl(Tail(st), 0x0001, Logon) == Got(Ok(refusal), Tail(Tail(st)), 1);
  }

  /** The places where the init wait finds its reply: the last one holds it, the others do not. */
  predicate InitFoundAt(st: Stream, from: nat, id: PacketId, device: BtAddr, at: seq<nat>) {
    && 0 < |at| <= 16 && RepliesHeard(st, from, at)
    && (forall i :: 0 <= i < |at| - 1 ==> !IsInitReply(ItemFrame(st, at[i]), id, device))
    && IsInitReply(ItemFrame(st, at[|at| - 1]), id, device)
  }

  lemma {:induction false} HeardFrames(st: Stream, from: nat, at: seq<nat>)
    requires RepliesHeard(st, from, at)
    ensures forall i :: 0 <= i < |at| ==> ItemAt(st, at[i]) == Arrived(ItemFrame(st, at[i]))
    ensures forall i :: 0 <= i < |at| ==> HasControl(ItemFrame(st, at[i]), 0x0001)
    decreases |at|
  {
    hide HasControl, ItemAt;
    if at != [] {
      HeardFrames(st, at[0] + 1, at[1..]);
      assert forall i :: 0 < i < |at| ==> at[i] == at[1..][i - 1];
    }
  }

  lemma InitIsPicked(st: Stream, from: nat, id: PacketId, device: BtAddr, at: seq<nat>)
    requires InitFoundAt(st, from, id, device, at)
    ensures Picked(st, from, WithInitReply(id, device), 16, at)
    ensures InitPicked(st, id, device, at) == InitReply(ItemFrame(st, at[|at| - 1]), id, device)
  {
    hide HasControl, ItemAt, IsInitReply, InitReply, WithInitReply, WithControl, Heard, RepliesHeard;
    RepliesAreHeard(st, from, at);
    HeardFrames(st, from, at);
    forall i | 0 <= i < |at| ensures Accepted(st, WithInitReply(id, device), at[i])
                                 <==> IsInitReply(ItemFrame(st, at[i]), id, device) {
      InitMeans(ItemFrame(st, at[i]), id, device);
    }
  }

  /** The handshake up to its logoff request, if everything before it goes out: the identity is
      that in the init reply. */
  lemma IdentityStored(s: Setup, from: Cursor, t: nat, init: seq<nat>) returns (cur: Cursor)
    requires SendsGo(from.link.sends, 3)
    requires Head(from.link.stream).Arrived? && IsHello(Head(from.link.stream).frame)
    requires TopologyAt(from.link.stream, t) && Parse(Head(from.link.stream).frame).Ok?
    requires InitFoundAt(from.link.stream, t + 1, NthId(from.pktId, 1),
                         Parse(Head(from.link.stream).frame).value.localBt, init)
    ensures Run(s, from) == SendLogoff(s, cur)
    ensures cur.link.stream == Drop(from.link.stream, Onward(t + 1, init)) && cur.pktId == NthId(from.pktId, 1)
    ensures cur.link.sends == LaterSends(LaterSends(LaterSends(from.link.sends)))
    ensures SendsGo(from.link.sends, 5) <==> SendsGo(cur.link.sends, 2)
    ensures CarriesId(ItemFrame(from.link.stream, init[|init| - 1]), NthId(from.pktId, 1))
    ensures var h := PacketIn(ItemFrame(from.link.stream, init[|init| - 1])).header;
      cur.susyId == h.appSusyId && cur.serial == h.appSerial
  {
    hide Run, Parse, Decode, IsHello, TopologyAt, SendsGo, IsInitReply, ItemFrame, ListenInit, Drop, ItemAt, InitReply,
      SendLogoff, FailureOf, LaterSends, NthId, InitFoundAt, RepliesHeard, Picked, WithInitReply, CarriesId;
    var st := from.link.stream;
    var id, target := NthId(from.pktId, 1), Parse(Head(st).frame).value.localBt;
    var c3 := InitAwaited(s, from, t);
    InitFoundLast(st, t + 1, id, target, init);
    InitIsPicked(st, t + 1, id, target, init);
    PickedReply(st, t + 1, id, target, init);
    InitFollows(st, t + 1, id, target, 16, init);
    InitMeans(ItemFrame(st, init[|init| - 1]), id, target);
    InitCarries(ItemFrame(st, init[|init| - 1]), id, target);
    var r := InitReply(ItemFrame(st, init[|init| - 1]), id, target).value;
    var c4 := Received(c3, Drop(st, Onward(t + 1, init)), Onward(t + 1, init) - (t + 1));
    cur := c4.(susyId := r.appSusyId, serial := r.appSerial);
  }

  /** And up to its logon request. */
  lemma LogonAwaited(s: Setup, from: Cursor, t: nat, init: seq<nat>) returns (cur: Cursor)
    requires SendsGo(from.link.sends, 5)
    requires Head(from.link.stream).Arrived? && IsHello(Head(from.link.stream).frame)
    requires TopologyAt(from.link.stream, t) && Parse(Head(from.link.stream).frame).Ok?
    requires InitFoundAt(from.link.stream, t + 1, NthId(from.pktId, 1),
                         Parse(Head(from.link.stream).frame).value.localBt, init)
    ensures Run(s, from) == AwaitLogon(cur)
    ensures cur.link.stream == Drop(from.link.stream, Onward(t + 1, init)) && cur.pktId == NthId(from.pktId, 3)
    ensures CarriesId(ItemFrame(from.link.stream, init[|init| - 1]), NthId(from.pktId, 1))
    ensures var h := PacketIn(ItemFrame(from.link.stream, init[|init| - 1])).header;
      cur.susyId == h.appSusyId && cur.serial == h.appSerial
  {
    hide Run, Parse, Decode, IsHello, TopologyAt, SendsGo, ItemFrame, Drop, AwaitLogon, SendLogoff, NextId, NthId,
      InitFoundAt, CarriesId;
    SendsGoLess(from.link.sends);
    var stored := IdentityStored(s, from, t, init);
    cur := LogonSent(s, stored);
    IdsFollow(from.pktId);
  }

  lemma InitFoundLast(st: Stream, from: nat, id: PacketId, device: BtAddr, at: seq<nat>)
    requires InitFoundAt(st, from, id, device, at)
    ensures at != [] && IsInitReply(ItemFrame(st, at[|at| - 1]), id, device)
  {
    hide IsInitReply, ItemFrame, RepliesHeard;
  }

  lemma InitCarries(b: bytes, id: PacketId, device: BtAddr)
    requires IsInitReply(b, id, device)
    ensures CarriesId(b, id) && Parse(b).Ok? && Decode(Parse(b).value.payload).Some?
  {
    hide Parse, Decode;
  }

  lemma IdsFollow(id: PacketId)
    ensures NthId(id, 3) == NextId(NextId(NthId(id, 1)))
  {
    hide NextId;
    NthSteps(id);
  }

  lemma SendsGoLess(s: Sends)
    ensures SendsGo(s, 5) ==> SendsGo(s, 3)
  {
    hide FailureOf, LaterSends;
    OneSend(s, 5);
    OneSend(LaterSends(s), 4);
    OneSend(LaterSends(LaterSends(s)), 3);
    OneSend(s, 3);
    OneSend(LaterSends(s), 2);
    OneSend(LaterSends(LaterSends(s)), 1);
    NoSends(LaterSends(LaterSends(LaterSends(s))));
  }

  /** Logoff and logon go out. */
  lemma LogonSent(s: Setup, cur: Cursor) returns (next: Cursor)
    requires SendsGo(cur.link.sends, 2)
    ensures SendLogoff(s, cur) == AwaitLogon(next)
    ensures next.link.stream == cur.link.stream && next.pktId == NextId(NextId(cur.pktId))
    ensures next.susyId == cur.susyId && next.serial == cur.serial
  {
    hide AwaitLogon, LogoffWire, LogonWire, FailureOf, LaterSends, NextId, SendsGo;
    OneSend(cur.link.sends, 2);
    OneSend(LaterSends(cur.link.sends), 1);
    var id := NextId(cur.pktId);
    var c4 := Attempted(cur.(pktId := id), LogoffWire(s.cfg.localBt, s.appSerial, id));
    next := Attempted(c4.(pktId := NextId(id)), LogonWire(s, NextId(id)));
  }

  /** The frames that come one after the other are no more: sixteen of them, or a failed receive
      or twelve other frames where the next should be. */
  ghost predicate AllReplies(st: Stream, from: nat, at: seq<nat>) {
    && RepliesHeard(st, from, at) && |at| <= 16
    && (|at| < 16 ==>
          exists k :: LastWait(st, Onward(from, at), k))
  }

  /** The last of the frames at some places that carries an id. */
  predicate LastCarrier(st: Stream, at: seq<nat>, id: PacketId, i: nat) {
    && i < |at| && CarriesId(ItemFrame(st, at[i]), id)
    && forall j :: i < j < |at| ==> !CarriesId(ItemFrame(st, at[j]), id)
  }

  predicate LastWait(st: Stream, from: nat, k: nat) {
    from <= k <= from + 12 && NoControl(st, 0x0001, from, k) && (k == from + 12 || ItemAt(st, k).Failed?)
  }

  lemma StoppedWait(st: Stream, from: nat)
    requires Stops(st, from, WithControl(0x0001), 12)
    ensures exists k :: LastWait(st, from, k)
  {
    hide HasControl, ItemAt, WithControl;
    var k :| StopsAt(st, from, WithControl(0x0001), 12, k);
    forall j | from <= j < k ensures ItemAt(st, j).Arrived? && !HasControl(ItemAt(st, j).frame, 0x0001) {
      ControlMeans(ItemAt(st, j).frame, 0x0001);
    }
    assert LastWait(st, from, k);
  }

  /** Once everything is sent and the init reply is in, the frames with control word 1 that come
      in time decide: logged in if one of them carries the logon id and code 0; else the code of
      the last one that carries the logon id is reported, or silence if none does. */
  lemma LogonOnFrames(s: Setup, from: Cursor, t: nat, init: seq<nat>) returns (at: seq<nat>)
    requires SendsGo(from.link.sends, 5)
    requires Head(from.link.stream).Arrived? && IsHello(Head(from.link.stream).frame)
    requires TopologyAt(from.link.stream, t) && Parse(Head(from.link.stream).frame).Ok?
    requires InitFoundAt(from.link.stream, t + 1, NthId(from.pktId, 1),
                         Parse(Head(from.link.stream).frame).value.localBt, init)
    ensures AllReplies(from.link.stream, Onward(t + 1, init), at)
    ensures var st, id, o := from.link.stream, NthId(from.pktId, 3), Run(s, from);
      && (o.result.Ok? <==> exists i :: 0 <= i < |at| && SaysCode(ItemFrame(st, at[i]), id, 0))
      && (o.result.Ok? <==> o.state == LoggedIn) && (o.result.Err? ==> o.state == Enumerating)
      && (o.result.Err? && (forall i :: 0 <= i < |at| ==> !CarriesId(ItemFrame(st, at[i]), id)) ==>
            o.result == Err(Silent(Logon)))
      && (forall i: nat, c: u16 ::
            o.result.Err? && LastCarrier(st, at, id, i) && SaysCode(ItemFrame(st, at[i]), id, c) ==>
              o.result == Err(LogonFailed(c)))
  {
    hide Run, Parse, Decode, IsHello, TopologyAt, SendsGo, InitFoundAt, NthId, ListenLogon, RepliesIn, Settle, Drop,
      ItemAt, ControlFrames, CarriesId, PacketIn, ItemFrame, RepliesHeard, Stops, WithControl, Heard, LastWait;
    var st, id := from.link.stream, NthId(from.pktId, 3);
    var cur := LogonAwaited(s, from, t, init);
    at := ControlFramesHeard(st, Onward(t + 1, init), Logon, 16);
    RepliesAreHeard(st, Onward(t + 1, init), at);
    HeardFrames(st, Onward(t + 1, init), at);
    if |at| < 16 {
      StoppedWait(st, Onward(Onward(t + 1, init), at));
    }
    var fs := FramesAt(st, at);
    assert forall i :: 0 <= i < |at| ==> fs[i] == ItemFrame(st, at[i]);
    LogonSettles(cur.link.stream, id, None, 16);
    SettledOnFrames(fs, id, None);
  }

  /** A handshake that succeeds has had a usable hello as the first thing to arrive, an init reply
      with the init id from the device that said hello, and a reply with the logon id and code
      0; and it stores the identity in that init reply. */
  lemma SuccessOnFrames(s: Setup, from: Cursor) returns (init: bytes, logon: bytes)
    requires Run(s, from).result.Ok?
    ensures Head(from.link.stream).Arrived? && IsHello(Head(from.link.stream).frame)
    ensures Parse(Head(from.link.stream).frame).Ok?
    ensures Arrived(init) in from.link.stream.items && HasControl(init, 0x0001)
    ensures IsInitReply(init, NthId(from.pktId, 1), Parse(Head(from.link.stream).frame).value.localBt)
    ensures Parse(init).Ok? && Decode(Parse(init).value.payload).Some?
    ensures Run(s, from).at.susyId == PacketIn(init).header.appSusyId
    ensures Run(s, from).at.serial == PacketIn(init).header.appSerial
    ensures Arrived(logon) in from.link.stream.items && HasControl(logon, 0x0001)
    ensures SaysCode(logon, NthId(from.pktId, 3), 0)
  {
    hide Run, Parse, Decode, IsHello, HasControl, SendsGo, HelloFrom, AllHeard, IsInitReply, SaysCode, InitPicked,
      NthId, NextId, PacketIn, ItemAt, InitReply;
    HandshakeSucceedsIff(s, from);
    var t, i, l :| Welcomed(from.link, from.pktId, t, i, l);
    WelcomeFollows(s, from, t, i, l);
    var st, b := from.link.stream, Head(from.link.stream).frame;
    HelloMeans(b);
    HelloIsRead(b);
    var target := HelloFrom(b).value;
    init, logon := WelcomeFrames(st, from.pktId, target, t, i, l);
    InitMeans(init, NthId(from.pktId, 1), target);
    InitCarries(init, NthId(from.pktId, 1), target);
    FirstId(from.pktId);
  }

  lemma FirstId(id: PacketId)
    ensures NthId(id, 1) == NextId(id)
  {
    hide NextId;
    NthSteps(id);
  }

  lemma WelcomeFrames(st: Stream, id: PacketId, target: BtAddr, t: nat, i: seq<nat>, l: seq<nat>)
    returns (init: bytes, logon: bytes)
    requires AllHeard(st, id, target, t, i, l)
    ensures i != [] && Arrived(init) in st.items && HasControl(init, 0x0001) && IsInitReply(init, NthId(id, 1), target)
    ensures InitPicked(st, NthId(id, 1), target, i) == InitReply(init, NthId(id, 1), target)
    ensures Arrived(logon) in st.items && HasControl(logon, 0x0001) && SaysCode(logon, NthId(id, 3), 0)
  {
    hide Parse, Decode, HasControl, IsInitReply, SaysCode, NthId, InitReply, WithAcceptance, WithInitReply;
    init := LastPicked(st, t + 1, WithInitReply(NthId(id, 1), target), i);
    logon := LastPicked(st, Onward(0, i), WithAcceptance(NthId(id, 3)), l);
    InitMeans(init, NthId(id, 1), target);
    AcceptanceMeans(logon, NthId(id, 3));
  }

  lemma LastPicked(st: Stream, from: nat, pick: bytes -> Option<L2Reply>, at: seq<nat>) returns (b: bytes)
    requires Picked(st, from, pick, 16, at)
    ensures at != [] && ItemAt(st, at[|at| - 1]) == Arrived(b) && Arrived(b) in st.items
    ensures HasControl(b, 0x0001) && pick(b).Some?
  {
    hide HasControl, WithControl;
    HeardArrived(st, from, WithControl(0x0001), 12, at);
    b := ItemAt(st, at[|at| - 1]).frame;
    ControlMeans(b, 0x0001);
  }

  /** The same for the logoff and the logon that follow the init reply. */
  lemma LogonNotSent(s: Setup, from: Cursor, t: nat, init: seq<nat>, e: TransportError)
    requires SendsGo(from.link.sends, 3)
    requires Head(from.link.stream).Arrived? && IsHello(Head(from.link.stream).frame)
    requires TopologyAt(from.link.stream, t) && Parse(Head(from.link.stream).frame).Ok?
    requires InitFoundAt(from.link.stream, t + 1, NthId(from.pktId, 1),
                         Parse(Head(from.link.stream).frame).value.localBt, init)
    requires var sends := LaterSends(LaterSends(LaterSends(from.link.sends)));
      FailureOf(sends) == Some(e) || (FailureOf(sends).None? && FailureOf(LaterSends(sends)) == Some(e))
    ensures Run(s, from).result == Err(TransportFailed(e)) && Run(s, from).state == Enumerating
  {
    hide Run, Parse, Decode, IsHello, TopologyAt, SendsGo, FailureOf, LaterSends, NextId, NthId, InitFoundAt, Drop,
      LogoffWire, LogonWire, AwaitLogon, CarriesId, ItemFrame;
    var cur := IdentityStored(s, from, t, init);
  }

  /** A request that cannot be sent, once the hello and the topology are in, ends the handshake in
      enumeration with the error of the transport. */
  lemma InitNotSent(s: Setup, from: Cursor, t: nat, e: TransportError)
    requires SendsGo(from.link.sends, 2) && FailureOf(LaterSends(LaterSends(from.link.sends))) == Some(e)
    requires Head(from.link.stream).Arrived? && IsHello(Head(from.link.stream).frame)
    requires TopologyAt(from.link.stream, t)
    ensures Run(s, from).result == Err(TransportFailed(e)) && Run(s, from).state == Enumerating
  {
    hide Run, Parse, IsHello, TopologyAt, SendsGo, InitWire, FailureOf, LaterSends;
    var cur := TopologyPasses(s, from, t);
  }
}
