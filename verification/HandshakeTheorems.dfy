/** What every run of the handshake guarantees, and when it succeeds. */
module HandshakeTheorems {
  import opened Bytes
  import opened Frames
  import opened Packets
  import opened Transports
  import opened Replies
  import opened Handshake
  import opened SessionTheorems
  import EndToEnd
  import FrameTheorems

  // ---------------------------------------------------------------- the nested loops

  /** The frames with control word 1 that one of the nested loops gets to see, in order. */
  function ControlFrames(st: Stream, phase: Phase, budget: nat): seq<bytes>
    decreases budget
  {
    if budget == 0 then []
    else
      var g := UntilControl(st, 0x0001, phase);
      match g.result
      case Err(_) => []
      case Ok(b) => [b] + ControlFrames(g.rest, phase, budget - 1)
  }

  /** The replies with the given id among some frames. */
  function RepliesIn(frames: seq<bytes>, want: PacketId): seq<L2Reply> {
    if frames == [] then []
    else
      (match LooseReply(frames[0], want) case Some(r) => [r] case None => [])
      + RepliesIn(frames[1..], want)
  }

  predicate Refusals(rs: seq<L2Reply>, k: nat)
    requires k <= |rs|
  {
    forall j :: 0 <= j < k ==> rs[j].errorCode != 0
  }

  /** What the logon loop makes of the replies it gets, in order. */
  function Settle(rs: seq<L2Reply>, last: Option<L2Reply>): Result<L2Reply, SessionError> {
    if rs == [] then Err(Verdict(last))
    else if rs[0].errorCode == 0 then Ok(rs[0])
    else Settle(rs[1..], Some(rs[0]))
  }

  lemma {:induction false} LogonSettles(st: Stream, want: PacketId, last: Option<L2Reply>, budget: nat)
    ensures var g := ListenLogon(st, want, last, budget);
      && g.receives <= budget * CTRL_BUDGET
      && g.result == Settle(RepliesIn(ControlFrames(st, Logon, budget), want), last)
    decreases budget
  {
    hide UntilControl, LooseReply;
    if budget > 0 {
      var g := UntilControl(st, 0x0001, Logon);
      WaitIsBounded(st, 0x0001, Logon);
      if g.result.Ok? {
        var frames := ControlFrames(g.rest, Logon, budget - 1);
        assert ([g.result.value] + frames)[1..] == frames;
        match LooseReply(g.result.value, want)
        case None =>
          LogonSettles(g.rest, want, last, budget - 1);
          assert [] + RepliesIn(frames, want) == RepliesIn(frames, want);
        case Some(r) =>
          LogonSettles(g.rest, want, Some(r), budget - 1);
          assert ([r] + RepliesIn(frames, want))[1..] == RepliesIn(frames, want);
      }
    }
  }

  /** The reply that decides: the first with code 0, if there is one. */
  lemma {:induction false} SettleDecides(rs: seq<L2Reply>, last: Option<L2Reply>) returns (k: nat)
    ensures k <= |rs| && Refusals(rs, k)
    ensures k < |rs| ==> rs[k].errorCode == 0 && Settle(rs, last) == Ok(rs[k])
    ensures k == |rs| ==> Settle(rs, last) == Err(Verdict(if rs == [] then last else Some(rs[|rs| - 1])))
  {
    k := 0;
    if rs != [] && rs[0].errorCode != 0 {
      k := SettleDecides(rs[1..], Some(rs[0]));
      k := k + 1;
    }
  }

  /** Logon succeeds exactly when a reply with our id and code 0 is among the frames seen, and
      returns the first such reply. Otherwise it reports the code of the last refusal, or
      silence if there was none. */
  lemma LogonOutcome(st: Stream, want: PacketId)
    ensures var rs := RepliesIn(ControlFrames(st, Logon, REPLY_BUDGET), want);
      var g := ListenLogon(st, want, None, REPLY_BUDGET);
      && (g.result.Ok? <==> exists k :: 0 <= k < |rs| && rs[k].errorCode == 0)
      && (forall k :: 0 <= k < |rs| && rs[k].errorCode == 0 && Refusals(rs, k) ==> g.result == Ok(rs[k]))
      && (g.result.Err? ==>
            g.result.error == if rs == [] then Silent(Logon) else LogonFailed(rs[|rs| - 1].errorCode))
  {
    hide ControlFrames, RepliesIn, ListenLogon, Settle;
    LogonSettles(st, want, None, REPLY_BUDGET);
    var k := SettleDecides(RepliesIn(ControlFrames(st, Logon, REPLY_BUDGET), want), None);
  }

  lemma WaitIsBounded(st: Stream, want: u16, phase: Phase)
    ensures UntilControl(st, want, phase).receives <= CTRL_BUDGET
    ensures UntilControl(st, want, phase).result.Err? ==> IsWaitError(UntilControl(st, want, phase).result.error, phase)
  {
    ListenFailures(st, WithControl(want), phase, CTRL_BUDGET);
  }

  /** The init wait returns the first reply, among the frames seen, that carries our id and
      comes from the device that said hello; without one it fails as the last wait did. */
  lemma {:induction false} InitOutcome(st: Stream, want: PacketId, target: BtAddr, budget: nat) returns (k: nat)
    ensures var fs, g := ControlFrames(st, Init, budget), ListenInit(st, want, target, budget);
      && g.receives <= budget * CTRL_BUDGET
      && k <= |fs| && (forall j :: 0 <= j < k ==> InitReply(fs[j], want, target).None?)
      && (g.result.Ok? <==> k < |fs|)
      && (k < |fs| ==> InitReply(fs[k], want, target) == Some(g.result.value))
      && (g.result.Err? ==> IsWaitError(g.result.error, Init))
    decreases budget
  {
    hide UntilControl, InitReply;
    k := 0;
    if budget > 0 {
      var g := UntilControl(st, 0x0001, Init);
      WaitIsBounded(st, 0x0001, Init);
      if g.result.Ok? && InitReply(g.result.value, want, target).None? {
        k := InitOutcome(g.rest, want, target, budget - 1);
        k := k + 1;
      }
    }
  }

  /** A frame that really arrived, with the given control word. */
  predicate IsControlFrame(items: seq<Item>, f: bytes, want: u16) {
    Arrived(f) in items && Parse(f).Ok? && Parse(f).value.control == want
  }

  lemma WaitFindsControl(st: Stream, want: u16, phase: Phase)
    ensures var g := UntilControl(st, want, phase);
      && (forall i :: i in g.rest.items ==> i in st.items)
      && (g.result.Ok? ==> IsControlFrame(st.items, g.result.value, want))
  {
    hide Parse;
    var k := ListenStops(st, WithControl(want), phase, CTRL_BUDGET);
    if UntilControl(st, want, phase).result.Ok? {
      var b := ItemAt(st, k).frame;
      assert WithControl(want)(b) == ControlFrame(b, want);
    }
  }

  /** Every frame a nested loop sees really arrived, and carries control word 1. */
  lemma {:induction false} ControlFramesArrived(st: Stream, phase: Phase, budget: nat, j: nat)
    requires j < |ControlFrames(st, phase, budget)|
    ensures IsControlFrame(st.items, ControlFrames(st, phase, budget)[j], 0x0001)
    decreases budget
  {
    hide Parse, UntilControl;
    var g := UntilControl(st, 0x0001, phase);
    WaitFindsControl(st, 0x0001, phase);
    if j > 0 {
      ControlFramesArrived(g.rest, phase, budget - 1, j - 1);
    }
  }

  /** The frames at some places of the stream. */
  function FramesAt(st: Stream, at: seq<nat>): seq<bytes>
    requires forall k :: 0 <= k < |at| ==> ItemAt(st, at[k]).Arrived?
  {
    seq(|at|, k requires 0 <= k < |at| => ItemAt(st, at[k]).frame)
  }

  lemma {:induction false} HeardArrived<T>(st: Stream, from: nat, accept: bytes -> Option<T>, budget: nat, at: seq<nat>)
    requires Heard(st, from, accept, budget, at)
    ensures forall k :: 0 <= k < |at| ==> from <= at[k] && Accepted(st, accept, at[k])
    ensures forall k :: 0 <= k < |at| ==> ItemAt(st, at[k]).Arrived?
    ensures from <= Onward(from, at)
    decreases |at|
  {
    hide ItemAt;
    if at != [] {
      HeardArrived(st, at[0] + 1, accept, budget, at[1..]);
      assert forall k :: 0 < k < |at| ==> at[k] == at[1..][k - 1];
    }
  }

  /** The frames a nested loop sees are, in order, those with control word 1 in the stream, each
      the first within twelve receives of the one before; they end with its budget of turns, or
      where the next twelve receives bring none before one fails. */
  lemma {:induction false} ControlFramesHeard(st: Stream, from: nat, phase: Phase, budget: nat) returns (at: seq<nat>)
    ensures Heard(st, from, WithControl(0x0001), 12, at)
    ensures forall k :: 0 <= k < |at| ==> ItemAt(st, at[k]).Arrived?
    ensures ControlFrames(Drop(st, from), phase, budget) == FramesAt(st, at)
    ensures |at| == budget || (|at| < budget && Stops(st, Onward(from, at), WithControl(0x0001), 12))
    decreases budget
  {
    hide Listen, ItemAt, Drop, WithControl, SkippedBetween, Stops;
    at := [];
    if budget > 0 {
      var k := WaitFindsOrStops(st, from, WithControl(0x0001), phase, CTRL_BUDGET);
      var g := Listen(Drop(st, from), WithControl(0x0001), phase, CTRL_BUDGET);
      assert g == UntilControl(Drop(st, from), 0x0001, phase);
      if g.result.Ok? {
        WaitFinds(st, from, WithControl(0x0001), phase, CTRL_BUDGET, k);
        AcceptedAsItIs(ItemAt(st, k).frame, 0x0001);
        var more := ControlFramesHeard(st, k + 1, phase, budget - 1);
        at := [k] + more;
        assert at[1..] == more;
        assert FramesAt(st, at) == [ItemAt(st, k).frame] + FramesAt(st, more);
      }
    }
  }

  lemma AcceptedAsItIs(b: bytes, want: u16)
    ensures WithControl(want)(b).Some? ==> WithControl(want)(b).value == b
  {
    hide Parse;
  }

  /** The frames with control word 1 up to and including the first that is picked. */
  predicate Picked(st: Stream, from: nat, pick: bytes -> Option<L2Reply>, budget: nat, at: seq<nat>) {
    && 0 < |at| <= budget
    && Heard(st, from, WithControl(0x0001), 12, at)
    && (forall k :: 0 <= k < |at| - 1 ==> !Accepted(st, pick, at[k]))
    && Accepted(st, pick, at[|at| - 1])
  }

  /** Picks the init reply with our id from the device that said hello. */
  function WithInitReply(want: PacketId, target: BtAddr): bytes -> Option<L2Reply> {
    b => InitReply(b, want, target)
  }

  /** Picks a reply with our id that accepts the logon. */
  function WithAcceptance(want: PacketId): bytes -> Option<L2Reply> {
    b => Acceptance(LooseReply(b, want))
  }

  function Acceptance(reply: Option<L2Reply>): Option<L2Reply> {
    match reply
    case None => None
    case Some(r) => if r.errorCode == 0 then Some(r) else None
  }

  lemma PickedLater(st: Stream, from: nat, pick: bytes -> Option<L2Reply>, budget: nat, at: seq<nat>)
    requires |at| > 0 && budget > 0
    ensures |at| > 1 ==>
      (Picked(st, from, pick, budget, at) <==>
        && from <= at[0] < from + CTRL_BUDGET && SkippedBetween(st, WithControl(0x0001), from, at[0])
        && Accepted(st, WithControl(0x0001), at[0]) && !Accepted(st, pick, at[0])
        && Picked(st, at[0] + 1, pick, budget - 1, at[1..]))
    ensures |at| == 1 ==>
      (Picked(st, from, pick, budget, at) <==>
        && from <= at[0] < from + CTRL_BUDGET && SkippedBetween(st, WithControl(0x0001), from, at[0])
        && Accepted(st, WithControl(0x0001), at[0]) && Accepted(st, pick, at[0]))
    ensures Onward(from, at) == Onward(at[0] + 1, at[1..])
  {
    hide SkippedBetween, Accepted, WithControl;
    var more := at[1..];
    assert forall k :: 0 < k < |at| ==> at[k] == more[k - 1];
    assert |at| > 1 ==> more[|more| - 1] == at[|at| - 1];
    assert |at| == 1 ==> more == [] && Heard(st, at[0] + 1, WithControl(0x0001), CTRL_BUDGET, more);
    assert |at| > 1 && Picked(st, from, pick, budget, at) ==> !Accepted(st, pick, at[0]);
    if |at| > 1 && Picked(st, at[0] + 1, pick, budget - 1, more) {
      forall k | 0 <= k < |at| - 1 && k > 0 ensures !Accepted(st, pick, at[k]) {
        assert at[k] == more[k - 1];
      }
    }
    if |at| > 1 && Picked(st, from, pick, budget, at) {
      forall k | 0 <= k < |more| - 1 ensures !Accepted(st, pick, more[k]) {
        assert more[k] == at[k + 1];
      }
    }
  }

  /** The init wait succeeds where the stream brings the init reply. */
  lemma {:induction false} InitFollows(st: Stream, from: nat, want: PacketId, target: BtAddr, budget: nat, at: seq<nat>)
    requires Picked(st, from, WithInitReply(want, target), budget, at)
    ensures from <= Onward(from, at)
    ensures ListenInit(Drop(st, from), want, target, budget)
            == Got(Ok(WithInitReply(want, target)(ItemAt(st, at[|at| - 1]).frame).value),
                   Drop(st, Onward(from, at)), Onward(from, at) - from)
    decreases |at|
  {
    hide Listen, ItemAt, Drop, WithControl, InitReply, SkippedBetween, Picked;
    assert 0 < |at| <= budget by { PickedSize(st, from, WithInitReply(want, target), budget, at); }
    PickedLater(st, from, WithInitReply(want, target), budget, at);
    WaitFinds(st, from, WithControl(0x0001), Init, CTRL_BUDGET, at[0]);
    AcceptedAsItIs(ItemAt(st, at[0]).frame, 0x0001);
    if |at| > 1 {
      InitFollows(st, at[0] + 1, want, target, budget - 1, at[1..]);
    }
  }

  lemma PickedSize(st: Stream, from: nat, pick: bytes -> Option<L2Reply>, budget: nat, at: seq<nat>)
    requires Picked(st, from, pick, budget, at)
    ensures 0 < |at| <= budget
  {
  }

  /** And only there. */
  lemma {:induction false} InitFound(st: Stream, from: nat, want: PacketId, target: BtAddr, budget: nat)
    returns (at: seq<nat>)
    requires ListenInit(Drop(st, from), want, target, budget).result.Ok?
    ensures Picked(st, from, WithInitReply(want, target), budget, at)
    decreases budget
  {
    hide Listen, ItemAt, Drop, WithControl, InitReply, SkippedBetween, Picked;
    var k := WaitFindsOrStops(st, from, WithControl(0x0001), Init, CTRL_BUDGET);
    WaitFinds(st, from, WithControl(0x0001), Init, CTRL_BUDGET, k);
    AcceptedAsItIs(ItemAt(st, k).frame, 0x0001);
    at := [k];
    if !Accepted(st, WithInitReply(want, target), k) {
      var more := InitFound(st, k + 1, want, target, budget - 1);
      PickedSize(st, k + 1, WithInitReply(want, target), budget - 1, more);
      at := [k] + more;
      assert at[1..] == more;
    }
    PickedLater(st, from, WithInitReply(want, target), budget, at);
  }

  /** The logon wait succeeds where the stream brings the first acceptance, whatever was refused
      before. */
  lemma {:induction false} LogonFollows(st: Stream, from: nat, want: PacketId, last: Option<L2Reply>, budget: nat,
                                        at: seq<nat>)
    requires Picked(st, from, WithAcceptance(want), budget, at)
    ensures from <= Onward(from, at)
    ensures ListenLogon(Drop(st, from), want, last, budget)
            == Got(Ok(WithAcceptance(want)(ItemAt(st, at[|at| - 1]).frame).value),
                   Drop(st, Onward(from, at)), Onward(from, at) - from)
    decreases |at|
  {
    hide Listen, ItemAt, Drop, WithControl, LooseReply, SkippedBetween, Picked;
    assert 0 < |at| <= budget by { PickedSize(st, from, WithAcceptance(want), budget, at); }
    PickedLater(st, from, WithAcceptance(want), budget, at);
    WaitFinds(st, from, WithControl(0x0001), Logon, CTRL_BUDGET, at[0]);
    AcceptedAsItIs(ItemAt(st, at[0]).frame, 0x0001);
    if |at| > 1 {
      var reply := LooseReply(ItemAt(st, at[0]).frame, want);
      LogonFollows(st, at[0] + 1, want, if reply.Some? then reply else last, budget - 1, at[1..]);
    }
  }

  /** And only there. */
  lemma {:induction false} LogonFound(st: Stream, from: nat, want: PacketId, last: Option<L2Reply>, budget: nat)
    returns (at: seq<nat>)
    requires ListenLogon(Drop(st, from), want, last, budget).result.Ok?
    ensures Picked(st, from, WithAcceptance(want), budget, at)
    decreases budget
  {
    hide Listen, ItemAt, Drop, WithControl, LooseReply, SkippedBetween, Picked;
    var k := WaitFindsOrStops(st, from, WithControl(0x0001), Logon, CTRL_BUDGET);
    WaitFinds(st, from, WithControl(0x0001), Logon, CTRL_BUDGET, k);
    AcceptedAsItIs(ItemAt(st, k).frame, 0x0001);
    at := [k];
    if !Accepted(st, WithAcceptance(want), k) {
      var reply := LooseReply(ItemAt(st, k).frame, want);
      var more := LogonFound(st, k + 1, want, if reply.Some? then reply else last, budget - 1);
      PickedSize(st, k + 1, WithAcceptance(want), budget - 1, more);
      at := [k] + more;
      assert at[1..] == more;
    }
    PickedLater(st, from, WithAcceptance(want), budget, at);
  }

  /** A refusal with code 0x0100 does not end the logon: an acceptance right after it logs on,
      and if nothing but a timeout follows, its code is what is reported. */
  lemma RefusalThenAcceptance(f: Frame, h: L2Header, id: PacketId, body: bytes, st: Stream)
    requires id < APP_PACKET_BIT && f.control == 0x0001 && |Echo(f, h.(errorCode := 0x0100), id, body)| <= 0xFFFF
    requires Head(st) == Arrived(Echo(f, h.(errorCode := 0x0100), id, body))
    ensures var acceptance := Echo(f, h.(errorCode := 0), id, body);
      Head(Tail(st)) == Arrived(acceptance) && |acceptance| <= 0xFFFF ==>
        ListenLogon(st, id, None, REPLY_BUDGET).result == Ok(L2Reply(id, 0, h.appSusyId, h.appSerial, body))
    ensures Head(Tail(st)) == Failed(Timeout) ==>
      ListenLogon(st, id, None, REPLY_BUDGET).result == Err(LogonFailed(0x0100))
  {
    hide Echo, Head, Tail, LooseReply, ControlFrame;
    var refusal, acceptance := Echo(f, h.(errorCode := 0x0100), id, body), Echo(f, h.(errorCode := 0), id, body);
    EchoIsControl(f, h.(errorCode := 0x0100), id, body);
    assert UntilControl(st, 0x0001, Logon) == Got(Ok(refusal), Tail(st), 1);
    if Head(Tail(st)) == Arrived(acceptance) && |acceptance| <= 0xFFFF {
      EchoIsControl(f, h.(errorCode := 0), id, body);
      assert UntilControl(Tail(st), 0x0001, Logon) == Got(Ok(acceptance), Tail(Tail(st)), 1);
    }
  }

  lemma EchoIsControl(f: Frame, h: L2Header, id: PacketId, body: bytes)
    requires id < APP_PACKET_BIT && |Echo(f, h, id, body)| <= 0xFFFF
    ensures ControlFrame(Echo(f, h, id, body), f.control) == Some(Echo(f, h, id, body))
    ensures LooseReply(Echo(f, h, id, body), id) == Some(L2Reply(id, h.errorCode, h.appSusyId, h.appSerial, body))
  {
    hide Parse, Decode, Encode, Wire;
    var p := Packet(h.(pktId := id), body);
    EndToEnd.EncodedHasSignature(p);
    FrameTheorems.L2RoundTripIff(f.localBt, f.destBt, f.control, Encode(p));
    DecodeInvertsEncode(p);
  }

  // ---------------------------------------------------------------- the handshake

  /** The five frames of a complete handshake. */
  function Script(s: Setup, id: PacketId, netId: byte, target: BtAddr): (r: seq<bytes>)
    ensures |r| == 5
  {
    [VerWire(), EchoWire(netId, target), InitWire(s, NthId(id, 1)),
     LogoffWire(s.cfg.localBt, s.appSerial, NthId(id, 2)), LogonWire(s, NthId(id, 3))]
  }

  /** Where a handshake that started from `from` stands after n frames. */
  ghost predicate Reached(s: Setup, from: Cursor, netId: byte, target: BtAddr, n: nat, cur: Cursor) {
    && n <= 5
    && cur.attempts == from.attempts + Script(s, from.pktId, netId, target)[..n]
    && cur.pktId == NthId(from.pktId, if n <= 2 then 0 else n - 2)
  }

  /** The outcome of a handshake that handed n frames to the transport. */
  ghost predicate Sound(s: Setup, from: Cursor, netId: byte, target: BtAddr, n: nat, o: Outcome) {
    && 1 <= n
    && Reached(s, from, netId, target, n, o.at)
    && (o.result.Ok? <==> o.state == LoggedIn)
    && (o.result.Ok? ==> n == 5)
    && (o.result.Err? ==> o.state == (if n <= 2 then Handshaking else Enumerating) && IsSessionFatal(o.result.error))
  }

  lemma OneMore(s: Setup, from: Cursor, netId: byte, target: BtAddr, n: nat, cur: Cursor, id: PacketId)
    requires n < 5 && Reached(s, from, netId, target, n, cur)
    requires id == if n < 2 then cur.pktId else NextId(cur.pktId)
    ensures Reached(s, from, netId, target, n + 1,
                    Attempted(cur.(pktId := id), Script(s, from.pktId, netId, target)[n]))
  {
    hide Script, NextId;
    var sc := Script(s, from.pktId, netId, target);
    assert sc[..n] + [sc[n]] == sc[..n + 1];
    assert from.attempts + sc[..n] + [sc[n]] == from.attempts + sc[..n + 1];
  }

  lemma ScriptFrames(s: Setup, from: Cursor, netId: byte, target: BtAddr, n: nat, cur: Cursor)
    requires n < 5 && Reached(s, from, netId, target, n, cur)
    ensures var sc := Script(s, from.pktId, netId, target);
      match n
      case 0 => sc[0] == VerWire()
      case 1 => sc[1] == EchoWire(netId, target)
      case 2 => sc[2] == InitWire(s, NextId(cur.pktId))
      case 3 => sc[3] == LogoffWire(s.cfg.localBt, s.appSerial, NextId(cur.pktId))
      case _ => sc[4] == LogonWire(s, NextId(cur.pktId))
  {
    hide VerWire, EchoWire, InitWire, LogoffWire, LogonWire;
    assert NthId(from.pktId, 1) == NextId(NthId(from.pktId, 0));
  }

  lemma AwaitLogonSound(s: Setup, from: Cursor, netId: byte, target: BtAddr, cur: Cursor)
    requires Reached(s, from, netId, target, 5, cur)
    ensures Sound(s, from, netId, target, 5, AwaitLogon(cur))
    ensures AwaitLogon(cur).at.receives <= cur.receives + REPLY_BUDGET * CTRL_BUDGET
    ensures AwaitLogon(cur).at.susyId == cur.susyId && AwaitLogon(cur).at.serial == cur.serial
  {
    hide ListenLogon, Script, NthId;
    LogonSettles(cur.link.stream, cur.pktId, None, REPLY_BUDGET);
    SettleFails(RepliesIn(ControlFrames(cur.link.stream, Logon, REPLY_BUDGET), cur.pktId), None);
  }

  lemma SendLogonSound(s: Setup, from: Cursor, netId: byte, target: BtAddr, cur: Cursor) returns (n: nat)
    requires Reached(s, from, netId, target, 4, cur)
    ensures Sound(s, from, netId, target, n, SendLogon(s, cur)) && 5 <= n
    ensures SendLogon(s, cur).at.receives <= cur.receives + REPLY_BUDGET * CTRL_BUDGET
    ensures SendLogon(s, cur).at.susyId == cur.susyId && SendLogon(s, cur).at.serial == cur.serial
  {
    hide AwaitLogon, Script, LogonWire, NextId, NthId;
    n := 5;
    var id := NextId(cur.pktId);
    ScriptFrames(s, from, netId, target, 4, cur);
    OneMore(s, from, netId, target, 4, cur, id);
    if FailureOf(cur.link.sends).None? {
      AwaitLogonSound(s, from, netId, target, Attempted(cur.(pktId := id), LogonWire(s, id)));
    }
  }

  lemma LogOnSound(s: Setup, from: Cursor, netId: byte, target: BtAddr, cur: Cursor) returns (n: nat)
    requires Reached(s, from, netId, target, 3, cur)
    ensures Sound(s, from, netId, target, n, SendLogoff(s, cur)) && 4 <= n
    ensures SendLogoff(s, cur).at.receives <= cur.receives + REPLY_BUDGET * CTRL_BUDGET
    ensures SendLogoff(s, cur).at.susyId == cur.susyId && SendLogoff(s, cur).at.serial == cur.serial
  {
    hide SendLogon, Script, LogoffWire, NextId, NthId;
    n := 4;
    var id := NextId(cur.pktId);
    ScriptFrames(s, from, netId, target, 3, cur);
    OneMore(s, from, netId, target, 3, cur, id);
    if FailureOf(cur.link.sends).None? {
      n := SendLogonSound(s, from, netId, target,
                          Attempted(cur.(pktId := id), LogoffWire(s.cfg.localBt, s.appSerial, id)));
    }
  }

  lemma SettleFails(rs: seq<L2Reply>, last: Option<L2Reply>)
    ensures Settle(rs, last).Err? ==> IsSessionFatal(Settle(rs, last).error)
  {
    var k := SettleDecides(rs, last);
  }

  /** The identity a handshake stores: unchanged, or taken from an init reply that arrived,
      carries the init id and comes from the device whose hello was accepted. */
  ghost predicate IdentityFrom(items: seq<Item>, id: PacketId, target: BtAddr, susyId: u16, serial: u32) {
    exists f :: Arrived(f) in items && InitReply(f, id, target).Some?
             && InitReply(f, id, target).value.appSusyId == susyId
             && InitReply(f, id, target).value.appSerial == serial
  }

  lemma AwaitInitSound(s: Setup, from: Cursor, netId: byte, target: BtAddr, cur: Cursor) returns (n: nat)
    requires Reached(s, from, netId, target, 3, cur)
    ensures var o := AwaitInit(s, cur, target);
      && Sound(s, from, netId, target, n, o) && 3 <= n
      && o.at.receives <= cur.receives + 2 * REPLY_BUDGET * CTRL_BUDGET
      && (n == 3 ==> o.at.susyId == cur.susyId && o.at.serial == cur.serial)
      && (n > 3 ==> IdentityFrom(cur.link.stream.items, cur.pktId, target, o.at.susyId, o.at.serial))
  {
    hide ListenInit, Script, SendLogoff, InitReply, NextId, NthId, IdentityFrom, ControlFrames, IsWaitError;
    n := 3;
    var id, st := cur.pktId, cur.link.stream;
    var g := ListenInit(st, id, target, REPLY_BUDGET);
    var k := InitOutcome(st, id, target, REPLY_BUDGET);
    if g.result.Ok? {
      var r := g.result.value;
      ControlFramesArrived(st, Init, REPLY_BUDGET, k);
      IdentityFound(st.items, ControlFrames(st, Init, REPLY_BUDGET)[k], id, target);
      n := LogOnSound(s, from, netId, target,
                      Received(cur, g.rest, g.receives).(susyId := r.appSusyId, serial := r.appSerial));
    } else {
      WaitErrorIsFatal(g.result.error, Init);
    }
  }

  lemma WaitErrorIsFatal(e: SessionError, phase: Phase)
    requires IsWaitError(e, phase) && phase != Query && phase != EventLog
    ensures IsSessionFatal(e)
  {
  }

  lemma IdentifySound(s: Setup, from: Cursor, netId: byte, target: BtAddr, cur: Cursor) returns (n: nat)
    requires Reached(s, from, netId, target, 2, cur)
    ensures var o := SendInit(s, cur, target);
      && Sound(s, from, netId, target, n, o) && 3 <= n
      && o.at.receives <= cur.receives + 2 * REPLY_BUDGET * CTRL_BUDGET
      && (n == 3 ==> o.at.susyId == cur.susyId && o.at.serial == cur.serial)
      && (n > 3 ==> IdentityFrom(cur.link.stream.items, NextId(from.pktId), target, o.at.susyId, o.at.serial))
  {
    hide AwaitInit, Script, InitWire, NextId, NthId, IdentityFrom;
    n := 3;
    assert NthId(from.pktId, 0) == from.pktId by { NoSteps(from.pktId); }
    var id := NextId(cur.pktId);
    ScriptFrames(s, from, netId, target, 2, cur);
    OneMore(s, from, netId, target, 2, cur, id);
    if FailureOf(cur.link.sends).None? {
      n := AwaitInitSound(s, from, netId, target, Attempted(cur.(pktId := id), InitWire(s, id)));
    }
  }

  lemma NoSteps(id: PacketId)
    ensures NthId(id, 0) == id
  {
  }

  lemma IdentityFound(items: seq<Item>, f: bytes, id: PacketId, target: BtAddr)
    requires Arrived(f) in items && InitReply(f, id, target).Some?
    ensures var r := InitReply(f, id, target).value;
      IdentityFrom(items, id, target, r.appSusyId, r.appSerial)
  {
    hide InitReply;
  }

  /** For every link: the handshake ends within 397 receives; what it hands to the transport is
      a prefix of the five-frame script, with consecutive ids on the last three; it ends
      logged in exactly when it succeeds; every error it returns is fatal to the session; and
      the identity it stores comes from an init reply of the device that said hello. */
  lemma HandshakeSound(s: Setup, from: Cursor) returns (netId: byte, target: BtAddr, n: nat)
    ensures var o := Run(s, from);
      && Sound(s, from, netId, target, n, o)
      && o.at.receives <= from.receives + 397
      && (n >= 2 ==> HelloAccepted(from.link.stream, netId, target))
      && (n <= 3 ==> o.at.susyId == from.susyId && o.at.serial == from.serial)
      && (n > 3 ==> IdentityFrom(from.link.stream.items, NextId(from.pktId), target, o.at.susyId, o.at.serial))
  {
    hide Script, EchoWire, VerWire, SendEcho, HelloFrom, IdentityFrom, NthId;
    netId, target, n := 0, NO_BT, 1;
    assert NthId(from.pktId, 0) == from.pktId by { NoSteps(from.pktId); }
    var c1 := Attempted(from, VerWire());
    Started(s, from, netId, target);
    if FailureOf(from.link.sends).None? && Head(c1.link.stream).Arrived? {
      var b := Head(c1.link.stream).frame;
      HelloErrorsAreFatal(b);
      if HelloFrom(b).Ok? {
        netId, target := b[22], HelloFrom(b).value;
        Started(s, from, netId, target);
        n := EchoSound(s, from, netId, target, Received(c1, Tail(c1.link.stream), 1));
        StillArrived(Tail(c1.link.stream).items, from.link.stream.items, NextId(from.pktId), target);
      }
    }
  }

  lemma HelloErrorsAreFatal(b: bytes)
    ensures HelloFrom(b).Err? ==> IsSessionFatal(HelloFrom(b).error)
  {
    hide Parse;
  }

  lemma Started(s: Setup, from: Cursor, netId: byte, target: BtAddr)
    ensures Reached(s, from, netId, target, 1, Attempted(from, VerWire()))
  {
    hide Script, VerWire;
    NoSteps(from.pktId);
    assert Script(s, from.pktId, netId, target)[..0] == [];
    ScriptFrames(s, from, netId, target, 0, from);
    OneMore(s, from, netId, target, 0, from, from.pktId);
  }

  lemma EchoSound(s: Setup, from: Cursor, netId: byte, target: BtAddr, cur: Cursor) returns (n: nat)
    requires Reached(s, from, netId, target, 1, cur)
    ensures var o := SendEcho(s, cur, netId, target);
      && Sound(s, from, netId, target, n, o) && 2 <= n
      && o.at.receives <= cur.receives + CTRL_BUDGET + 2 * REPLY_BUDGET * CTRL_BUDGET
      && (n <= 3 ==> o.at.susyId == cur.susyId && o.at.serial == cur.serial)
      && (n > 3 ==> IdentityFrom(cur.link.stream.items, NextId(from.pktId), target, o.at.susyId, o.at.serial))
  {
    hide UntilControl, Script, EchoWire, SendInit, NextId, NthId, IdentityFrom, IsControlFrame;
    var c2 := Attempted(cur, EchoWire(netId, target));
    ScriptFrames(s, from, netId, target, 1, cur);
    OneMore(s, from, netId, target, 1, cur, cur.pktId);
    n := 2;
    if FailureOf(cur.link.sends).None? {
      var g := UntilControl(c2.link.stream, 0x0005, Topology);
      WaitIsBounded(c2.link.stream, 0x0005, Topology);
      WaitFindsControl(c2.link.stream, 0x0005, Topology);
      if g.result.Ok? {
        n := IdentifySound(s, from, netId, target, Received(c2, g.rest, g.receives));
        StillArrived(g.rest.items, cur.link.stream.items, NextId(from.pktId), target);
      }
    }
  }

  /** The hello was the first thing to arrive, and names the network and the device. */
  ghost predicate HelloAccepted(st: Stream, netId: byte, target: BtAddr) {
    Head(st).Arrived? && HelloFrom(Head(st).frame) == Ok(target) && Head(st).frame[22] == netId
  }

  lemma StillArrived(few: seq<Item>, all: seq<Item>, id: PacketId, target: BtAddr)
    requires forall i :: i in few ==> i in all
    ensures forall susyId, serial :: IdentityFrom(few, id, target, susyId, serial)
                                 ==> IdentityFrom(all, id, target, susyId, serial)
  {
    hide InitReply;
  }

  // ---------------------------------------------------------------- when it succeeds

  /** The next n sends all go through. */
  predicate SendsGo(s: Sends, n: nat)
    decreases n
  {
    n == 0 || (FailureOf(s).None? && SendsGo(LaterSends(s), n - 1))
  }

  /** What has to arrive after the hello, and where: a topology frame, the init reply of the
      device that said hello, the acceptance of the logon. */
  predicate AllHeard(st: Stream, id: PacketId, target: BtAddr, topology: nat, init: seq<nat>, logon: seq<nat>) {
    && Heard(st, 1, WithControl(0x0005), 12, [topology])
    && Picked(st, topology + 1, WithInitReply(NthId(id, 1), target), 16, init)
    && Picked(st, Onward(0, init), WithAcceptance(NthId(id, 3)), 16, logon)
  }

  lemma OneSend(s: Sends, n: nat)
    requires n > 0
    ensures SendsGo(s, n) <==> FailureOf(s).None? && SendsGo(LaterSends(s), n - 1)
  {
  }

  lemma NthSteps(id: PacketId)
    ensures NthId(id, 1) == NextId(id) && NthId(id, 3) == NextId(NextId(NextId(id)))
  {
    hide NextId;
    NoSteps(id);
    assert NthId(id, 2) == NextId(NthId(id, 1));
  }

  lemma LogOnFollows(s: Setup, st: Stream, from: nat, cur: Cursor, logon: seq<nat>)
    requires cur.link.stream == Drop(st, from) && SendsGo(cur.link.sends, 2)
    requires Picked(st, from, WithAcceptance(NextId(NextId(cur.pktId))), REPLY_BUDGET, logon)
    ensures var o := SendLogoff(s, cur);
      && o.result.Ok? && o.at.receives + from == cur.receives + Onward(from, logon)
      && o.at.susyId == cur.susyId && o.at.serial == cur.serial
  {
    hide Drop, Picked, FailureOf, LaterSends, ListenLogon, LogoffWire, LogonWire, NextId, SendsGo;
    OneSend(cur.link.sends, 2);
    OneSend(LaterSends(cur.link.sends), 1);
    LogonFollows(st, from, NextId(NextId(cur.pktId)), None, REPLY_BUDGET, logon);
  }

  lemma LogOnFound(s: Setup, st: Stream, from: nat, cur: Cursor) returns (logon: seq<nat>)
    requires cur.link.stream == Drop(st, from) && SendLogoff(s, cur).result.Ok?
    ensures SendsGo(cur.link.sends, 2)
    ensures Picked(st, from, WithAcceptance(NextId(NextId(cur.pktId))), REPLY_BUDGET, logon)
  {
    hide Drop, Picked, FailureOf, LaterSends, ListenLogon, LogoffWire, LogonWire, NextId, SendsGo;
    OneSend(cur.link.sends, 2);
    OneSend(LaterSends(cur.link.sends), 1);
    NoSends(LaterSends(LaterSends(cur.link.sends)));
    logon := LogonFound(st, from, NextId(NextId(cur.pktId)), None, REPLY_BUDGET);
  }

  lemma NoSends(s: Sends)
    ensures SendsGo(s, 0)
  {
  }

  /** The init reply and the acceptance, each where the stream brings it. */
  predicate IdentityAndLogon(st: Stream, from: nat, id: PacketId, target: BtAddr, init: seq<nat>, logon: seq<nat>) {
    && Picked(st, from, WithInitReply(NextId(id), target), REPLY_BUDGET, init)
    && Picked(st, Onward(from, init), WithAcceptance(NextId(NextId(NextId(id)))), REPLY_BUDGET, logon)
  }

  /** The reply an init wait picked. */
  function InitPicked(st: Stream, id: PacketId, target: BtAddr, init: seq<nat>): Option<L2Reply>
    requires init != []
  {
    match ItemAt(st, init[|init| - 1])
    case Failed(_) => None
    case Arrived(b) => InitReply(b, id, target)
  }

  lemma PickedReply(st: Stream, from: nat, id: PacketId, target: BtAddr, init: seq<nat>)
    requires Picked(st, from, WithInitReply(id, target), REPLY_BUDGET, init)
    ensures init != [] && from <= Onward(from, init) && Accepted(st, WithInitReply(id, target), init[|init| - 1])
    ensures InitPicked(st, id, target, init) == WithInitReply(id, target)(ItemAt(st, init[|init| - 1]).frame)
    ensures InitPicked(st, id, target, init).Some?
  {
    hide InitReply, ItemAt, WithControl;
    HeardArrived(st, from, WithControl(0x0001), CTRL_BUDGET, init);
  }

  lemma IdentifyFollows(s: Setup, st: Stream, from: nat, cur: Cursor, target: BtAddr, init: seq<nat>, logon: seq<nat>)
    requires cur.link.stream == Drop(st, from) && SendsGo(cur.link.sends, 3)
    requires IdentityAndLogon(st, from, cur.pktId, target, init, logon)
    ensures init != [] && InitPicked(st, NextId(cur.pktId), target, init).Some?
    ensures var o, r := SendInit(s, cur, target), InitPicked(st, NextId(cur.pktId), target, init).value;
      && o.result.Ok? && o.at.receives + from == cur.receives + Onward(from, logon)
      && o.at.susyId == r.appSusyId && o.at.serial == r.appSerial
  {
    hide Drop, Picked, FailureOf, LaterSends, ListenInit, InitWire, SendLogoff, NextId, SendsGo, InitReply, ItemAt,
      WithInitReply;
    OneSend(cur.link.sends, 3);
    var id := NextId(cur.pktId);
    PickedReply(st, from, id, target, init);
    InitFollows(st, from, id, target, REPLY_BUDGET, init);
    var r := InitPicked(st, id, target, init).value;
    var c3 := Attempted(cur.(pktId := id), InitWire(s, id));
    var next := Received(c3, Drop(st, Onward(from, init)), Onward(from, init) - from);
    LogOnFollows(s, st, Onward(from, init), next.(susyId := r.appSusyId, serial := r.appSerial), logon);
    assert Onward(Onward(from, init), logon) == Onward(from, logon) by {
      PickedSize(st, Onward(from, init), WithAcceptance(NextId(NextId(id))), REPLY_BUDGET, logon);
    }
  }

  lemma IdentifyFound(s: Setup, st: Stream, from: nat, cur: Cursor, target: BtAddr)
    returns (init: seq<nat>, logon: seq<nat>)
    requires cur.link.stream == Drop(st, from) && SendInit(s, cur, target).result.Ok?
    ensures SendsGo(cur.link.sends, 3)
    ensures IdentityAndLogon(st, from, cur.pktId, target, init, logon)
  {
    hide Drop, Picked, FailureOf, LaterSends, ListenInit, InitWire, SendLogoff, NextId, SendsGo, InitReply, ItemAt,
      WithInitReply;
    OneSend(cur.link.sends, 3);
    var id := NextId(cur.pktId);
    init := InitFound(st, from, id, target, REPLY_BUDGET);
    PickedReply(st, from, id, target, init);
    InitFollows(st, from, id, target, REPLY_BUDGET, init);
    var r := InitPicked(st, id, target, init).value;
    var c3 := Attempted(cur.(pktId := id), InitWire(s, id));
    var next := Received(c3, Drop(st, Onward(from, init)), Onward(from, init) - from);
    logon := LogOnFound(s, st, Onward(from, init), next.(susyId := r.appSusyId, serial := r.appSerial));
  }

  lemma EchoFollows(s: Setup, st: Stream, cur: Cursor, netId: byte, target: BtAddr, topology: nat, init: seq<nat>,
                    logon: seq<nat>)
    requires cur.link.stream == Drop(st, 1) && SendsGo(cur.link.sends, 4)
    requires AllHeard(st, cur.pktId, target, topology, init, logon)
    ensures init != [] && InitPicked(st, NextId(cur.pktId), target, init).Some?
    ensures var o, r := SendEcho(s, cur, netId, target), InitPicked(st, NextId(cur.pktId), target, init).value;
      && o.result.Ok? && o.at.receives + 1 == cur.receives + Onward(1, logon)
      && o.at.susyId == r.appSusyId && o.at.serial == r.appSerial
  {
    hide Drop, Picked, FailureOf, LaterSends, Listen, EchoWire, SendInit, NextId, SendsGo, ItemAt, InitPicked,
      WithControl, SkippedBetween;
    OneSend(cur.link.sends, 4);
    WaitFinds(st, 1, WithControl(0x0005), Topology, CTRL_BUDGET, topology);
    var c2 := Attempted(cur, EchoWire(netId, target));
    assert UntilControl(c2.link.stream, 0x0005, Topology) ==
      Listen(c2.link.stream, WithControl(0x0005), Topology, CTRL_BUDGET);
    var next := Received(c2, Drop(st, topology + 1), topology);
    HeardIds(st, cur.pktId, target, topology, init, logon);
    IdentifyFollows(s, st, topology + 1, next, target, init, logon);
    assert Onward(topology + 1, logon) == Onward(1, logon) by {
      var id := NextId(NextId(NextId(cur.pktId)));
      PickedSize(st, Onward(topology + 1, init), WithAcceptance(id), REPLY_BUDGET, logon);
    }
  }

  lemma HeardIds(st: Stream, id: PacketId, target: BtAddr, topology: nat, init: seq<nat>, logon: seq<nat>)
    ensures AllHeard(st, id, target, topology, init, logon)
       <==> Heard(st, 1, WithControl(0x0005), CTRL_BUDGET, [topology])
            && IdentityAndLogon(st, topology + 1, id, target, init, logon)
  {
    hide Picked, Heard, NextId;
    NthSteps(id);
    if AllHeard(st, id, target, topology, init, logon) || IdentityAndLogon(st, topology + 1, id, target, init, logon) {
      PickedSize(st, topology + 1, WithInitReply(NextId(id), target), REPLY_BUDGET, init);
    }
  }

  lemma EchoFound(s: Setup, st: Stream, cur: Cursor, netId: byte, target: BtAddr)
    returns (topology: nat, init: seq<nat>, logon: seq<nat>)
    requires cur.link.stream == Drop(st, 1) && SendEcho(s, cur, netId, target).result.Ok?
    ensures SendsGo(cur.link.sends, 4)
    ensures AllHeard(st, cur.pktId, target, topology, init, logon)
  {
    hide Drop, Picked, FailureOf, LaterSends, Listen, EchoWire, SendInit, NextId, SendsGo, ItemAt, WithControl,
      SkippedBetween, Accepted, AllHeard, IdentityAndLogon, Heard;
    OneSend(cur.link.sends, 4);
    var c2 := Attempted(cur, EchoWire(netId, target));
    assert UntilControl(c2.link.stream, 0x0005, Topology) ==
      Listen(c2.link.stream, WithControl(0x0005), Topology, CTRL_BUDGET);
    topology := WaitFindsOrStops(st, 1, WithControl(0x0005), Topology, CTRL_BUDGET);
    WaitFinds(st, 1, WithControl(0x0005), Topology, CTRL_BUDGET, topology);
    HeardOnce(st, 1, WithControl(0x0005), CTRL_BUDGET, topology);
    var next := Received(c2, Drop(st, topology + 1), topology);
    init, logon := IdentifyFound(s, st, topology + 1, next, target);
    HeardIds(st, cur.pktId, target, topology, init, logon);
  }

  lemma HeardOnce<T>(st: Stream, from: nat, accept: bytes -> Option<T>, budget: nat, k: nat)
    requires from <= k < from + budget && SkippedBetween(st, accept, from, k) && Accepted(st, accept, k)
    ensures Heard(st, from, accept, budget, [k])
  {
    hide SkippedBetween, Accepted;
    assert [k][1..] == [];
  }

  /** All of it: the five frames go out, the first thing to arrive is a usable hello, and then,
      each in its time and before any failed receive, come a topology frame, an init reply with
      the init id from the device that said hello, and an acceptance with the logon id. */
  predicate Welcomed(link: Link, id: PacketId, topology: nat, init: seq<nat>, logon: seq<nat>) {
    && SendsGo(link.sends, 5)
    && Head(link.stream).Arrived? && HelloFrom(Head(link.stream).frame).Ok?
    && AllHeard(link.stream, id, HelloFrom(Head(link.stream).frame).value, topology, init, logon)
  }

  /** If that comes, the handshake succeeds, receives exactly through the acceptance, and stores
      the identity the init reply names. */
  lemma WelcomeFollows(s: Setup, from: Cursor, topology: nat, init: seq<nat>, logon: seq<nat>)
    requires Welcomed(from.link, from.pktId, topology, init, logon)
    ensures var target := HelloFrom(Head(from.link.stream).frame).value;
      && init != [] && InitPicked(from.link.stream, NextId(from.pktId), target, init).Some?
      && var o, r := Run(s, from), InitPicked(from.link.stream, NextId(from.pktId), target, init).value;
         && o.result.Ok? && o.state == LoggedIn && o.at.receives == from.receives + Onward(1, logon)
         && o.at.susyId == r.appSusyId && o.at.serial == r.appSerial
  {
    hide HelloFrom, AllHeard, VerWire, SendEcho, SendsGo, FailureOf, LaterSends, Drop, NextId, InitPicked,
      IdentityFrom, Script, NthId;
    OneSend(from.link.sends, 5);
    var st := from.link.stream;
    assert Tail(st) == Drop(st, 1) by { FirstDropped(st); }
    var b, target := Head(st).frame, HelloFrom(Head(st).frame).value;
    EchoFollows(s, st, Received(Attempted(from, VerWire()), Tail(st), 1), b[22], target, topology, init, logon);
    SuccessIsLoggedIn(s, from);
  }

  lemma SuccessIsLoggedIn(s: Setup, from: Cursor)
    ensures Run(s, from).result.Ok? ==> Run(s, from).state == LoggedIn
  {
    hide Run, IdentityFrom, HelloAccepted, Reached;
    var netId, target, n := HandshakeSound(s, from);
  }

  lemma FirstDropped(st: Stream)
    ensures Tail(st) == Drop(st, 1)
  {
  }

  /** The handshake succeeds exactly when that comes. */
  lemma HandshakeSucceedsIff(s: Setup, from: Cursor)
    ensures Run(s, from).result.Ok?
       <==> exists topology, init, logon :: Welcomed(from.link, from.pktId, topology, init, logon)
  {
    hide HelloFrom, AllHeard, VerWire, SendEcho, SendsGo, FailureOf, LaterSends, Drop, NextId, InitPicked;
    var st := from.link.stream;
    if Run(s, from).result.Ok? {
      OneSend(from.link.sends, 5);
      assert Tail(st) == Drop(st, 1) by { FirstDropped(st); }
      var b, target := Head(st).frame, HelloFrom(Head(st).frame).value;
      var topology, init, logon := EchoFound(s, st, Received(Attempted(from, VerWire()), Tail(st), 1), b[22], target);
      assert Welcomed(from.link, from.pktId, topology, init, logon);
    }
    forall topology, init, logon | Welcomed(from.link, from.pktId, topology, init, logon)
      ensures Run(s, from).result.Ok?
    {
      WelcomeFollows(s, from, topology, init, logon);
    }
  }
}
