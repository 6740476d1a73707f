/** The session as it runs over a transport. */
module Session {
  import opened Bytes
  import opened Frames
  import opened Packets
  import opened Transports
  import opened Replies
  import opened Handshake

  /** One query: its command word and the range of records it asks for. */
  datatype QueryKind = QueryKind(command: u32, first: u32, last: u32)

  function QueryWire(localBt: BtAddr, appSerial: u32, id: PacketId, susyId: u16, serial: u32, kind: QueryKind): bytes {
    PacketWire(localBt, Packet(QueryHeader(id, appSerial, susyId, serial),
                               Le32(kind.command) + Le32(kind.first) + Le32(kind.last)))
  }

  function EventLogWire(localBt: BtAddr, appSerial: u32, id: PacketId, susyId: u16, serial: u32,
                        start: u32, end: u32): bytes {
    PacketWire(localBt, Packet(EventLogHeader(id, appSerial, susyId, serial),
                               Le32(0x7010_0200) + Le32(start) + Le32(end)))
  }

  /** One query as a function of the link. */
  function QueryRun(localBt: BtAddr, appSerial: u32, susyId: u16, serial: u32, kind: QueryKind, cur: Cursor):
    (Result<bytes, SessionError>, Cursor)
  {
    var id := NextId(cur.pktId);
    var next := Attempted(cur.(pktId := id), QueryWire(localBt, appSerial, id, susyId, serial, kind));
    match FailureOf(cur.link.sends)
    case Some(e) => (Err(TransportFailed(e)), next)
    case None =>
      var g := Listen(next.link.stream, WithPktId(id), Query, REPLY_BUDGET);
      (match g.result case Ok(r) => Ok(r.body) case Err(e) => Err(e), Received(next, g.rest, g.receives))
  }

  /** One event-log query as a function of the link. */
  function EventLogRun(localBt: BtAddr, appSerial: u32, susyId: u16, serial: u32, start: u32, end: u32, cur: Cursor):
    (Result<bytes, SessionError>, Cursor)
  {
    var id := NextId(cur.pktId);
    var next := Attempted(cur.(pktId := id), EventLogWire(localBt, appSerial, id, susyId, serial, start, end));
    match FailureOf(cur.link.sends)
    case Some(e) => (Err(TransportFailed(e)), next)
    case None =>
      var g := ListenFragments(next.link.stream, id, FRAGMENT_BUDGET);
      (Joined(g.result), Received(next, g.rest, g.receives))
  }

  /** What a session has done, oldest first. */
  datatype Event =
    | Opening
    | HandshakeFrame(wire: bytes)
    | Login
    | QueryFrame(wire: bytes)
    | EventLogFrame(wire: bytes)
    | LogoffFrame(wire: bytes)
    | Closing

  /** Whether a history leaves the session logged in. */
  function LoggedInAfter(log: seq<Event>): bool {
    if log == [] then false
    else
      match log[|log| - 1]
      case Login => true
      case Opening => false
      case LogoffFrame(_) => false
      case Closing => false
      case _ => LoggedInAfter(log[..|log| - 1])
  }

  predicate NeedsLogin(e: Event) {
    e.QueryFrame? || e.EventLogFrame? || e.LogoffFrame?
  }

  /** No query, event-log or graceful logoff frame without a login before it. */
  predicate Orderly(log: seq<Event>) {
    forall k :: 0 <= k < |log| && NeedsLogin(log[k]) ==> LoggedInAfter(log[..k])
  }

  /** The frame an event hands to the transport, if any. */
  function FrameIn(e: Event): seq<bytes> {
    match e
    case HandshakeFrame(w) => [w]
    case QueryFrame(w) => [w]
    case EventLogFrame(w) => [w]
    case LogoffFrame(w) => [w]
    case _ => []
  }

  function FramesIn(log: seq<Event>): seq<bytes> {
    if log == [] then [] else FramesIn(log[..|log| - 1]) + FrameIn(log[|log| - 1])
  }

  lemma LogGrows(log: seq<Event>, e: Event)
    requires Orderly(log) && (NeedsLogin(e) ==> LoggedInAfter(log))
    ensures Orderly(log + [e])
    ensures LoggedInAfter(log + [e])
            == match e
               case Login => true
               case Opening => false
               case LogoffFrame(_) => false
               case Closing => false
               case _ => LoggedInAfter(log)
    ensures FramesIn(log + [e]) == FramesIn(log) + FrameIn(e)
  {
    var more := log + [e];
    assert more[..|more| - 1] == log;
    assert forall k :: 0 <= k < |log| ==> more[..k] == log[..k];
  }

  /** The events of some handshake frames. */
  function Framed(wires: seq<bytes>): seq<Event> {
    seq(|wires|, k requires 0 <= k < |wires| => HandshakeFrame(wires[k]))
  }

  /** A history that has grown by exactly the handshake frames sent in between. */
  predicate OnlyFramed(log0: seq<Event>, sent0: seq<bytes>, log1: seq<Event>, sent1: seq<bytes>) {
    sent0 <= sent1 && log1 == log0 + Framed(sent1[|sent0|..])
  }

  lemma FramedNone(log: seq<Event>, sent: seq<bytes>)
    ensures OnlyFramed(log, sent, log, sent)
  {
  }

  lemma FramedOne(log0: seq<Event>, sent0: seq<bytes>, log1: seq<Event>, sent1: seq<bytes>, wire: bytes)
    requires OnlyFramed(log0, sent0, log1, sent1)
    ensures OnlyFramed(log0, sent0, log1 + [HandshakeFrame(wire)], sent1 + [wire])
  {
    assert (sent1 + [wire])[|sent0|..] == sent1[|sent0|..] + [wire];
  }

  lemma FramedBoth(log0: seq<Event>, sent0: seq<bytes>, log1: seq<Event>, sent1: seq<bytes>, log2: seq<Event>,
                   sent2: seq<bytes>)
    requires OnlyFramed(log0, sent0, log1, sent1) && OnlyFramed(log1, sent1, log2, sent2)
    ensures OnlyFramed(log0, sent0, log2, sent2)
  {
    assert sent2[|sent0|..] == sent1[|sent0|..] + sent2[|sent1|..];
  }

  class Session {
    const transport: Transport
    const cfg: Config
    const appSerial: u32
    var state: SessionState
    var pcktid: PacketId
    var inverterSusyId: u16
    var inverterSerial: u32
    /** What the session has done, and what went out on its transport before it. */
    ghost var log: seq<Event>
    ghost const before: seq<bytes>

    /** Over any sequence of calls: the history is orderly, it lists exactly the frames handed
        to the transport, and it says whether the session is logged in. */
    ghost predicate Valid()
      reads this, transport
    {
      Recorded() && (state == LoggedIn ==> LoggedInAfter(log))
    }

    ghost predicate Recorded()
      reads this, transport
    {
      Orderly(log) && transport.attempts == before + FramesIn(log)
    }

    ghost function At(): Cursor
      reads this, transport
    {
      Cursor(transport.attempts, transport.Ahead(), transport.receives, pcktid, inverterSusyId, inverterSerial)
    }

    constructor (transport: Transport, cfg: Config, appSerial: u32)
      ensures Valid() && state == Disconnected && log == []
      ensures this.transport == transport && this.cfg == cfg && this.appSerial == appSerial
      ensures pcktid == 0 && inverterSusyId == 0 && inverterSerial == 0
    {
      this.transport, this.cfg, this.appSerial := transport, cfg, appSerial;
      state, pcktid, inverterSusyId, inverterSerial := Disconnected, 0, 0, 0;
      log, before := [], transport.attempts;
    }

    method NextPcktid() returns (id: PacketId)
      modifies `pcktid
      ensures id == pcktid == NextId(old(pcktid))
    {
      var wrapped := (pcktid + 1) % 0x1_0000;
      pcktid := if wrapped < 1 then 1 else wrapped;
      id := pcktid;
    }

    /** Hands one frame to the transport and records it. */
    method Send(wire: bytes, ghost event: Event) returns (r: Result<nat, TransportError>)
      requires Valid()
      requires FrameIn(event) == [wire]
      requires NeedsLogin(event) ==> LoggedInAfter(log)
      modifies transport, `log
      ensures log == old(log) + [event] && Recorded()
      ensures LoggedInAfter(log) == (!event.LogoffFrame? && LoggedInAfter(old(log)))
      ensures r == match FailureOf(old(At()).link.sends) case Some(e) => Err(e) case None => Ok(|wire|)
      ensures At() == Attempted(old(At()), wire)
    {
      hide Orderly, LoggedInAfter;
      LogGrows(log, event);
      r := transport.SendFrame(wire);
      log := log + [event];
    }

    method Receive(phase: Phase) returns (r: Result<bytes, SessionError>)
      modifies transport
      ensures r == match Head(old(At()).link.stream)
                   case Arrived(b) => Ok(b)
                   case Failed(e) => Err(ReceiveError(e, phase))
      ensures At() == Received(old(At()), Tail(old(At()).link.stream), 1)
    {
      var got := transport.RecvFrame();
      match got
      case Ok(b) => r := Ok(b);
      case Err(e) => r := Err(ReceiveError(e, phase));
    }

    method RecvUntilL1Ctrl(want: u16, phase: Phase) returns (r: Result<bytes, SessionError>)
      modifies transport
      ensures var g := UntilControl(old(At()).link.stream, want, phase);
        r == g.result && At() == Received(old(At()), g.rest, g.receives)
    {
      hide Parse, Listen, Later, Head, Tail;
      ghost var st, accept := At().link.stream, WithControl(want);
      LaterNone(Listen(st, accept, phase, CTRL_BUDGET));
      for attempt := 0 to CTRL_BUDGET
        invariant At() == Received(old(At()), At().link.stream, attempt)
        invariant Listen(st, accept, phase, CTRL_BUDGET)
               == Later(Listen(At().link.stream, accept, phase, CTRL_BUDGET - attempt), attempt)
      {
        ListenTurn(At().link.stream, accept, phase, CTRL_BUDGET - attempt, attempt);
        var got := Receive(phase);
        if got.Err? {
          return Err(got.error);
        }
        assert accept(got.value) == ControlFrame(got.value, want);
        match Parse(got.value)
        case Err(_) => continue;
        case Ok(frame) =>
          if frame.control == want {
            return Ok(got.value);
          }
      }
      ListenOver(At().link.stream, accept, phase, CTRL_BUDGET);
      r := Err(Silent(phase));
    }

    method RecvL2WithPktId(want: PacketId, phase: Phase) returns (r: Result<L2Reply, SessionError>)
      modifies transport
      ensures var g := Listen(old(At()).link.stream, WithPktId(want), phase, REPLY_BUDGET);
        r == g.result && At() == Received(old(At()), g.rest, g.receives)
    {
      hide Parse, Decode, Listen, Later, Head, Tail;
      ghost var st, accept := At().link.stream, WithPktId(want);
      LaterNone(Listen(st, accept, phase, REPLY_BUDGET));
      for attempt := 0 to REPLY_BUDGET
        invariant At() == Received(old(At()), At().link.stream, attempt)
        invariant Listen(st, accept, phase, REPLY_BUDGET)
               == Later(Listen(At().link.stream, accept, phase, REPLY_BUDGET - attempt), attempt)
      {
        ListenTurn(At().link.stream, accept, phase, REPLY_BUDGET - attempt, attempt);
        var got := Receive(phase);
        if got.Err? {
          return Err(got.error);
        }
        assert accept(got.value) == MatchingReply(got.value, want);
        match Parse(got.value)
        case Err(_) => continue;
        case Ok(frame) =>
          if !frame.kind.L2Wrapped? {
            continue;
          }
          match Decode(frame.payload)
          case None => continue;
          case Some(p) =>
            if p.header.pktId == want {
              return Ok(ReplyOf(p));
            }
      }
      ListenOver(At().link.stream, accept, phase, REPLY_BUDGET);
      r := Err(Silent(phase));
    }

    method RecvInitFromTarget(want: PacketId, target: BtAddr) returns (r: Result<L2Reply, SessionError>)
      modifies transport
      ensures var g := ListenInit(old(At()).link.stream, want, target, REPLY_BUDGET);
        r == g.result && At() == Received(old(At()), g.rest, g.receives)
    {
      hide Parse, Decode, UntilControl, ListenInit, Later;
      ghost var st := At().link.stream;
      ghost var made: nat := 0;
      LaterNone(ListenInit(st, want, target, REPLY_BUDGET));
      for attempt := 0 to REPLY_BUDGET
        invariant At() == Received(old(At()), At().link.stream, made)
        invariant ListenInit(st, want, target, REPLY_BUDGET)
               == Later(ListenInit(At().link.stream, want, target, REPLY_BUDGET - attempt), made)
      {
        InitTurn(At().link.stream, want, target, REPLY_BUDGET - attempt, made);
        made := made + UntilControl(At().link.stream, 0x0001, Init).receives;
        var got := RecvUntilL1Ctrl(0x0001, Init);
        if got.Err? {
          return Err(got.error);
        }
        match Parse(got.value)
        case Err(_) => continue;
        case Ok(frame) =>
          match Decode(frame.payload)
          case None => continue;
          case Some(p) =>
            if p.header.pktId != want {
              continue;
            }
            if frame.localBt != target {
              continue;
            }
            return Ok(ReplyOf(p));
      }
      InitOver(At().link.stream, want, target, made);
      r := Err(Silent(Init));
    }

    /** The logon loop of the handshake. */
    method RecvLogonReply(want: PacketId) returns (r: Result<L2Reply, SessionError>)
      modifies transport
      ensures var g := ListenLogon(old(At()).link.stream, want, None, REPLY_BUDGET);
        r == g.result && At() == Received(old(At()), g.rest, g.receives)
    {
      hide Parse, Decode, UntilControl, ListenLogon, Later;
      ghost var st := At().link.stream;
      ghost var made: nat := 0;
      var lastReject: Option<L2Reply> := None;
      LaterNone(ListenLogon(st, want, None, REPLY_BUDGET));
      for attempt := 0 to REPLY_BUDGET
        invariant At() == Received(old(At()), At().link.stream, made)
        invariant ListenLogon(st, want, None, REPLY_BUDGET)
               == Later(ListenLogon(At().link.stream, want, lastReject, REPLY_BUDGET - attempt), made)
      {
        LogonTurn(At().link.stream, want, lastReject, REPLY_BUDGET - attempt, made);
        made := made + UntilControl(At().link.stream, 0x0001, Logon).receives;
        var got := RecvUntilL1Ctrl(0x0001, Logon);
        if got.Err? {
          return Err(Verdict(lastReject));
        }
        match Parse(got.value)
        case Err(_) => continue;
        case Ok(frame) =>
          match Decode(frame.payload)
          case None => continue;
          case Some(p) =>
            if p.header.pktId != want {
              continue;
            }
            var reply := ReplyOf(p);
            if reply.errorCode == 0 {
              return Ok(reply);
            }
            lastReject := Some(reply);
      }
      LogonOver(At().link.stream, want, lastReject, made);
      r := Err(Verdict(lastReject));
    }

    /** The whole sequence: greet the piconet, identify the inverter, log on. */
    method HandshakeAndLogon(epoch: u32) returns (r: Result<(), SessionError>)
      requires Valid()
      modifies this, transport
      ensures Valid() && old(transport.attempts) <= transport.attempts
      ensures log == old(log) + [Opening] + Framed(transport.attempts[|old(transport.attempts)|..])
                     + (if r.Ok? then [Login] else [])
      ensures var o := Run(Setup(cfg, appSerial, epoch), old(At()));
        r == o.result && state == o.state && At() == o.at
      ensures r.Ok? ==> LoggedInAfter(log)
    {
      hide Run, SendInit, SendLogoff, Orderly, LoggedInAfter, FramesIn;
      var s := Setup(cfg, appSerial, epoch);
      state := Handshaking;
      Note(Opening);
      ghost var log0, sent0 := log, transport.attempts;
      var greeted := Greet(s);
      ghost var log1, sent1 := log, transport.attempts;
      if greeted.Err? {
        return Err(greeted.error);
      }
      state := Enumerating;
      var identified := Identify(s, greeted.value);
      ghost var log2, sent2 := log, transport.attempts;
      FramedBoth(log0, sent0, log1, sent1, log2, sent2);
      if identified.Err? {
        return Err(identified.error);
      }
      var accepted := LogOn(s);
      FramedBoth(log0, sent0, log2, sent2, log, transport.attempts);
      if accepted.Err? {
        return Err(accepted.error);
      }
      state := LoggedIn;
      Note(Login);
      r := accepted;
    }

    /** Announce ourselves, hear a hello, echo it, hear the topology. */
    method Greet(s: Setup) returns (r: Result<BtAddr, SessionError>)
      requires Valid() && state == Handshaking
      modifies transport, `log
      ensures Valid() && OnlyFramed(old(log), old(transport.attempts), log, transport.attempts)
      ensures match r
              case Err(e) => Run(s, old(At())) == Outcome(Err(e), Handshaking, At())
              case Ok(target) => Run(s, old(At())) == SendInit(s, At(), target)
    {
      hide Parse, HelloFrom, UntilControl, SendInit, VerWire, EchoWire, Orderly, LoggedInAfter, FramesIn, OnlyFramed;
      ghost var log0, sent0 := log, transport.attempts;
      FramedNone(log0, sent0);
      FramedOne(log0, sent0, log, transport.attempts, VerWire());
      var verSent := Send(VerWire(), HandshakeFrame(VerWire()));
      if verSent.Err? {
        return Err(TransportFailed(verSent.error));
      }
      var got := Receive(Hello);
      if got.Err? {
        return Err(got.error);
      }
      var hello := HelloFrom(got.value);
      if hello.Err? {
        return Err(hello.error);
      }
      var netId, inverterBt := got.value[22], hello.value;
      FramedOne(log0, sent0, log, transport.attempts, EchoWire(netId, inverterBt));
      var echoSent := Send(EchoWire(netId, inverterBt), HandshakeFrame(EchoWire(netId, inverterBt)));
      if echoSent.Err? {
        return Err(TransportFailed(echoSent.error));
      }
      var topology := RecvUntilL1Ctrl(0x0005, Topology);
      if topology.Err? {
        return Err(topology.error);
      }
      r := Ok(inverterBt);
    }

    /** Send init; learn the inverter's identity from the reply of the device that said hello. */
    method Identify(s: Setup, target: BtAddr) returns (r: Result<(), SessionError>)
      requires Valid() && state == Enumerating
      modifies transport, `log, `pcktid, `inverterSusyId, `inverterSerial
      ensures Valid() && OnlyFramed(old(log), old(transport.attempts), log, transport.attempts)
      ensures match r
              case Err(e) => SendInit(s, old(At()), target) == Outcome(Err(e), Enumerating, At())
              case Ok(_) => SendInit(s, old(At()), target) == SendLogoff(s, At())
    {
      hide ListenInit, SendLogoff, InitWire, Orderly, LoggedInAfter, FramesIn, OnlyFramed;
      var id := NextPcktid();
      FramedNone(log, transport.attempts);
      FramedOne(log, transport.attempts, log, transport.attempts, InitWire(s, id));
      var initSent := Send(InitWire(s, id), HandshakeFrame(InitWire(s, id)));
      if initSent.Err? {
        return Err(TransportFailed(initSent.error));
      }
      var initReply := RecvInitFromTarget(id, target);
      if initReply.Err? {
        return Err(initReply.error);
      }
      inverterSusyId := initReply.value.appSusyId;
      inverterSerial := initReply.value.appSerial;
      r := Ok(());
    }

    /** Reset any lingering session, then log on. */
    method LogOn(s: Setup) returns (r: Result<(), SessionError>)
      requires Valid() && state == Enumerating && s.cfg == cfg && s.appSerial == appSerial
      modifies transport, `log, `pcktid
      ensures Valid() && OnlyFramed(old(log), old(transport.attempts), log, transport.attempts)
      ensures SendLogoff(s, old(At())) == Outcome(r, if r.Ok? then LoggedIn else Enumerating, At())
    {
      hide ListenLogon, LogoffWire, LogonWire, Orderly, LoggedInAfter, FramesIn, OnlyFramed;
      ghost var log0, sent0 := log, transport.attempts;
      var id := NextPcktid();
      var logoff := LogoffWire(cfg.localBt, appSerial, id);
      FramedNone(log0, sent0);
      FramedOne(log0, sent0, log, transport.attempts, logoff);
      var logoffSent := Send(logoff, HandshakeFrame(logoff));
      if logoffSent.Err? {
        return Err(TransportFailed(logoffSent.error));
      }
      id := NextPcktid();
      FramedOne(log0, sent0, log, transport.attempts, LogonWire(s, id));
      var logonSent := Send(LogonWire(s, id), HandshakeFrame(LogonWire(s, id)));
      if logonSent.Err? {
        return Err(TransportFailed(logonSent.error));
      }
      var logonReply := RecvLogonReply(id);
      if logonReply.Err? {
        return Err(logonReply.error);
      }
      r := Ok(());
    }

    /** Asks one device for one range of records and returns the reply body. */
    method QueryForDevice(susyId: u16, serial: u32, kind: QueryKind) returns (r: Result<bytes, SessionError>)
      requires Valid()
      modifies transport, `log, `pcktid
      ensures Valid() && old(log) <= log
      ensures state != LoggedIn ==>
        r == Err(Protocol(QueryNotLoggedIn)) && At() == old(At()) && log == old(log)
      ensures state == LoggedIn ==>
        var q := QueryRun(cfg.localBt, appSerial, susyId, serial, kind, old(At()));
        r == q.0 && At() == q.1
      ensures state == LoggedIn ==>
        log == old(log) + [QueryFrame(QueryWire(cfg.localBt, appSerial, pcktid, susyId, serial, kind))]
      ensures LoggedInAfter(log) == LoggedInAfter(old(log))
    {
      hide QueryWire, Listen, Orderly, FramesIn, LoggedInAfter;
      if state != LoggedIn {
        return Err(Protocol(QueryNotLoggedIn));
      }
      var id := NextPcktid();
      var wire := QueryWire(cfg.localBt, appSerial, id, susyId, serial, kind);
      var sent := Send(wire, QueryFrame(wire));
      if sent.Err? {
        return Err(TransportFailed(sent.error));
      }
      var reply := RecvL2WithPktId(id, Query);
      if reply.Err? {
        return Err(reply.error);
      }
      r := Ok(reply.value.body);
    }

    /** Asks the device the handshake identified. */
    method DoQuery(kind: QueryKind) returns (r: Result<bytes, SessionError>)
      requires Valid()
      modifies transport, `log, `pcktid
      ensures Valid() && old(log) <= log
      ensures state == LoggedIn ==>
        var q := QueryRun(cfg.localBt, appSerial, inverterSusyId, inverterSerial, kind, old(At()));
        r == q.0 && At() == q.1
      ensures log == if state != LoggedIn then old(log) else
        old(log) + [QueryFrame(QueryWire(cfg.localBt, appSerial, pcktid, inverterSusyId, inverterSerial, kind))]
      ensures state != LoggedIn ==> r == Err(Protocol(QueryNotLoggedIn)) && At() == old(At())
    {
      hide QueryRun, QueryWire;
      r := QueryForDevice(inverterSusyId, inverterSerial, kind);
    }

    /** Asks one device for its event log and joins the bodies of the fragments. */
    method QueryEventLogForDevice(susyId: u16, serial: u32, start: u32, end: u32)
      returns (r: Result<bytes, SessionError>)
      requires Valid()
      modifies transport, `log, `pcktid
      ensures Valid() && old(log) <= log
      ensures state != LoggedIn ==>
        r == Err(Protocol(EventLogNotLoggedIn)) && At() == old(At()) && log == old(log)
      ensures state == LoggedIn ==>
        var q := EventLogRun(cfg.localBt, appSerial, susyId, serial, start, end, old(At()));
        r == q.0 && At() == q.1
      ensures state == LoggedIn ==>
        log == old(log) + [EventLogFrame(EventLogWire(cfg.localBt, appSerial, pcktid, susyId, serial, start, end))]
      ensures LoggedInAfter(log) == LoggedInAfter(old(log))
    {
      hide EventLogWire, ListenFragments, Bodies, Orderly, FramesIn, LoggedInAfter;
      if state != LoggedIn {
        return Err(Protocol(EventLogNotLoggedIn));
      }
      var id := NextPcktid();
      var wire := EventLogWire(cfg.localBt, appSerial, id, susyId, serial, start, end);
      var sent := Send(wire, EventLogFrame(wire));
      if sent.Err? {
        return Err(TransportFailed(sent.error));
      }
      r := CollectFragments(id);
    }

    method CollectFragments(id: PacketId) returns (r: Result<bytes, SessionError>)
      modifies transport
      ensures var g := ListenFragments(old(At()).link.stream, id, FRAGMENT_BUDGET);
        r == Joined(g.result) && At() == Received(old(At()), g.rest, g.receives)
    {
      hide ListenFragments, Listen, Bodies;
      ghost var st := At().link.stream;
      ghost var made: nat := 0;
      ghost var taken: seq<L2Reply> := [];
      var aggregated: bytes := [];
      NothingTaken(ListenFragments(st, id, FRAGMENT_BUDGET));
      for fragment := 0 to FRAGMENT_BUDGET
        invariant At() == Received(old(At()), At().link.stream, made)
        invariant aggregated == Bodies(taken)
        invariant ListenFragments(st, id, FRAGMENT_BUDGET)
               == WithTaken(ListenFragments(At().link.stream, id, FRAGMENT_BUDGET - fragment), taken, made)
      {
        FragmentTurn(At().link.stream, id, FRAGMENT_BUDGET - fragment, taken, made);
        made := made + Listen(At().link.stream, WithPktId(id), EventLog, REPLY_BUDGET).receives;
        var got := RecvL2WithPktId(id, EventLog);
        if got.Err? {
          return Err(got.error);
        }
        var reply := got.value;
        if reply.errorCode != 0 {
          return Err(Protocol(EventLogRetcode));
        }
        BodiesGrow(taken, reply);
        aggregated := aggregated + reply.body;
        taken := taken + [reply];
        if |reply.body| < 12 {
          return Ok(aggregated);
        }
        if |reply.body| == 12 {
          return Ok(aggregated);
        }
      }
      FragmentsOver(At().link.stream, id, taken, made);
      r := Ok(aggregated);
    }

    method Close()
      requires Recorded()
      modifies this, transport
      ensures Valid() && state == Disconnected && transport.closed && log == old(log) + [Closing]
      ensures transport.attempts == old(transport.attempts) && transport.receives == old(transport.receives)
      ensures pcktid == old(pcktid) && inverterSusyId == old(inverterSusyId) && inverterSerial == old(inverterSerial)
    {
      state := Disconnected;
      transport.Close();
      Note(Closing);
    }

    /** Logs off first if logged in; a failed logoff is ignored. */
    method GracefulClose()
      requires Valid()
      modifies this, transport
      ensures Valid() && state == Disconnected && transport.closed && old(log) <= log
      ensures transport.receives == old(transport.receives)
      ensures old(state) == LoggedIn ==>
        var id := NextId(old(pcktid));
        && transport.attempts == old(transport.attempts) + [LogoffWire(cfg.localBt, appSerial, id)]
        && log == old(log) + [LogoffFrame(LogoffWire(cfg.localBt, appSerial, id)), Closing]
        && pcktid == id
      ensures old(state) != LoggedIn ==>
        transport.attempts == old(transport.attempts) && log == old(log) + [Closing] && pcktid == old(pcktid)
    {
      hide LogoffWire, Orderly, FramesIn, LoggedInAfter;
      if state == LoggedIn {
        var id := NextPcktid();
        var wire := LogoffWire(cfg.localBt, appSerial, id);
        var _ := Send(wire, LogoffFrame(wire));
      }
      Close();
    }

    /** Records an event that hands no frame to the transport. */
    ghost method Note(event: Event)
      requires Recorded()
      requires event.Opening? || event.Login? || event.Closing?
      modifies `log
      ensures log == old(log) + [event]
      ensures Recorded()
      ensures LoggedInAfter(log) == event.Login?
    {
      LogGrows(log, event);
      log := log + [event];
    }
  }
}
