/** How a session listens: the bounded receive loops as functions of what arrives. */
module Replies {
  import opened Bytes
  import opened Stuffing
  import opened Frames
  import opened Packets
  import opened Transports

  datatype Phase =
    | Hello | HelloCtrl | HelloShort | Topology | Init | Logon
    | Query | QueryNotLoggedIn | EventLog | EventLogNotLoggedIn | EventLogRetcode

  datatype SessionError =
    | TransportFailed(transport: TransportError)
    | ParseFailed(parse: ParseError)
    | LogonFailed(code: u16)
    | FirmwareTooOld(version: byte)
    | Protocol(phase: Phase)
    | Silent(phase: Phase)

  /** Whether the session itself is broken, or just one device failed to answer. */
  predicate IsSessionFatal(e: SessionError) {
    match e
    case TransportFailed(_) => true
    case ParseFailed(_) => true
    case LogonFailed(_) => true
    case FirmwareTooOld(_) => true
    case Protocol(phase) => !(phase.Query? || phase.EventLog?)
    case Silent(phase) => !(phase.Query? || phase.EventLog?)
  }

  datatype L2Reply = L2Reply(pktId: PacketId, errorCode: u16, appSusyId: u16, appSerial: u32, body: bytes)

  function ReplyOf(p: Packet): L2Reply {
    L2Reply(p.header.pktId, p.header.errorCode, p.header.appSusyId, p.header.appSerial, p.body)
  }

  /** A failed receive, as the session reports it: a timeout is silence in that phase. */
  function ReceiveError(e: TransportError, phase: Phase): SessionError {
    if e.Timeout? then Silent(phase) else TransportFailed(e)
  }

  /** What a wait ends with, what is left to receive after it, and how many receives it took. */
  datatype Got<+T> = Got(result: Result<T, SessionError>, rest: Stream, receives: nat)

  function Later<T>(g: Got<T>, n: nat): Got<T> {
    Got(g.result, g.rest, g.receives + n)
  }

  /** Receive up to budget frames until one is accepted; frames that are not are skipped. */
  function Listen<T>(st: Stream, accept: bytes -> Option<T>, phase: Phase, budget: nat): Got<T>
    decreases budget
  {
    if budget == 0 then Got(Err(Silent(phase)), st, 0)
    else
      match Head(st)
      case Failed(e) => Got(Err(ReceiveError(e, phase)), Tail(st), 1)
      case Arrived(b) =>
        match accept(b)
        case Some(t) => Got(Ok(t), Tail(st), 1)
        case None => Later(Listen(Tail(st), accept, phase, budget - 1), 1)
  }

  /** One turn of the loop, with the receives made so far already counted. */
  lemma ListenTurn<T>(st: Stream, accept: bytes -> Option<T>, phase: Phase, budget: nat, made: nat)
    requires budget > 0
    ensures Later(Listen(st, accept, phase, budget), made) ==
      match Head(st)
      case Failed(e) => Got(Err(ReceiveError(e, phase)), Tail(st), made + 1)
      case Arrived(b) =>
        match accept(b)
        case Some(t) => Got(Ok(t), Tail(st), made + 1)
        case None => Later(Listen(Tail(st), accept, phase, budget - 1), made + 1)
  {
  }

  lemma LaterNone<T>(g: Got<T>)
    ensures Later(g, 0) == g
  {
  }

  lemma ListenOver<T>(st: Stream, accept: bytes -> Option<T>, phase: Phase, made: nat)
    ensures Later(Listen(st, accept, phase, 0), made) == Got(Err(Silent(phase)), st, made)
  {
  }

  /** Accepts any frame with the given layer-1 control word, as raw bytes. */
  function WithControl(want: u16): bytes -> Option<bytes> {
    b => ControlFrame(b, want)
  }

  function ControlFrame(b: bytes, want: u16): Option<bytes> {
    match Parse(b)
    case Err(_) => None
    case Ok(f) => if f.control == want then Some(b) else None
  }

  /** Accepts a layer-2 frame whose packet carries the given id. */
  function WithPktId(want: PacketId): bytes -> Option<L2Reply> {
    b => MatchingReply(b, want)
  }

  function MatchingReply(b: bytes, want: PacketId): Option<L2Reply> {
    match Parse(b)
    case Err(_) => None
    case Ok(f) =>
      if !f.kind.L2Wrapped? then None else
      match Decode(f.payload)
      case None => None
      case Some(p) => if p.header.pktId == want then Some(ReplyOf(p)) else None
  }

  /** The packet with the given id inside a frame, whatever the frame kind. */
  function LooseReply(b: bytes, want: PacketId): Option<L2Reply> {
    match Parse(b)
    case Err(_) => None
    case Ok(f) =>
      match Decode(f.payload)
      case None => None
      case Some(p) => if p.header.pktId == want then Some(ReplyOf(p)) else None
  }

  /** The reply to our init request from the device that said hello. */
  function InitReply(b: bytes, want: PacketId, target: BtAddr): Option<L2Reply> {
    match Parse(b)
    case Err(_) => None
    case Ok(f) =>
      match Decode(f.payload)
      case None => None
      case Some(p) =>
        if p.header.pktId == want && f.localBt == target then Some(ReplyOf(p)) else None
  }

  const CTRL_BUDGET: nat := 12
  const REPLY_BUDGET: nat := 16
  const FRAGMENT_BUDGET: nat := 32

  function UntilControl(st: Stream, want: u16, phase: Phase): Got<bytes> {
    Listen(st, WithControl(want), phase, CTRL_BUDGET)
  }

  function ListenInit(st: Stream, want: PacketId, target: BtAddr, budget: nat): Got<L2Reply>
    decreases budget
  {
    if budget == 0 then Got(Err(Silent(Init)), st, 0)
    else
      var g := UntilControl(st, 0x0001, Init);
      match g.result
      case Err(e) => Got(Err(e), g.rest, g.receives)
      case Ok(b) =>
        match InitReply(b, want, target)
        case Some(r) => Got(Ok(r), g.rest, g.receives)
        case None => Later(ListenInit(g.rest, want, target, budget - 1), g.receives)
  }

  lemma InitTurn(st: Stream, want: PacketId, target: BtAddr, budget: nat, made: nat)
    requires budget > 0
    ensures Later(ListenInit(st, want, target, budget), made) ==
      var g := UntilControl(st, 0x0001, Init);
      match g.result
      case Err(e) => Got(Err(e), g.rest, made + g.receives)
      case Ok(b) =>
        match InitReply(b, want, target)
        case Some(r) => Got(Ok(r), g.rest, made + g.receives)
        case None => Later(ListenInit(g.rest, want, target, budget - 1), made + g.receives)
  {
    hide UntilControl, InitReply;
  }

  lemma InitOver(st: Stream, want: PacketId, target: BtAddr, made: nat)
    ensures Later(ListenInit(st, want, target, 0), made) == Got(Err(Silent(Init)), st, made)
  {
  }

  /** What the logon loop reports when nobody accepted. */
  function Verdict(lastReject: Option<L2Reply>): SessionError {
    match lastReject
    case None => Silent(Logon)
    case Some(r) => LogonFailed(r.errorCode)
  }

  function ListenLogon(st: Stream, want: PacketId, lastReject: Option<L2Reply>, budget: nat): Got<L2Reply>
    decreases budget
  {
    if budget == 0 then Got(Err(Verdict(lastReject)), st, 0)
    else
      var g := UntilControl(st, 0x0001, Logon);
      match g.result
      case Err(_) => Got(Err(Verdict(lastReject)), g.rest, g.receives)
      case Ok(b) =>
        match LooseReply(b, want)
        case None => Later(ListenLogon(g.rest, want, lastReject, budget - 1), g.receives)
        case Some(r) =>
          if r.errorCode == 0 then Got(Ok(r), g.rest, g.receives)
          else Later(ListenLogon(g.rest, want, Some(r), budget - 1), g.receives)
  }

  lemma LogonTurn(st: Stream, want: PacketId, lastReject: Option<L2Reply>, budget: nat, made: nat)
    requires budget > 0
    ensures Later(ListenLogon(st, want, lastReject, budget), made) ==
      var g := UntilControl(st, 0x0001, Logon);
      match g.result
      case Err(_) => Got(Err(Verdict(lastReject)), g.rest, made + g.receives)
      case Ok(b) =>
        match LooseReply(b, want)
        case None => Later(ListenLogon(g.rest, want, lastReject, budget - 1), made + g.receives)
        case Some(r) =>
          if r.errorCode == 0 then Got(Ok(r), g.rest, made + g.receives)
          else Later(ListenLogon(g.rest, want, Some(r), budget - 1), made + g.receives)
  {
    hide UntilControl, LooseReply;
  }

  lemma LogonOver(st: Stream, want: PacketId, lastReject: Option<L2Reply>, made: nat)
    ensures Later(ListenLogon(st, want, lastReject, 0), made) == Got(Err(Verdict(lastReject)), st, made)
  {
  }

  /** The fragments of one event-log reply. */
  function ListenFragments(st: Stream, want: PacketId, budget: nat): Got<seq<L2Reply>>
    decreases budget
  {
    if budget == 0 then Got(Ok([]), st, 0)
    else
      var g := Listen(st, WithPktId(want), EventLog, REPLY_BUDGET);
      match g.result
      case Err(e) => Got(Err(e), g.rest, g.receives)
      case Ok(r) =>
        if r.errorCode != 0 then Got(Err(Protocol(EventLogRetcode)), g.rest, g.receives)
        else if |r.body| <= 12 then Got(Ok([r]), g.rest, g.receives)
        else
          var more := ListenFragments(g.rest, want, budget - 1);
          match more.result
          case Err(e) => Got(Err(e), more.rest, more.receives + g.receives)
          case Ok(rs) => Got(Ok([r] + rs), more.rest, more.receives + g.receives)
  }

  function BodiesOf(rs: seq<L2Reply>): seq<bytes> {
    seq(|rs|, k requires 0 <= k < |rs| => rs[k].body)
  }

  /** The bodies of some replies, joined. */
  function Bodies(rs: seq<L2Reply>): bytes {
    Flatten(BodiesOf(rs))
  }

  function Joined(r: Result<seq<L2Reply>, SessionError>): Result<bytes, SessionError> {
    match r
    case Ok(rs) => Ok(Bodies(rs))
    case Err(e) => Err(e)
  }

  lemma BodiesGrow(rs: seq<L2Reply>, r: L2Reply)
    ensures Bodies(rs + [r]) == Bodies(rs) + r.body
  {
    assert BodiesOf(rs + [r]) == BodiesOf(rs) + [r.body];
    FlattenGrows(BodiesOf(rs), r.body);
  }

  /** The fragments already taken and receives already made, put in front. */
  function WithTaken(g: Got<seq<L2Reply>>, taken: seq<L2Reply>, made: nat): Got<seq<L2Reply>> {
    Got(match g.result case Ok(rs) => Ok(taken + rs) case Err(e) => Err(e), g.rest, g.receives + made)
  }

  lemma NothingTaken(g: Got<seq<L2Reply>>)
    ensures WithTaken(g, [], 0) == g && Bodies([]) == []
  {
    if g.result.Ok? {
      assert [] + g.result.value == g.result.value;
    }
  }

  lemma FragmentTurn(st: Stream, want: PacketId, budget: nat, taken: seq<L2Reply>, made: nat)
    requires budget > 0
    ensures WithTaken(ListenFragments(st, want, budget), taken, made) ==
      var g := Listen(st, WithPktId(want), EventLog, REPLY_BUDGET);
      match g.result
      case Err(e) => Got(Err(e), g.rest, made + g.receives)
      case Ok(r) =>
        if r.errorCode != 0 then Got(Err(Protocol(EventLogRetcode)), g.rest, made + g.receives)
        else if |r.body| <= 12 then Got(Ok(taken + [r]), g.rest, made + g.receives)
        else WithTaken(ListenFragments(g.rest, want, budget - 1), taken + [r], made + g.receives)
  {
    hide Listen, WithPktId;
    var g := Listen(st, WithPktId(want), EventLog, REPLY_BUDGET);
    if g.result.Ok? {
      var more := ListenFragments(g.rest, want, budget - 1);
      if more.result.Ok? {
        assert taken + ([g.result.value] + more.result.value) == (taken + [g.result.value]) + more.result.value;
      }
    }
  }

  lemma FragmentsOver(st: Stream, want: PacketId, taken: seq<L2Reply>, made: nat)
    ensures WithTaken(ListenFragments(st, want, 0), taken, made) == Got(Ok(taken), st, made)
  {
    assert taken + [] == taken;
  }
}
