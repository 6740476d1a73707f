/** The handshake and logon sequence as a function of the link, stage by stage. */
module Handshake {
  import opened Bytes
  import opened Frames
  import opened Packets
  import opened Transports
  import opened Replies

  datatype SessionState = Disconnected | Handshaking | Enumerating | LoggedIn | Degraded

  datatype UserGroup = User | Installer

  datatype Config = Config(localBt: BtAddr, password: bytes, userGroup: UserGroup)

  /** What stays fixed over one handshake: the configuration, our serial, the clock reading. */
  datatype Setup = Setup(cfg: Config, appSerial: u32, epoch: u32)

  // ---------------------------------------------------------------- packet ids

  /** `wrapping_add(1).max(1)`. */
  function NextId(id: PacketId): PacketId {
    if id + 1 == 0x1_0000 then 1 else id + 1
  }

  function NthId(id: PacketId, n: nat): PacketId {
    if n == 0 then id else NextId(NthId(id, n - 1))
  }

  // ---------------------------------------------------------------- frames sent

  const NO_BT: BtAddr := [0, 0, 0, 0, 0, 0]
  const UNKNOWN_BT: BtAddr := [0xFF, 0xFF, 0xFF, 0xFF, 0xFF, 0xFF]

  function Key(group: UserGroup): byte {
    match group case User => 0x88 case Installer => 0xBB
  }

  function GroupCode(group: UserGroup): u32 {
    match group case User => 0x07 case Installer => 0x0A
  }

  /** Each of the first twelve password bytes plus the key, wrapping; the key in the rest. */
  function EncodedPassword(password: bytes, group: UserGroup): (r: bytes)
    ensures |r| == 12
  {
    seq(12, i requires 0 <= i < 12 => if i < |password| then password[i] + Key(group) else Key(group))
  }

  function VerWire(): bytes {
    Wire(Frame(L1Only, NO_BT, [1, 0, 0, 0, 0, 0], 0x0201, [0x76, 0x65, 0x72, 0x0D, 0x0A]))
  }

  function EchoWire(netId: byte, target: BtAddr): bytes {
    Wire(Frame(L1Only, NO_BT, target, 0x0002, Le32(0x0070_0400) + [netId] + Le32(0) + Le32(1)))
  }

  function PacketWire(localBt: BtAddr, p: Packet): bytes {
    Wire(Frame(L2Wrapped, localBt, UNKNOWN_BT, 0x0001, Encode(p)))
  }

  function InitWire(s: Setup, id: PacketId): bytes {
    PacketWire(s.cfg.localBt,
      Packet(InitHeader(id, s.appSerial), Le32(0x0000_0200) + [0, 0, 0, 0] + [0, 0, 0, 0]))
  }

  function LogoffWire(localBt: BtAddr, appSerial: u32, id: PacketId): bytes {
    PacketWire(localBt, Packet(LogoffHeader(id, appSerial), Le32(0xFFFD_010E) + Le32(0xFFFF_FFFF)))
  }

  function LogonCommand(s: Setup): bytes {
    Le32(0xFFFD_040C) + Le32(GroupCode(s.cfg.userGroup)) + Le32(0x0000_0384) + Le32(s.epoch)
    + [0, 0, 0, 0] + EncodedPassword(s.cfg.password, s.cfg.userGroup)
  }

  function LogonWire(s: Setup, id: PacketId): bytes {
    PacketWire(s.cfg.localBt, Packet(LogonHeader(id, s.appSerial), LogonCommand(s)))
  }

  // ---------------------------------------------------------------- the stages

  /** Everything a stage can change. */
  datatype Cursor = Cursor(
    attempts: seq<bytes>, link: Link, receives: nat, pktId: PacketId, susyId: u16, serial: u32)

  datatype Outcome = Outcome(result: Result<(), SessionError>, state: SessionState, at: Cursor)

  /** One frame handed to the transport. */
  function Attempted(cur: Cursor, wire: bytes): Cursor {
    cur.(attempts := cur.attempts + [wire],
         link := Link(cur.link.stream, LaterSends(cur.link.sends)))
  }

  function Received(cur: Cursor, rest: Stream, n: nat): Cursor {
    cur.(link := Link(rest, cur.link.sends), receives := cur.receives + n)
  }

  function Run(s: Setup, cur: Cursor): Outcome {
    var next := Attempted(cur, VerWire());
    match FailureOf(cur.link.sends)
    case Some(e) => Outcome(Err(TransportFailed(e)), Handshaking, next)
    case None => AwaitHello(s, next)
  }

  function AwaitHello(s: Setup, cur: Cursor): Outcome {
    var next := Received(cur, Tail(cur.link.stream), 1);
    match Head(cur.link.stream)
    case Failed(e) => Outcome(Err(ReceiveError(e, Hello)), Handshaking, next)
    case Arrived(b) =>
      match HelloFrom(b)
      case Err(e) => Outcome(Err(e), Handshaking, next)
      case Ok(bt) => SendEcho(s, next, b[22], bt)
  }

  /** The address a usable hello comes from. */
  function HelloFrom(b: bytes): (r: Result<BtAddr, SessionError>)
    ensures r.Ok? ==> |b| >= 23
  {
    match Parse(b)
    case Err(e) => Err(ParseFailed(e))
    case Ok(hello) =>
      if hello.control != 0x0002 then Err(Protocol(HelloCtrl))
      else if |b| < 23 then Err(Protocol(HelloShort))
      else if b[19] < 4 then Err(FirmwareTooOld(b[19]))
      else Ok(hello.localBt)
  }

  function SendEcho(s: Setup, cur: Cursor, netId: byte, target: BtAddr): Outcome {
    var next := Attempted(cur, EchoWire(netId, target));
    match FailureOf(cur.link.sends)
    case Some(e) => Outcome(Err(TransportFailed(e)), Handshaking, next)
    case None => AwaitTopology(s, next, target)
  }

  function AwaitTopology(s: Setup, cur: Cursor, target: BtAddr): Outcome {
    var g := UntilControl(cur.link.stream, 0x0005, Topology);
    var next := Received(cur, g.rest, g.receives);
    match g.result
    case Err(e) => Outcome(Err(e), Handshaking, next)
    case Ok(_) => SendInit(s, next, target)
  }

  function SendInit(s: Setup, cur: Cursor, target: BtAddr): Outcome {
    var id := NextId(cur.pktId);
    var next := Attempted(cur.(pktId := id), InitWire(s, id));
    match FailureOf(cur.link.sends)
    case Some(e) => Outcome(Err(TransportFailed(e)), Enumerating, next)
    case None => AwaitInit(s, next, target)
  }

  function AwaitInit(s: Setup, cur: Cursor, target: BtAddr): Outcome {
    var g := ListenInit(cur.link.stream, cur.pktId, target, REPLY_BUDGET);
    var next := Received(cur, g.rest, g.receives);
    match g.result
    case Err(e) => Outcome(Err(e), Enumerating, next)
    case Ok(r) => SendLogoff(s, next.(susyId := r.appSusyId, serial := r.appSerial))
  }

  function SendLogoff(s: Setup, cur: Cursor): Outcome {
    var id := NextId(cur.pktId);
    var next := Attempted(cur.(pktId := id), LogoffWire(s.cfg.localBt, s.appSerial, id));
    match FailureOf(cur.link.sends)
    case Some(e) => Outcome(Err(TransportFailed(e)), Enumerating, next)
    case None => SendLogon(s, next)
  }

  function SendLogon(s: Setup, cur: Cursor): Outcome {
    var id := NextId(cur.pktId);
    var next := Attempted(cur.(pktId := id), LogonWire(s, id));
    match FailureOf(cur.link.sends)
    case Some(e) => Outcome(Err(TransportFailed(e)), Enumerating, next)
    case None => AwaitLogon(next)
  }

  function AwaitLogon(cur: Cursor): Outcome {
    var g := ListenLogon(cur.link.stream, cur.pktId, None, REPLY_BUDGET);
    var next := Received(cur, g.rest, g.receives);
    match g.result
    case Err(e) => Outcome(Err(e), Enumerating, next)
    case Ok(_) => Outcome(Ok(()), LoggedIn, next)
  }
}
