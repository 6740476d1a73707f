/** What a device reads off the requests a session sends. */
module Requests {
  import opened Bytes
  import opened Frames
  import opened Packets
  import opened Handshake
  import opened Session
  import opened EndToEnd
  import FrameTheorems
  import Stuffing

  lemma ByteIs(n: nat, b: byte)
    requires n < 256 && b as int == n
    ensures ByteOf(n) == b
  {
    SameValueSameByte(ByteOf(n), b);
  }

  lemma HeaderOfShort(total: nat, lo: byte, localBt: BtAddr, destBt: BtAddr, control: u16)
    requires total < 256 && lo as int == total
    ensures Header(total, localBt, destBt, control)
            == [0x7E, lo, 0, HeaderCheck(lo, 0)] + localBt + destBt + Le16(control)
  {
    hide HeaderCheck, Le16;
    ByteIs(total, lo);
    ByteIs(0, 0);
    assert total % 256 == total && total / 256 == 0;
  }

  /** The announce frame, byte by byte. */
  lemma AnnounceBytes()
    ensures VerWire() == [0x7E, 0x17, 0x00, 0x69, 0, 0, 0, 0, 0, 0, 1, 0, 0, 0, 0, 0, 0x01, 0x02,
                          0x76, 0x65, 0x72, 0x0D, 0x0A]
  {
    hide Header;
    HeaderOfShort(23, 0x17, [0, 0, 0, 0, 0, 0], [1, 0, 0, 0, 0, 0], 0x0201);
    assert HeaderCheck(0x17, 0) == 0x69;
    assert Le16(0x0201) == [0x01, 0x02];
  }

  /** The echo frame, byte by byte: the network id of the hello at offset 22. */
  lemma EchoBytes(netId: byte, target: BtAddr)
    ensures EchoWire(netId, target)
            == [0x7E, 0x1F, 0x00, 0x61, 0, 0, 0, 0, 0, 0] + target + [0x02, 0x00]
               + [0x00, 0x04, 0x70, 0x00, netId, 0, 0, 0, 0, 1, 0, 0, 0]
  {
    hide Header;
    HeaderOfShort(31, 0x1F, [0, 0, 0, 0, 0, 0], target, 0x0002);
    assert HeaderCheck(0x1F, 0) == 0x61;
    EchoWords();
  }

  lemma EchoWords()
    ensures Le16(0x0002) == [0x02, 0x00] && Le32(0x0070_0400) == [0x00, 0x04, 0x70, 0x00]
    ensures Le32(0) == [0, 0, 0, 0] && Le32(1) == [1, 0, 0, 0]
  {
  }

  /** Both are read as control frames with exactly these fields. */
  lemma AnnounceIsRead()
    ensures Receive(VerWire())
            == Some(Control([0, 0, 0, 0, 0, 0], [1, 0, 0, 0, 0, 0], 0x0201, [0x76, 0x65, 0x72, 0x0D, 0x0A]))
  {
    var m := Control([0, 0, 0, 0, 0, 0], [1, 0, 0, 0, 0, 0], 0x0201, [0x76, 0x65, 0x72, 0x0D, 0x0A]);
    NoLayer2([0x76, 0x65, 0x72, 0x0D, 0x0A]);
    hide Header, Receive;
    ReceiveWireIff(m);
    assert VerWire() == WireOf(m);
  }

  lemma EchoIsRead(netId: byte, target: BtAddr)
    ensures Receive(EchoWire(netId, target))
            == Some(Control([0, 0, 0, 0, 0, 0], target, 0x0002,
                            [0x00, 0x04, 0x70, 0x00, netId, 0, 0, 0, 0, 1, 0, 0, 0]))
  {
    var payload := [0x00, 0x04, 0x70, 0x00, netId, 0, 0, 0, 0, 1, 0, 0, 0];
    var m := Control([0, 0, 0, 0, 0, 0], target, 0x0002, payload);
    NoLayer2(payload);
    EchoWords();
    hide Header, Receive, Le32;
    assert Le32(0x0070_0400) + [netId] + Le32(0) + Le32(1) == payload;
    ReceiveWireIff(m);
    assert EchoWire(netId, target) == WireOf(m);
  }

  lemma NoLayer2(payload: bytes)
    requires payload != [] && payload[0] != 0xFF && payload[0] != 0x7E
    ensures !FrameTheorems.LooksLikeLayer2(payload)
  {
    if |payload| >= 4 {
      assert payload[0..4][0] == payload[0];
    }
  }

  /** A request sent as a packet is read as that packet, from us, to whoever listens, with
      control word 1. */
  lemma PacketIsRead(localBt: BtAddr, p: Packet)
    requires p.header.pktId < 32768 && |p.body| <= 984
    ensures Receive(PacketWire(localBt, p))
            == Some(Data(localBt, [0xFF, 0xFF, 0xFF, 0xFF, 0xFF, 0xFF], 0x0001, p))
  {
    hide Header, Receive, Encode, Layer2Wire;
    var m := Data(localBt, [0xFF, 0xFF, 0xFF, 0xFF, 0xFF, 0xFF], 0x0001, p);
    BodyFits(localBt, [0xFF, 0xFF, 0xFF, 0xFF, 0xFF, 0xFF], 0x0001, p);
    ReceiveWireIff(m);
    assert PacketWire(localBt, p) == WireOf(m);
  }

  lemma ThreeWords(a: u32, b: u32, c: u32)
    ensures var body := Le32(a) + Le32(b) + Le32(c);
      |body| == 12 && U32(body, 0) == a && U32(body, 4) == b && U32(body, 8) == c
  {
    hide Le32, U32;
    var body := Le32(a) + Le32(b) + Le32(c);
    assert body[0..4] == Le32(a) && body[4..8] == Le32(b) && body[8..12] == Le32(c);
    U32OfLe32(body, 0, a);
    U32OfLe32(body, 4, b);
    U32OfLe32(body, 8, c);
  }

  /** What is read is a packet with the id of the request, from the application with our serial,
      to the given device, with error code 0. */
  predicate ReadsAs(wire: bytes, localBt: BtAddr, longwords: byte, ctrl: byte, ctrl2: u16,
                    susyId: u16, serial: u32, appSerial: u32, id: PacketId, body: bytes)
  {
    Receive(wire) == Some(Data(localBt, [0xFF, 0xFF, 0xFF, 0xFF, 0xFF, 0xFF], 0x0001, Packet(
      L2Header(longwords, ctrl, susyId, serial, ctrl2, 125, appSerial, 0, id), body)))
  }

  /** A query goes to one device and names its command and its range of records. */
  lemma QueryIsRead(localBt: BtAddr, appSerial: u32, id: PacketId, susyId: u16, serial: u32, kind: QueryKind)
    returns (body: bytes)
    requires id < 32768
    ensures ReadsAs(QueryWire(localBt, appSerial, id, susyId, serial, kind), localBt,
                    0x09, 0xA0, 0x0000, susyId, serial, appSerial, id, body)
    ensures |body| == 12
    ensures U32(body, 0) == kind.command && U32(body, 4) == kind.first && U32(body, 8) == kind.last
  {
    hide Receive, PacketWire, Le32, U32;
    body := Le32(kind.command) + Le32(kind.first) + Le32(kind.last);
    ThreeWords(kind.command, kind.first, kind.last);
    PacketIsRead(localBt, Packet(QueryHeader(id, appSerial, susyId, serial), body));
  }

  /** An event-log request names its window of time. */
  lemma EventLogIsRead(localBt: BtAddr, appSerial: u32, id: PacketId, susyId: u16, serial: u32, start: u32, end: u32)
    returns (body: bytes)
    requires id < 32768
    ensures ReadsAs(EventLogWire(localBt, appSerial, id, susyId, serial, start, end), localBt,
                    0x09, 0xE0, 0x0100, susyId, serial, appSerial, id, body)
    ensures |body| == 12 && U32(body, 0) == 0x7010_0200 && U32(body, 4) == start && U32(body, 8) == end
  {
    hide Receive, PacketWire, Le32, U32;
    body := Le32(0x7010_0200) + Le32(start) + Le32(end);
    ThreeWords(0x7010_0200, start, end);
    PacketIsRead(localBt, Packet(EventLogHeader(id, appSerial, susyId, serial), body));
  }

  /** Init, logoff and logon go to every device. */
  lemma InitIsRead(s: Setup, id: PacketId) returns (body: bytes)
    requires id < 32768
    ensures ReadsAs(InitWire(s, id), s.cfg.localBt, 0x09, 0xA0, 0x0000, 0xFFFF, 0xFFFF_FFFF, s.appSerial, id, body)
    ensures |body| == 12 && U32(body, 0) == 0x0000_0200 && U32(body, 4) == 0 && U32(body, 8) == 0
  {
    EchoWords();
    hide Receive, PacketWire, Le32, U32;
    body := Le32(0x0000_0200) + [0, 0, 0, 0] + [0, 0, 0, 0];
    ThreeWords(0x0000_0200, 0, 0);
    PacketIsRead(s.cfg.localBt, Packet(InitHeader(id, s.appSerial), body));
  }

  lemma LogoffIsRead(localBt: BtAddr, appSerial: u32, id: PacketId) returns (body: bytes)
    requires id < 32768
    ensures ReadsAs(LogoffWire(localBt, appSerial, id), localBt,
                    0x08, 0xA0, 0x0300, 0xFFFF, 0xFFFF_FFFF, appSerial, id, body)
    ensures |body| == 8 && U32(body, 0) == 0xFFFD_010E && U32(body, 4) == 0xFFFF_FFFF
  {
    hide Receive, PacketWire, Le32, U32;
    body := Le32(0xFFFD_010E) + Le32(0xFFFF_FFFF);
    assert body[0..4] == Le32(0xFFFD_010E) && body[4..8] == Le32(0xFFFF_FFFF);
    U32OfLe32(body, 0, 0xFFFD_010E);
    U32OfLe32(body, 4, 0xFFFF_FFFF);
    PacketIsRead(localBt, Packet(LogoffHeader(id, appSerial), body));
  }

  /** A logon names the user group, a timeout of 900 seconds and the time, and carries twelve
      password bytes at offset 20. Taking the key of the group off each gives the first twelve
      bytes of the password back, and zero after its end. */
  lemma LogonIsRead(s: Setup, id: PacketId) returns (body: bytes)
    requires id < 32768
    ensures ReadsAs(LogonWire(s, id), s.cfg.localBt, 0x0E, 0xA0, 0x0100, 0xFFFF, 0xFFFF_FFFF, s.appSerial, id, body)
    ensures |body| == 32 && U32(body, 0) == 0xFFFD_040C
    ensures U32(body, 4) == match s.cfg.userGroup case User => 0x07 case Installer => 0x0A
    ensures U32(body, 8) == 900 && U32(body, 12) == s.epoch && U32(body, 16) == 0
    ensures forall i :: 0 <= i < 12 ==>
              body[20 + i] - (match s.cfg.userGroup case User => 0x88 case Installer => 0xBB)
              == if i < |s.cfg.password| then s.cfg.password[i] else 0
  {
    hide Receive, PacketWire;
    body := LogonCommand(s);
    LogonFields(s);
    PasswordTold(s);
    PacketIsRead(s.cfg.localBt, Packet(LogonHeader(id, s.appSerial), body));
  }

  lemma LogonFields(s: Setup)
    ensures var body := LogonCommand(s);
      && |body| == 32 && U32(body, 0) == 0xFFFD_040C && U32(body, 4) == GroupCode(s.cfg.userGroup)
      && U32(body, 8) == 900 && U32(body, 12) == s.epoch && U32(body, 16) == 0
      && body[20..] == EncodedPassword(s.cfg.password, s.cfg.userGroup)
  {
    EchoWords();
    hide Le32, U32, EncodedPassword;
    var body := LogonCommand(s);
    assert body[0..4] == Le32(0xFFFD_040C) && body[4..8] == Le32(GroupCode(s.cfg.userGroup));
    assert body[8..12] == Le32(900) && body[12..16] == Le32(s.epoch) && body[16..20] == Le32(0);
    U32OfLe32(body, 0, 0xFFFD_040C);
    U32OfLe32(body, 4, GroupCode(s.cfg.userGroup));
    U32OfLe32(body, 8, 900);
    U32OfLe32(body, 12, s.epoch);
    U32OfLe32(body, 16, 0);
  }

  lemma PasswordTold(s: Setup)
    ensures |LogonCommand(s)| == 32
    ensures forall i :: 0 <= i < 12 ==>
              LogonCommand(s)[20 + i] - (match s.cfg.userGroup case User => 0x88 case Installer => 0xBB)
              == if i < |s.cfg.password| then s.cfg.password[i] else 0
  {
    LogonFields(s);
    hide LogonCommand;
    var encoded := EncodedPassword(s.cfg.password, s.cfg.userGroup);
    forall i | 0 <= i < 12
      ensures LogonCommand(s)[20 + i] - (match s.cfg.userGroup case User => 0x88 case Installer => 0xBB)
              == if i < |s.cfg.password| then s.cfg.password[i] else 0
    {
      assert LogonCommand(s)[20 + i] == LogonCommand(s)[20..][i] == encoded[i];
      KeyComesOff(if i < |s.cfg.password| then s.cfg.password[i] else 0, Key(s.cfg.userGroup));
      KeyComesOff(0, Key(s.cfg.userGroup));
    }
  }

  lemma KeyComesOff(b: byte, key: byte)
    ensures (b + key) - key == b && 0 + key == key
  {
  }
}
