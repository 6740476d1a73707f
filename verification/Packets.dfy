/** The layer-2 packet codec. */
module Packets {
  import opened Bytes
  import opened Frames

  const L2_HEADER_LEN: nat := 28
  const ANY_SUSY_ID: u16 := 0xFFFF
  const ANY_SERIAL: u32 := 0xFFFF_FFFF
  const APP_SUSY_ID: u16 := 125
  /** The bit that marks our packets; the wire keeps the fifteen bits below it. */
  const APP_PACKET_BIT: nat := 0x8000

  /** A sixteen-bit packet id as the session counts it. */
  type PacketId = n: nat | n < 0x1_0000

  datatype L2Header = L2Header(
    longwords: byte,
    ctrl: byte,
    dstSusyId: u16,
    dstSerial: u32,
    ctrl2: u16,
    appSusyId: u16,
    appSerial: u32,
    errorCode: u16,
    pktId: PacketId)

  datatype Packet = Packet(header: L2Header, body: bytes)

  /** `pkt_id & !APP_PACKET_BIT`. */
  function WithoutAppBit(id: PacketId): PacketId {
    id % APP_PACKET_BIT
  }

  /** `pkt_id | APP_PACKET_BIT`. */
  function WithAppBit(id: PacketId): PacketId {
    id % APP_PACKET_BIT + APP_PACKET_BIT
  }

  function IdBytes(id: PacketId): (r: bytes)
    ensures |r| == 2
  {
    [Low(id), High(id)]
  }

  /** The first fourteen header bytes, field by field. */
  function HeaderHead(h: L2Header): (r: bytes)
    ensures |r| == 14
  {
    SIGNATURE + [h.longwords, h.ctrl] + Le16(h.dstSusyId) + Le32(h.dstSerial) + Le16(h.ctrl2)
  }

  /** The other fourteen. */
  function HeaderTail(h: L2Header): (r: bytes)
    ensures |r| == 14
  {
    Le16(h.appSusyId) + Le32(h.appSerial) + Le16(h.ctrl2) + Le16(h.errorCode)
    + [0, 0] + IdBytes(WithAppBit(h.pktId))
  }

  function HeaderBytes(h: L2Header): (r: bytes)
    ensures |r| == L2_HEADER_LEN
  {
    HeaderHead(h) + HeaderTail(h)
  }

  function Encode(p: Packet): bytes {
    HeaderBytes(p.header) + p.body
  }

  function Decode(data: bytes): Option<Packet> {
    if |data| < L2_HEADER_LEN || !SignatureAt(data, 0) then None
    else
      Some(Packet(
        L2Header(data[4], data[5], U16(data, 6), U32(data, 8), U16(data, 12), U16(data, 14),
                 U32(data, 16), U16(data, 22), WithoutAppBit(Value(data[26], data[27]))),
        data[L2_HEADER_LEN..]))
  }

  /** The encoder as it runs: each field goes through one reused scratch array. */
  method EncodeL2(header: L2Header, body: bytes) returns (buf: bytes)
    ensures buf == Encode(Packet(header, body))
  {
    hide HeaderHead, HeaderTail;
    var tmp := new byte[4];
    buf := PushHead(tmp, header);
    buf := PushTail(tmp, header, buf);
    buf := buf + body;
  }

  /** The fields up to the first control word. */
  method PushHead(tmp: array<byte>, header: L2Header) returns (buf: bytes)
    requires tmp.Length == 4
    modifies tmp
    ensures buf == HeaderHead(header)
  {
    hide Le16, Le32;
    buf := SIGNATURE;
    buf := buf + [header.longwords];
    buf := buf + [header.ctrl];
    assert buf == SIGNATURE + [header.longwords, header.ctrl];
    WriteU16(tmp, header.dstSusyId);
    buf := buf + tmp[..2];
    WriteU32(tmp, header.dstSerial);
    buf := buf + tmp[..];
    WriteU16(tmp, header.ctrl2);
    buf := buf + tmp[..2];
  }

  /** The fields after it. */
  method PushTail(tmp: array<byte>, header: L2Header, buf: bytes) returns (out: bytes)
    requires tmp.Length == 4
    modifies tmp
    ensures out == buf + HeaderTail(header)
  {
    hide Le16, Le32, IdBytes, WithAppBit;
    WriteU16(tmp, header.appSusyId);
    out := buf + tmp[..2];
    WriteU32(tmp, header.appSerial);
    out := out + tmp[..];
    WriteU16(tmp, header.ctrl2);
    out := out + tmp[..2];
    WriteU16(tmp, header.errorCode);
    out := out + tmp[..2];
    out := out + [0, 0];
    WriteId(tmp, WithAppBit(header.pktId));
    out := out + tmp[..2];
  }

  method WriteU16(tmp: array<byte>, n: u16)
    requires tmp.Length == 4
    modifies tmp
    ensures tmp[..2] == Le16(n)
  {
    tmp[0], tmp[1] := (n & 0xFF) as byte, (n >> 8) as byte;
  }

  method WriteU32(tmp: array<byte>, n: u32)
    requires tmp.Length == 4
    modifies tmp
    ensures tmp[..] == Le32(n)
  {
    tmp[0], tmp[1] := (n & 0xFF) as byte, ((n >> 8) & 0xFF) as byte;
    tmp[2], tmp[3] := ((n >> 16) & 0xFF) as byte, (n >> 24) as byte;
  }

  method WriteId(tmp: array<byte>, id: PacketId)
    requires tmp.Length == 4
    modifies tmp
    ensures tmp[..2] == IdBytes(id)
  {
    tmp[0], tmp[1] := Low(id), High(id);
  }

  // ---------------------------------------------------------------- the headers in use

  function LogonHeader(id: PacketId, appSerial: u32): L2Header {
    L2Header(0x0E, 0xA0, ANY_SUSY_ID, ANY_SERIAL, 0x0100, APP_SUSY_ID, appSerial, 0, id)
  }

  function QueryHeader(id: PacketId, appSerial: u32, susyId: u16, serial: u32): L2Header {
    L2Header(0x09, 0xA0, susyId, serial, 0x0000, APP_SUSY_ID, appSerial, 0, id)
  }

  function InitHeader(id: PacketId, appSerial: u32): L2Header {
    L2Header(0x09, 0xA0, ANY_SUSY_ID, ANY_SERIAL, 0x0000, APP_SUSY_ID, appSerial, 0, id)
  }

  function EventLogHeader(id: PacketId, appSerial: u32, susyId: u16, serial: u32): L2Header {
    L2Header(0x09, 0xE0, susyId, serial, 0x0100, APP_SUSY_ID, appSerial, 0, id)
  }

  function LogoffHeader(id: PacketId, appSerial: u32): L2Header {
    L2Header(0x08, 0xA0, ANY_SUSY_ID, ANY_SERIAL, 0x0300, APP_SUSY_ID, appSerial, 0, id)
  }

  // ---------------------------------------------------------------- round trips

  lemma HeadLayout(h: L2Header)
    ensures var d := HeaderHead(h);
      && d[0..4] == SIGNATURE && d[4..6] == [h.longwords, h.ctrl]
      && d[6..8] == Le16(h.dstSusyId) && d[8..12] == Le32(h.dstSerial) && d[12..14] == Le16(h.ctrl2)
  {
    hide Le16, Le32;
  }

  lemma TailLayout(h: L2Header)
    ensures var d := HeaderTail(h);
      && d[0..2] == Le16(h.appSusyId) && d[2..6] == Le32(h.appSerial) && d[6..8] == Le16(h.ctrl2)
      && d[8..10] == Le16(h.errorCode) && d[10..12] == [0, 0] && d[12..14] == IdBytes(WithAppBit(h.pktId))
  {
    hide Le16, Le32, IdBytes, WithAppBit;
  }

  lemma EncodedFields(p: Packet)
    ensures var h, d := p.header, Encode(p);
      && |d| >= 28 && d[0..4] == SIGNATURE && d[4..6] == [h.longwords, h.ctrl]
      && d[6..8] == Le16(h.dstSusyId) && d[8..12] == Le32(h.dstSerial)
      && d[12..14] == Le16(h.ctrl2) && d[14..16] == Le16(h.appSusyId)
      && d[16..20] == Le32(h.appSerial) && d[20..22] == Le16(h.ctrl2)
      && d[22..24] == Le16(h.errorCode) && d[24..26] == [0, 0]
      && d[26..28] == IdBytes(WithAppBit(h.pktId)) && d[28..] == p.body
  {
    hide HeaderHead, HeaderTail, Le16, Le32, IdBytes, WithAppBit;
    var d, head, tail := Encode(p), HeaderHead(p.header), HeaderTail(p.header);
    HeadLayout(p.header);
    TailLayout(p.header);
    assert HeaderBytes(p.header) == head + tail;
    assert d[..14] == head && d[14..28] == tail;
    assert d[0..4] == head[0..4] && d[4..6] == head[4..6] && d[6..8] == head[6..8];
    assert d[8..12] == head[8..12] && d[12..14] == head[12..14];
    assert d[14..16] == tail[0..2] && d[16..20] == tail[2..6] && d[20..22] == tail[6..8];
    assert d[22..24] == tail[8..10] && d[24..26] == tail[10..12] && d[26..28] == tail[12..14];
  }

  /** In numbers: the signature, and the id with the top bit set, low byte first. */
  lemma SignatureAndId(p: Packet)
    ensures var d := Encode(p);
      && |d| == 28 + |p.body| && d[0] == 0xFF && d[1] == 0x03 && d[2] == 0x60 && d[3] == 0x65
      && d[26] as int + 256 * (d[27] as int) == 0x8000 + p.header.pktId % 0x8000
  {
    hide Encode, Le16, Le32, Low, High, Value;
    var d := Encode(p);
    EncodedFields(p);
    assert d[0] == d[0..4][0] && d[1] == d[0..4][1] && d[2] == d[0..4][2] && d[3] == d[0..4][3];
    assert d[26] == d[26..28][0] && d[27] == d[26..28][1];
    ValueOfPair(WithAppBit(p.header.pktId));
    ValueInNumbers(d[26], d[27]);
    assert |d| == 28 + |d[28..]|;
  }

  lemma ZeroWord(n: u16)
    ensures Le16(n) == [0, 0] <==> n == 0
  {
    Join16Splits(n, 0, 0);
  }

  /** The two words before the id are both zero exactly when the error code is. */
  lemma ZeroWordsIff(p: Packet)
    ensures |Encode(p)| >= 28 && (Encode(p)[22..26] == [0, 0, 0, 0] <==> p.header.errorCode == 0)
  {
    hide Encode, Le16, Le32, IdBytes;
    EncodedFields(p);
    ZeroWord(p.header.errorCode);
    var d := Encode(p);
    assert d[22..26] == d[22..24] + d[24..26];
    assert [0, 0, 0, 0][..2] == [0 as byte, 0] && d[22..26][..2] == d[22..24];
  }

  /** Decoding what was encoded gives the packet back with the id cut to fifteen bits. */
  lemma DecodeInvertsEncode(p: Packet)
    ensures Decode(Encode(p)) == Some(Packet(p.header.(pktId := WithoutAppBit(p.header.pktId)), p.body))
  {
    hide Le16, Le32, Encode, U16, U32, Value, Low, High;
    var h, d := p.header, Encode(p);
    EncodedFields(p);
    ValueOfPair(WithAppBit(h.pktId));
    assert d[4] == d[4..6][0] && d[5] == d[4..6][1];
    U16OfLe16(d, 6, h.dstSusyId);
    U32OfLe32(d, 8, h.dstSerial);
    U16OfLe16(d, 12, h.ctrl2);
    U16OfLe16(d, 14, h.appSusyId);
    U32OfLe32(d, 16, h.appSerial);
    U16OfLe16(d, 22, h.errorCode);
    assert d[26] == d[26..28][0] && d[27] == d[26..28][1];
  }

  /** So a packet survives the wire exactly when its id fits in fifteen bits. */
  lemma PacketRoundTripIff(p: Packet)
    ensures Decode(Encode(p)) == Some(p) <==> p.header.pktId < APP_PACKET_BIT
  {
    hide Encode, Decode;
    DecodeInvertsEncode(p);
  }

  lemma DecodedFields(data: bytes, p: Packet)
    requires Decode(data) == Some(p)
    ensures var h := p.header;
      && data[0..4] == SIGNATURE && data[4..6] == [h.longwords, h.ctrl]
      && data[6..8] == Le16(h.dstSusyId) && data[8..12] == Le32(h.dstSerial)
      && data[12..14] == Le16(h.ctrl2) && data[14..16] == Le16(h.appSusyId)
      && data[16..20] == Le32(h.appSerial) && data[22..24] == Le16(h.errorCode)
      && h.pktId == WithoutAppBit(Value(data[26], data[27])) && data[28..] == p.body
  {
    hide Le16, Le32, U16, U32, Value;
    Le16OfU16(data, 6);
    Le32OfU32(data, 8);
    Le16OfU16(data, 12);
    Le16OfU16(data, 14);
    Le32OfU32(data, 16);
    Le16OfU16(data, 22);
  }

  lemma SameSlicesSameData(a: bytes, b: bytes)
    requires |a| >= 28 && |b| >= 28
    requires a[0..4] == b[0..4] && a[4..6] == b[4..6] && a[6..8] == b[6..8] && a[8..12] == b[8..12]
    requires a[12..14] == b[12..14] && a[14..16] == b[14..16] && a[16..20] == b[16..20]
    requires a[20..22] == b[20..22] && a[22..24] == b[22..24] && a[24..26] == b[24..26]
    requires a[26..28] == b[26..28] && a[28..] == b[28..]
    ensures a == b
  {
    SlicesMakeData(a);
    SlicesMakeData(b);
  }

  lemma SlicesMakeData(d: bytes)
    requires |d| >= 28
    ensures d == d[0..4] + d[4..6] + d[6..8] + d[8..12] + d[12..14] + d[14..16] + d[16..20]
                 + d[20..22] + d[22..24] + d[24..26] + d[26..28] + d[28..]
  {
  }

  /** A decoded id, marked again, is the received word exactly when that had the mark. */
  lemma MarkKeptIff(lo: byte, hi: byte)
    ensures Value(lo, hi) < 0x1_0000
    ensures IdBytes(WithAppBit(WithoutAppBit(Value(lo, hi)))) == [lo, hi] <==> Value(lo, hi) >= APP_PACKET_BIT
  {
    hide Low, High, Value;
    PairOfValue(lo, hi);
    var v: PacketId := Value(lo, hi);
    var w := WithAppBit(WithoutAppBit(v));
    ValueOfPair(v);
    ValueOfPair(w);
    assert v >= APP_PACKET_BIT ==> w == v;
  }

  /** The received bytes a decoder does not keep are the repeated control word, the fragment
      word and the mark bit. Encoding inverts decoding exactly when they have the values a
      sender writes. */
  lemma EncodeInvertsDecodeIff(data: bytes)
    requires Decode(data).Some?
    ensures Encode(Decode(data).value) == data
       <==> data[20..22] == data[12..14] && data[24..26] == [0, 0] && Value(data[26], data[27]) >= APP_PACKET_BIT
  {
    hide Encode, Le16, Le32, IdBytes, Value, Decode, WithAppBit, WithoutAppBit;
    var p := Decode(data).value;
    var d := Encode(p);
    assert |data| >= 28 by { DecodeNeeds(data); }
    DecodedFields(data, p);
    EncodedFields(p);
    MarkKeptIff(data[26], data[27]);
    assert data[26..28] == [data[26], data[27]];
    if data[20..22] == data[12..14] && data[24..26] == [0, 0] && Value(data[26], data[27]) >= APP_PACKET_BIT {
      SameSlicesSameData(data, d);
    }
  }

  lemma DecodeNeeds(data: bytes)
    ensures Decode(data).Some? <==> |data| >= 28 && SignatureAt(data, 0)
  {
  }
}
