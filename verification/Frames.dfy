/** Layer-1 frames: the builder, the parser and what they keep of each other. */
module Frames {
  import opened Bytes
  import opened Stuffing
  import Fcs

  const MIN_FRAME_LEN: nat := 18
  const L2_SIGNATURE: u32 := 0x65_60_03_FF
  const SIGNATURE: bytes := [0xFF, 0x03, 0x60, 0x65]

  type BtAddr = a: bytes | |a| == 6 witness [0, 0, 0, 0, 0, 0]

  datatype FrameKind = L1Only | L2Wrapped

  datatype Frame = Frame(kind: FrameKind, localBt: BtAddr, destBt: BtAddr, control: u16, payload: bytes)

  /** The header checksum byte. */
  function HeaderCheck(lo: byte, hi: byte): byte {
    DELIMITER ^ lo ^ hi
  }

  /** The length field. */
  function Declared(raw: bytes): nat
    requires |raw| >= 3
  {
    Value(raw[1], raw[2])
  }

  predicate SignatureAt(raw: bytes, i: nat) {
    i + 4 <= |raw| && raw[i..i + 4] == SIGNATURE
  }

  /** Where the layer-2 signature sits, if the frame carries one: right after the header, or
      after one separator. */
  function SignatureOffset(raw: bytes): Option<nat>
    requires |raw| >= MIN_FRAME_LEN
  {
    if SignatureAt(raw, 18) then Some(18)
    else if |raw| >= 23 && raw[18] == DELIMITER && SignatureAt(raw, 19) then Some(19)
    else None
  }

  /** Unstuffed bytes without the checksum at their end. */
  function Trimmed(r: Result<bytes, ParseError>): Result<bytes, ParseError> {
    match r
    case Err(e) => Err(e)
    case Ok(u) => if |u| < 2 then Err(TooShort(|u|, 2)) else Ok(u[..|u| - 2])
  }

  /** The layer-2 payload of a frame whose signature starts at i. */
  function Layer2Payload(raw: bytes, i: nat): Result<bytes, ParseError>
    requires i < |raw|
  {
    if raw[|raw| - 1] == DELIMITER then Trimmed(Unstuff(raw[i..|raw| - 1])) else Unstuff(raw[i..])
  }

  /** The six bytes of an address. */
  function AddrAt(raw: bytes, i: nat): BtAddr
    requires i + 6 <= |raw|
  {
    raw[i..i + 6]
  }

  function Parse(raw: bytes): Result<Frame, ParseError> {
    if |raw| < MIN_FRAME_LEN then Err(TooShort(|raw|, MIN_FRAME_LEN))
    else if raw[0] != DELIMITER then Err(MissingStart(raw[0]))
    else if raw[3] != HeaderCheck(raw[1], raw[2]) then
      Err(HeaderChecksum(raw[3], HeaderCheck(raw[1], raw[2])))
    else if Declared(raw) != |raw| then Err(LengthMismatch(Declared(raw), |raw|))
    else
      match SignatureOffset(raw)
      case None => Ok(Frame(L1Only, AddrAt(raw, 4), AddrAt(raw, 10), U16(raw, 16), raw[18..]))
      case Some(i) =>
        match Layer2Payload(raw, i)
        case Err(e) => Err(e)
        case Ok(p) => Ok(Frame(L2Wrapped, AddrAt(raw, 4), AddrAt(raw, 10), U16(raw, 16), p))
  }

  // ---------------------------------------------------------------- wire form

  /** The eighteen header bytes of a frame of the given total length. */
  function Header(total: nat, localBt: BtAddr, destBt: BtAddr, control: u16): (h: bytes)
    ensures |h| == 18
  {
    [DELIMITER, Low(total), High(total), HeaderCheck(Low(total), High(total))]
    + localBt + destBt + Le16(control)
  }

  function WithHeader(localBt: BtAddr, destBt: BtAddr, control: u16, rest: bytes): bytes {
    Header(18 + |rest|, localBt, destBt, control) + rest
  }

  /** What follows the stuffed payload: nothing on a push, else a checksum and a delimiter. */
  datatype Trailer = Untrailed | Trailed(fcs: u16)

  function Region(payload: bytes, trailer: Trailer): bytes {
    match trailer
    case Untrailed => payload
    case Trailed(fcs) => payload + Le16(fcs)
  }

  /** The layer-2 part of a frame in any of the observed shapes. */
  function Layer2Wire(separator: bool, payload: bytes, trailer: Trailer): bytes {
    (if separator then [DELIMITER] else [])
    + Stuff(Region(payload, trailer))
    + (if trailer.Trailed? then [DELIMITER] else [])
  }

  /** The bytes a builder emits. */
  function Wire(f: Frame): bytes {
    match f.kind
    case L1Only => WithHeader(f.localBt, f.destBt, f.control, f.payload)
    case L2Wrapped =>
      WithHeader(f.localBt, f.destBt, f.control, Layer2Wire(true, f.payload, Trailed(Fcs.Fcs(f.payload))))
  }

  class FrameBuilder {
    const kind: FrameKind
    const localBt: BtAddr
    const destBt: BtAddr
    const control: u16
    var payload: bytes

    constructor (kind: FrameKind, localBt: BtAddr, destBt: BtAddr, control: u16)
      ensures this.kind == kind && this.localBt == localBt && this.destBt == destBt
      ensures this.control == control && payload == []
    {
      this.kind, this.localBt, this.destBt, this.control := kind, localBt, destBt, control;
      payload := [];
    }

    method Extend(more: bytes)
      modifies this
      ensures payload == old(payload) + more
    {
      payload := payload + more;
    }

    method Build() returns (out: bytes)
      ensures out == Wire(Frame(kind, localBt, destBt, control, payload))
    {
      match kind
      case L1Only => out := BuildL1Only();
      case L2Wrapped => out := BuildL2Wrapped();
    }

    /** The eighteen header bytes, which both kinds write the same way. */
    method PushHeader(total: nat) returns (out: bytes)
      ensures out == Header(total, localBt, destBt, control)
    {
      var lo, hi := Low(total), High(total);
      out := [DELIMITER];
      out := out + [lo];
      out := out + [hi];
      out := out + [HeaderCheck(lo, hi)];
      out := out + localBt;
      out := out + destBt;
      out := out + [(control & 0xFF) as byte];
      out := out + [(control >> 8) as byte];
    }

    method BuildL1Only() returns (out: bytes)
      ensures out == Wire(Frame(L1Only, localBt, destBt, control, payload))
    {
      hide Header;
      out := PushHeader(18 + |payload|);
      out := out + payload;
    }

    /** The payload followed by its checksum, low byte first. */
    method Checksummed() returns (stuffable: bytes)
      ensures stuffable == Region(payload, Trailed(Fcs.Fcs(payload)))
    {
      hide Fcs.Finish, Fcs.AbsorbAll;
      var fcs := new Fcs.Fcs16();
      fcs.UpdateSlice(payload);
      var fcsVal := fcs.Finalize();
      stuffable := payload;
      stuffable := stuffable + [(fcsVal & 0xFF) as byte];
      stuffable := stuffable + [(fcsVal >> 8) as byte];
      assert stuffable == payload + Le16(fcsVal);
    }

    method BuildL2Wrapped() returns (out: bytes)
      ensures out == Wire(Frame(L2Wrapped, localBt, destBt, control, payload))
    {
      hide Header, Stuff, Region;
      var stuffable := Checksummed();
      var stuffed := StuffBytes(stuffable);
      out := PushHeader(18 + 1 + |stuffed| + 1);
      ghost var header := out;
      out := out + [DELIMITER];
      out := out + stuffed;
      out := out + [DELIMITER];
      assert out == header + ([DELIMITER] + stuffed + [DELIMITER]);
    }
  }

  // ---------------------------------------------------------------- the blob form

  /** Where the first delimiter at or after i is. */
  function NextDelimiter(raw: bytes, i: nat): (r: Option<nat>)
    ensures r.Some? ==> i <= r.value < |raw| && raw[r.value] == DELIMITER
    ensures forall k :: i <= k < (if r.Some? then r.value else |raw|) ==> raw[k] != DELIMITER
    decreases |raw| - i
  {
    if i >= |raw| then None
    else if raw[i] == DELIMITER then Some(i)
    else NextDelimiter(raw, i + 1)
  }

  /** Reads a layer-2 region that starts at its separator, up to the closing delimiter. */
  function ParseL2OnlyBlob(raw: bytes): Result<bytes, ParseError> {
    if |raw| < 6 then Err(TooShort(|raw|, 6))
    else if raw[0] != DELIMITER then Err(MissingStart(raw[0]))
    else if raw[1..5] != SIGNATURE then Err(HeaderChecksum(raw[1], 0xFF))
    else
      match NextDelimiter(raw, 5)
      case None => Err(MissingEnd(0))
      case Some(end) => Trimmed(Unstuff(raw[1..end]))
  }
}
