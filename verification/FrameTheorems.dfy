/** What the frame builder and the frame parser keep of each other. */
module FrameTheorems {
  import opened Bytes
  import opened Stuffing
  import opened Frames
  import Fcs

  lemma SignatureWord(raw: bytes, i: nat)
    requires i + 4 <= |raw|
    ensures SignatureAt(raw, i) <==> U32(raw, i) == L2_SIGNATURE
  {
    var w := raw[i..i + 4];
    assert w == [raw[i], raw[i + 1], raw[i + 2], raw[i + 3]];
    JoinIsSignature(raw[i], raw[i + 1], raw[i + 2], raw[i + 3]);
  }

  lemma JoinIsSignature(a: byte, b: byte, c: byte, d: byte)
    ensures Join32(a, b, c, d) == L2_SIGNATURE <==> a == 0xFF && b == 0x03 && c == 0x60 && d == 0x65
  {
  }

  /** The fields a parser reads off a header, whatever follows it. */
  lemma HeaderFields(total: nat, localBt: BtAddr, destBt: BtAddr, control: u16, rest: bytes)
    ensures var raw := Header(total, localBt, destBt, control) + rest;
      && raw[0] == DELIMITER && raw[3] == HeaderCheck(raw[1], raw[2])
      && Declared(raw) == total % 0x1_0000
      && raw[4..10] == localBt && raw[10..16] == destBt && U16(raw, 16) == control
      && raw[18..] == rest
  {
    hide HeaderCheck, Low, High, Value, U16, Le16;
    var raw := Header(total, localBt, destBt, control) + rest;
    ValueOfPair(total);
    assert raw[16..18] == Le16(control);
    U16OfLe16(raw, 16, control);
  }

  lemma SignatureIsNotStuffed(rest: bytes)
    ensures Stuff(SIGNATURE + rest) == SIGNATURE + Stuff(rest)
  {
    StuffConcat(SIGNATURE, rest);
    PlainIsNotStuffed(SIGNATURE);
  }

  lemma {:induction false} PlainIsNotStuffed(data: bytes)
    requires forall k :: 0 <= k < |data| ==> !Special(data[k])
    ensures Stuff(data) == data
  {
    if data != [] {
      PlainIsNotStuffed(data[1..]);
    }
  }

  /** A stuffed region that starts with the signature comes from data that does. */
  lemma {:induction false} StuffedPrefixIsPlain(data: bytes, more: bytes, plain: bytes)
    requires forall k :: 0 <= k < |plain| ==> !Special(plain[k])
    requires plain <= Stuff(data) + more
    requires forall k :: 0 <= k < |more| ==> Special(more[k])
    ensures plain <= data
  {
    if plain != [] {
      var s := Stuff(data) + more;
      assert s[0] == plain[0];
      if data == [] {
        assert false;
      } else {
        assert data[0] == plain[0];
        assert s[1..] == Stuff(data[1..]) + more;
        assert plain[1..] <= s[1..];
        StuffedPrefixIsPlain(data[1..], more, plain[1..]);
      }
    }
  }

  function SignatureStart(separator: bool): nat {
    if separator then 19 else 18
  }

  lemma SignatureFound(raw: bytes, separator: bool, payload: bytes, trailer: Trailer)
    requires |raw| >= 18 && raw[18..] == Layer2Wire(separator, payload, trailer)
    requires SignatureAt(payload, 0)
    ensures SignatureOffset(raw) == Some(SignatureStart(separator))
    ensures SignatureStart(separator) < |raw|
    ensures raw[SignatureStart(separator)..]
            == Stuff(Region(payload, trailer)) + (if trailer.Trailed? then [DELIMITER] else [])
  {
    hide Stuff, Le16;
    var rest := raw[18..];
    var region := Region(payload, trailer);
    assert region[..4] == payload[..4] && region == SIGNATURE + region[4..];
    SignatureIsNotStuffed(region[4..]);
    var i := SignatureStart(separator);
    assert rest[i - 18..i - 14] == SIGNATURE;
    assert raw[i..i + 4] == SIGNATURE;
    assert raw[i..] == rest[i - 18..];
    if separator {
      assert raw[18] == rest[0] == DELIMITER;
      assert raw[18..22][0] == DELIMITER;
    }
  }

  lemma Layer2PayloadRead(raw: bytes, i: nat, payload: bytes, trailer: Trailer)
    requires i < |raw|
    requires raw[i..] == Stuff(Region(payload, trailer)) + (if trailer.Trailed? then [DELIMITER] else [])
    ensures Layer2Payload(raw, i) == Ok(payload)
  {
    hide Stuff, Unstuff, Le16;
    var region := Region(payload, trailer);
    var stuffed, last := Stuff(region), raw[i..][|raw[i..]| - 1];
    assert raw[|raw| - 1] == last;
    UnstuffInvertsStuff(region);
    StuffIsClean(region);
    if trailer.Trailed? {
      assert raw[i..|raw| - 1] == raw[i..][..|raw[i..]| - 1] == stuffed;
      assert region[..|region| - 2] == payload;
    } else {
      assert raw[i..] == stuffed;
    }
  }

  /** Every observed layer-2 shape parses back to its payload: with or without separator, with
      any checksum value at all in the trailer, or with no trailer. */
  lemma Layer2RoundTrip(localBt: BtAddr, destBt: BtAddr, control: u16,
                        separator: bool, payload: bytes, trailer: Trailer)
    requires SignatureAt(payload, 0)
    requires 18 + |Layer2Wire(separator, payload, trailer)| <= 0xFFFF
    ensures Parse(WithHeader(localBt, destBt, control, Layer2Wire(separator, payload, trailer)))
            == Ok(Frame(L2Wrapped, localBt, destBt, control, payload))
  {
    hide Header, HeaderCheck, Stuff, Region, Layer2Payload, SignatureOffset, U16, Value, Layer2Wire;
    var rest := Layer2Wire(separator, payload, trailer);
    HeaderFields(18 + |rest|, localBt, destBt, control, rest);
    var raw := WithHeader(localBt, destBt, control, rest);
    SignatureFound(raw, separator, payload, trailer);
    Layer2PayloadRead(raw, SignatureStart(separator), payload, trailer);
  }

  /** The parser never looks at the checksum: any two trailers give the same frame. */
  lemma ChecksumNeverRead(localBt: BtAddr, destBt: BtAddr, control: u16,
                          separator: bool, payload: bytes, fcs: u16, other: u16)
    requires SignatureAt(payload, 0)
    requires 18 + |Layer2Wire(separator, payload, Trailed(fcs))| <= 0xFFFF
    requires 18 + |Layer2Wire(separator, payload, Trailed(other))| <= 0xFFFF
    ensures Parse(WithHeader(localBt, destBt, control, Layer2Wire(separator, payload, Trailed(fcs))))
            == Parse(WithHeader(localBt, destBt, control, Layer2Wire(separator, payload, Trailed(other))))
  {
    hide *;
    Layer2RoundTrip(localBt, destBt, control, separator, payload, Trailed(fcs));
    Layer2RoundTrip(localBt, destBt, control, separator, payload, Trailed(other));
  }

  /** A frame too long for its length field is refused. */
  lemma OverlongIsRefused(f: Frame)
    requires |Wire(f)| > 0xFFFF
    ensures Parse(Wire(f)).Err?
  {
    hide Header, HeaderCheck, Layer2Payload, SignatureOffset, U16, Value, Layer2Wire, Fcs.Fcs;
    var rest := if f.kind.L1Only? then f.payload else Layer2Wire(true, f.payload, Trailed(Fcs.Fcs(f.payload)));
    HeaderFields(18 + |rest|, f.localBt, f.destBt, f.control, rest);
  }

  /** A payload that the parser would take for layer 2. */
  predicate LooksLikeLayer2(payload: bytes) {
    SignatureAt(payload, 0) || (|payload| >= 5 && payload[0] == DELIMITER && SignatureAt(payload, 1))
  }

  lemma SignatureSeenIff(raw: bytes)
    requires |raw| >= 18
    ensures SignatureOffset(raw).Some? <==> LooksLikeLayer2(raw[18..])
  {
    var rest := raw[18..];
    if |raw| >= 22 { assert raw[18..22] == rest[..4]; }
    if |raw| >= 23 { assert raw[19..23] == rest[1..5]; }
  }

  /** A layer-1 frame comes back unchanged exactly when its length fits the length field and
      its payload cannot be taken for layer 2. */
  lemma L1RoundTripIff(localBt: BtAddr, destBt: BtAddr, control: u16, payload: bytes)
    ensures var f := Frame(L1Only, localBt, destBt, control, payload);
      Parse(Wire(f)) == Ok(f) <==> 18 + |payload| <= 0xFFFF && !LooksLikeLayer2(payload)
  {
    hide Header, HeaderCheck, Layer2Payload, SignatureOffset, LooksLikeLayer2, U16, Value;
    HeaderFields(18 + |payload|, localBt, destBt, control, payload);
    SignatureSeenIff(WithHeader(localBt, destBt, control, payload));
  }

  lemma ChecksumsOfShortPrefixes()
    ensures Fcs.Fcs([0xFF, 0x03]) == 0xC21C
    ensures Fcs.Fcs([0xFF, 0x03, 0x60]) == 0x4951
  {
    var a: bytes, b: bytes, c: bytes := [0xFF], [0xFF, 0x03], [0xFF, 0x03, 0x60];
    assert a[..0] == [] && b[..1] == a && c[..2] == b;
    ShortPrefixSteps();
    assert Fcs.AbsorbAll(Fcs.INIT, []) == 0xFFFF;
    assert Fcs.AbsorbAll(Fcs.INIT, a) == 0x00FF;
    assert Fcs.AbsorbAll(Fcs.INIT, b) == 0x3DE3;
    assert Fcs.AbsorbAll(Fcs.INIT, c) == 0xB6AE;
  }

  lemma ShortPrefixSteps()
    ensures Fcs.Absorb(0xFFFF, 0xFF) == 0x00FF
    ensures Fcs.Absorb(0x00FF, 0x03) == 0x3DE3
    ensures Fcs.Absorb(0x3DE3, 0x60) == 0xB6AE
  {
    Fcs.AbsorbIsEight(0xFFFF, 0xFF);
    Fcs.AbsorbIsEight(0x00FF, 0x03);
    Fcs.AbsorbIsEight(0x3DE3, 0x60);
  }

  /** The checksum never completes a cut-off signature. */
  lemma ChecksumIsNoSignature(payload: bytes)
    requires |payload| == 2 || |payload| == 3
    ensures !(SIGNATURE <= Region(payload, Trailed(Fcs.Fcs(payload))))
  {
    hide Fcs.AbsorbAll, Fcs.Finish;
    var region := Region(payload, Trailed(Fcs.Fcs(payload)));
    ChecksumsOfShortPrefixes();
    assert payload == region[..|payload|];
    if payload == [0xFF, 0x03] {
      assert region[2] == Le16(0xC21C)[0];
    } else if payload == [0xFF, 0x03, 0x60] {
      assert region[3] == Le16(0x4951)[0];
    }
  }

  /** Only a payload that starts with the signature is stuffed into something that does. */
  lemma SignatureSurvivesOnly(payload: bytes)
    requires SIGNATURE <= Stuff(Region(payload, Trailed(Fcs.Fcs(payload)))) + [DELIMITER]
    ensures SignatureAt(payload, 0)
  {
    hide Fcs.Fcs, Stuff, Region;
    var region := Region(payload, Trailed(Fcs.Fcs(payload)));
    StuffedPrefixIsPlain(region, [DELIMITER], SIGNATURE);
    assert |region| == |payload| + 2 && payload == region[..|payload|]
      by { RegionHasPayload(payload, Fcs.Fcs(payload)); }
    if |payload| < 4 {
      ChecksumIsNoSignature(payload);
    }
    assert payload[..4] == region[..4];
  }

  lemma RegionHasPayload(payload: bytes, fcs: u16)
    ensures |Region(payload, Trailed(fcs))| == |payload| + 2
    ensures payload == Region(payload, Trailed(fcs))[..|payload|]
  {
  }

  /** A layer-2 frame comes back unchanged exactly when its wire form fits the length field
      and its payload starts with the signature. */
  lemma L2RoundTripIff(localBt: BtAddr, destBt: BtAddr, control: u16, payload: bytes)
    ensures var f := Frame(L2Wrapped, localBt, destBt, control, payload);
      Parse(Wire(f)) == Ok(f) <==> |Wire(f)| <= 0xFFFF && SignatureAt(payload, 0)
  {
    hide Header, HeaderCheck, Stuff, Layer2Payload, SignatureOffset, U16, Value, Region, Fcs.Fcs;
    var trailer := Trailed(Fcs.Fcs(payload));
    var rest := Layer2Wire(true, payload, trailer);
    var raw := WithHeader(localBt, destBt, control, rest);
    HeaderFields(18 + |rest|, localBt, destBt, control, rest);
    if |raw| <= 0xFFFF {
      if SignatureAt(payload, 0) {
        Layer2RoundTrip(localBt, destBt, control, true, payload, trailer);
      } else {
        NoSignatureNoLayer2(raw, payload);
      }
    }
  }

  lemma DelimiterIsNoSignature(rest: bytes)
    requires rest != [] && rest[0] == DELIMITER
    ensures !SignatureAt(rest, 0)
  {
    if |rest| >= 4 {
      assert rest[0..4][0] == DELIMITER;
    }
  }

  lemma NoSignatureNoLayer2(raw: bytes, payload: bytes)
    requires |raw| >= 18 && !SignatureAt(payload, 0)
    requires raw[18..] == Layer2Wire(true, payload, Trailed(Fcs.Fcs(payload)))
    ensures SignatureOffset(raw).None?
  {
    hide Stuff, Region, Fcs.Fcs;
    SignatureSeenIff(raw);
    var rest := raw[18..];
    var stuffed := Stuff(Region(payload, Trailed(Fcs.Fcs(payload))));
    assert rest[0] == DELIMITER && rest[1..] == stuffed + [DELIMITER];
    if SignatureAt(rest, 1) {
      assert rest[1..][..4] == rest[1..5] == SIGNATURE;
      SignatureSurvivesOnly(payload);
    }
    DelimiterIsNoSignature(rest);
  }

  /** The stuffed bytes of a layer-2 frame whose signature starts at i. */
  function StuffedRegion(raw: bytes, i: nat): bytes
    requires i < |raw|
  {
    if raw[|raw| - 1] == DELIMITER then raw[i..|raw| - 1] else raw[i..]
  }

  lemma SignatureLeadsRegion(raw: bytes, i: nat)
    requires |raw| >= 18 && SignatureOffset(raw) == Some(i)
    ensures i < |raw| && SIGNATURE <= StuffedRegion(raw, i)
  {
    assert raw[i + 3] == raw[i..i + 4][3];
  }

  lemma UnstuffKeepsPlainPrefix(s: bytes)
    requires SIGNATURE <= s
    ensures Unstuff(s).Ok? ==> SIGNATURE <= Unstuff(s).value
  {
    var t := s[4..];
    assert s == Stuff(SIGNATURE) + t by { PlainIsNotStuffed(SIGNATURE); }
    UnstuffAfterStuff(SIGNATURE, t);
  }

  /** What can go wrong once a frame carries the signature: only an escape cut off at the end
      of the stuffed region, and exactly then. The two-byte shortage never happens. */
  lemma Layer2FailsIff(raw: bytes, i: nat)
    requires |raw| >= 18 && SignatureOffset(raw) == Some(i)
    ensures i < |raw|
    ensures Layer2Payload(raw, i).Err? <==> TrailingEscapes(StuffedRegion(raw, i)) % 2 == 1
    ensures Layer2Payload(raw, i).Err? ==> Layer2Payload(raw, i).error == TruncatedEscape
    ensures Layer2Payload(raw, i).Ok? && (raw[|raw| - 1] != DELIMITER || |Layer2Payload(raw, i).value| >= 4)
            ==> SIGNATURE <= Layer2Payload(raw, i).value
  {
    SignatureLeadsRegion(raw, i);
    var s := StuffedRegion(raw, i);
    UnstuffFailsIff(s);
    UnstuffErrors(s);
    UnstuffKeepsPlainPrefix(s);
  }

  lemma {:induction false} UnstuffErrors(s: bytes)
    ensures Unstuff(s).Err? ==> Unstuff(s).error == TruncatedEscape
  {
    if |s| > 1 {
      UnstuffErrors(s[if s[0] == ESCAPE then 2 else 1..]);
    }
  }

  /** A frame whose header can be believed. */
  predicate HeaderHolds(raw: bytes) {
    |raw| >= 18 && raw[0] == DELIMITER && raw[3] == HeaderCheck(raw[1], raw[2]) && Declared(raw) == |raw|
  }

  /** A layer-2 frame whose stuffed region ends in a cut-off escape. */
  predicate CutOff(raw: bytes)
    requires |raw| >= 18
  {
    match SignatureOffset(raw)
    case None => false
    case Some(i) => i < |raw| && TrailingEscapes(StuffedRegion(raw, i)) % 2 == 1
  }

  /** What a parse comes to, for every input: when it succeeds, and when it fails in which way. */
  lemma ParseOutcome(raw: bytes)
    ensures Parse(raw).Ok? <==> HeaderHolds(raw) && !CutOff(raw)
    ensures Parse(raw) == Err(TruncatedEscape) <==> HeaderHolds(raw) && CutOff(raw)
    ensures Parse(raw) == Err(TooShort(|raw|, 18)) <==> |raw| < 18
    ensures |raw| >= 18 ==> (Parse(raw) == Err(MissingStart(raw[0])) <==> raw[0] != DELIMITER)
    ensures |raw| >= 18 ==>
      (Parse(raw) == Err(HeaderChecksum(raw[3], HeaderCheck(raw[1], raw[2])))
       <==> raw[0] == DELIMITER && raw[3] != HeaderCheck(raw[1], raw[2]))
    ensures |raw| >= 18 ==>
      (Parse(raw) == Err(LengthMismatch(Declared(raw), |raw|))
       <==> raw[0] == DELIMITER && raw[3] == HeaderCheck(raw[1], raw[2]) && Declared(raw) != |raw|)
  {
    hide HeaderCheck, Value, U16, Layer2Payload, SignatureOffset;
    if |raw| >= 18 && SignatureOffset(raw).Some? {
      Layer2FailsIff(raw, SignatureOffset(raw).value);
    }
  }

  /** Every way a parse can fail, for every input. */
  lemma ParseFailures(raw: bytes)
    ensures Parse(raw).Err? ==>
      match Parse(raw).error
      case TooShort(got, need) => got == |raw| < 18 && need == 18
      case MissingStart(b) => |raw| >= 18 && raw[0] == b != DELIMITER
      case HeaderChecksum(seen, expected) => |raw| >= 18 && raw[3] == seen != expected == HeaderCheck(raw[1], raw[2])
      case LengthMismatch(declared, actual) => |raw| >= 18 && declared == Declared(raw) != actual == |raw|
      case MissingEnd(_) => false
      case TruncatedEscape => HeaderHolds(raw) && CutOff(raw)
  {
    hide HeaderCheck, Value, U16, Layer2Payload, SignatureOffset;
    if |raw| >= 18 && SignatureOffset(raw).Some? {
      Layer2FailsIff(raw, SignatureOffset(raw).value);
    }
  }

  /** A layer-2 region reads back on its own, whatever follows it. */
  lemma BlobRoundTrip(payload: bytes, fcs: u16, junk: bytes)
    requires SignatureAt(payload, 0)
    ensures ParseL2OnlyBlob(Layer2Wire(true, payload, Trailed(fcs)) + junk) == Ok(payload)
  {
    hide Stuff, Unstuff, Le16;
    var region := Region(payload, Trailed(fcs));
    var stuffed := Stuff(region);
    var raw := Layer2Wire(true, payload, Trailed(fcs)) + junk;
    assert region == SIGNATURE + region[4..];
    SignatureIsNotStuffed(region[4..]);
    StuffIsClean(region);
    UnstuffInvertsStuff(region);
    var end := 1 + |stuffed|;
    assert raw[1..end] == stuffed;
    assert raw[1..5] == stuffed[..4];
    assert raw[end] == DELIMITER;
    assert forall k :: 5 <= k < end ==> raw[k] == stuffed[k - 1];
    assert NextDelimiter(raw, 5) == Some(end);
    assert region[..|region| - 2] == payload;
  }

  /** The layer-2 region of a built frame, with any junk after it, reads on its own as the same
      payload as the frame. */
  lemma BlobAgreesWithFrame(localBt: BtAddr, destBt: BtAddr, control: u16, payload: bytes, junk: bytes)
    requires SignatureAt(payload, 0)
    ensures var w := Wire(Frame(L2Wrapped, localBt, destBt, control, payload));
      && ParseL2OnlyBlob(w[18..] + junk) == Ok(payload)
      && (|w| <= 0xFFFF ==> Parse(w).Ok? && ParseL2OnlyBlob(w[18..] + junk) == Ok(Parse(w).value.payload))
  {
    hide Header, Parse, ParseL2OnlyBlob, Layer2Wire, Fcs.Fcs;
    var rest := Layer2Wire(true, payload, Trailed(Fcs.Fcs(payload)));
    assert Wire(Frame(L2Wrapped, localBt, destBt, control, payload))[18..] == rest;
    BlobRoundTrip(payload, Fcs.Fcs(payload), junk);
    L2RoundTripIff(localBt, destBt, control, payload);
  }

  /** The checksum a built frame carries is good: its region, unstuffed, is the payload and two
      bytes, and leaves the register at the good-FCS residue. */
  lemma BuiltFrameHasGoodFcs(localBt: BtAddr, destBt: BtAddr, control: u16, payload: bytes)
    ensures var w := Wire(Frame(L2Wrapped, localBt, destBt, control, payload));
      && |w| >= 20 && w[18] == w[|w| - 1] == DELIMITER
      && Unstuff(w[19..|w| - 1]).Ok?
      && payload <= Unstuff(w[19..|w| - 1]).value && |Unstuff(w[19..|w| - 1]).value| == |payload| + 2
      && Fcs.AbsorbAll(Fcs.INIT, Unstuff(w[19..|w| - 1]).value) == Fcs.GOOD_RESIDUE
  {
    hide Header, Stuff, Unstuff, Fcs.Fcs, Fcs.AbsorbAll, Le16;
    var region := Region(payload, Trailed(Fcs.Fcs(payload)));
    var w := Wire(Frame(L2Wrapped, localBt, destBt, control, payload));
    assert w[18..] == [DELIMITER] + Stuff(region) + [DELIMITER];
    assert w[18] == w[18..][0] && w[|w| - 1] == w[18..][|w| - 19];
    assert w[19..|w| - 1] == w[18..][1..|w| - 19] == Stuff(region);
    UnstuffInvertsStuff(region);
    Fcs.FcsLeavesGoodResidue(payload);
  }

  // ---------------------------------------------------------------- the header checksum

  /** The sum of two bytes, and of four, without carries. */
  function Sum(a: byte, b: byte): byte {
    a ^ b
  }

  function SumOfFour(a: byte, b: byte, c: byte, d: byte): byte {
    Sum(Sum(Sum(a, b), c), d)
  }

  lemma SumIs(a: byte, b: byte, c: byte, d: byte)
    ensures SumOfFour(a, b, c, d) == a ^ b ^ c ^ d
  {
  }

  lemma SumIsNothing(a: byte, b: byte)
    ensures Sum(a, b) == 0 <==> b == a
  {
  }

  lemma CheckOfHeader(lo: byte, hi: byte)
    ensures HeaderCheck(lo, hi) == Sum(Sum(0x7E, lo), hi)
  {
  }

  lemma CheckIsSum(first: byte, lo: byte, hi: byte, check: byte)
    requires first == 0x7E
    ensures check == HeaderCheck(lo, hi) <==> first ^ lo ^ hi ^ check == 0
  {
    hide HeaderCheck, Sum;
    CheckOfHeader(lo, hi);
    SumIs(first, lo, hi, check);
    SumIsNothing(Sum(Sum(first, lo), hi), check);
  }

  /** The first four bytes of everything a builder emits: the delimiter, the length low byte
      first, and a byte that makes the four cancel out. */
  lemma WireHeaderSums(f: Frame)
    ensures var w := Wire(f);
      && |w| >= 18 && w[0] == 0x7E && w[0] ^ w[1] ^ w[2] ^ w[3] == 0
      && w[1] as int + 256 * (w[2] as int) == |w| % 0x1_0000
  {
    hide HeaderCheck, Header, Layer2Wire, Fcs.Fcs;
    var rest := if f.kind.L1Only? then f.payload else Layer2Wire(true, f.payload, Trailed(Fcs.Fcs(f.payload)));
    HeaderFields(18 + |rest|, f.localBt, f.destBt, f.control, rest);
    CheckIsSum(Wire(f)[0], Wire(f)[1], Wire(f)[2], Wire(f)[3]);
  }

  /** And of everything a parser takes. */
  lemma ParsedHeaderSums(raw: bytes)
    requires Parse(raw).Ok?
    ensures |raw| >= 18 && raw[0] == 0x7E && raw[0] ^ raw[1] ^ raw[2] ^ raw[3] == 0
    ensures raw[1] as int + 256 * (raw[2] as int) == |raw|
  {
    hide HeaderCheck, Layer2Payload, SignatureOffset, U16;
    CheckIsSum(raw[0], raw[1], raw[2], raw[3]);
  }

  /** Such a header and no cut-off escape are all a parser asks for. */
  lemma ParsesIff(raw: bytes)
    ensures Parse(raw).Ok? <==>
      && |raw| >= 18 && raw[0] == 0x7E && raw[0] ^ raw[1] ^ raw[2] ^ raw[3] == 0
      && raw[1] as int + 256 * (raw[2] as int) == |raw| && !CutOff(raw)
  {
    hide HeaderCheck, Parse, CutOff, Value;
    ParseOutcome(raw);
    if |raw| >= 18 {
      ValueInNumbers(raw[1], raw[2]);
      if raw[0] == 0x7E {
        CheckIsSum(raw[0], raw[1], raw[2], raw[3]);
      }
    }
  }

  lemma SumCancels(a: byte, b: byte, c: byte)
    ensures Sum(a, c) == Sum(b, c) ==> a == b
    ensures Sum(c, a) == Sum(c, b) ==> a == b
  {
  }

  lemma OneChangeBreaksSum(a: byte, b: byte, c: byte, d: byte, x: byte)
    ensures SumOfFour(x, b, c, d) == SumOfFour(a, b, c, d) ==> x == a
    ensures SumOfFour(a, x, c, d) == SumOfFour(a, b, c, d) ==> x == b
    ensures SumOfFour(a, b, x, d) == SumOfFour(a, b, c, d) ==> x == c
    ensures SumOfFour(a, b, c, x) == SumOfFour(a, b, c, d) ==> x == d
  {
    hide Sum;
    SumCancels(Sum(Sum(x, b), c), Sum(Sum(a, b), c), d);
    SumCancels(Sum(x, b), Sum(a, b), c);
    SumCancels(x, a, b);
    SumCancels(Sum(Sum(a, x), c), Sum(Sum(a, b), c), d);
    SumCancels(Sum(a, x), Sum(a, b), c);
    SumCancels(x, b, a);
    SumCancels(Sum(Sum(a, b), x), Sum(Sum(a, b), c), d);
    SumCancels(x, c, Sum(a, b));
    SumCancels(x, d, Sum(Sum(a, b), c));
  }

  /** Four bytes with one of them changed do not cancel out any more. */
  lemma HeaderChangeSeen(s: bytes, t: bytes, i: nat, k: nat)
    requires k < 4 && i + 4 <= |s| == |t| && s[i + k] != t[i + k]
    requires forall j :: i <= j < i + 4 && j != i + k ==> s[j] == t[j]
    requires SumOfFour(s[i], s[i + 1], s[i + 2], s[i + 3]) == 0
    ensures SumOfFour(t[i], t[i + 1], t[i + 2], t[i + 3]) != 0
  {
    hide SumOfFour;
    OneChangeBreaksSum(s[i], s[i + 1], s[i + 2], s[i + 3], t[i + k]);
  }

  lemma ParsedSum(raw: bytes)
    requires Parse(raw).Ok?
    ensures |raw| >= 18 && SumOfFour(raw[0], raw[1], raw[2], raw[3]) == 0
  {
    hide Parse, Sum;
    ParsedHeaderSums(raw);
    SumIs(raw[0], raw[1], raw[2], raw[3]);
  }

  /** Changing any one of the four makes the frame refused. */
  lemma HeaderChangeRefused(raw: bytes, i: nat, b: byte)
    requires Parse(raw).Ok? && i < 4
    ensures |raw| >= 18 && (b != raw[i] ==> Parse(raw[i := b]).Err?)
  {
    hide Parse, SumOfFour;
    ParsedSum(raw);
    if b != raw[i] {
      HeaderChangeSeen(raw, raw[i := b], 0, i);
      if Parse(raw[i := b]).Ok? {
        ParsedSum(raw[i := b]);
      }
    }
  }

  // ---------------------------------------------------------------- pushes sent as they are

  /** A push whose bytes go out as they are: nothing stuffed, no checksum, no delimiter. */
  function RawPush(localBt: BtAddr, destBt: BtAddr, control: u16, separator: bool, payload: bytes): bytes {
    WithHeader(localBt, destBt, control, (if separator then [DELIMITER] else []) + payload)
  }

  /** What is read of a frame with a built header, whatever follows it. */
  lemma ParseBuilt(localBt: BtAddr, destBt: BtAddr, control: u16, rest: bytes)
    ensures var raw := WithHeader(localBt, destBt, control, rest);
      if |raw| > 0xFFFF then Parse(raw).Err?
      else Parse(raw) ==
           match SignatureOffset(raw)
           case None => Ok(Frame(L1Only, localBt, destBt, control, rest))
           case Some(i) =>
             match Layer2Payload(raw, i)
             case Err(e) => Err(e)
             case Ok(p) => Ok(Frame(L2Wrapped, localBt, destBt, control, p))
  {
    hide Header, HeaderCheck, Layer2Payload, SignatureOffset, U16, Value;
    HeaderFields(18 + |rest|, localBt, destBt, control, rest);
  }

  /** Such a push runs to the end of the frame, and comes back unchanged, exactly when it fits
      the length field, starts with the signature, holds no escape byte and does not end in a
      delimiter byte. */
  lemma RawPushIff(localBt: BtAddr, destBt: BtAddr, control: u16, separator: bool, payload: bytes)
    ensures var raw := RawPush(localBt, destBt, control, separator, payload);
      Parse(raw) == Ok(Frame(L2Wrapped, localBt, destBt, control, payload))
      <==> |raw| <= 0xFFFF && SignatureAt(payload, 0) && payload[|payload| - 1] != DELIMITER && ESCAPE !in payload
  {
    hide Header, Parse, Layer2Payload, SignatureOffset;
    var rest := (if separator then [DELIMITER] else []) + payload;
    var raw := RawPush(localBt, destBt, control, separator, payload);
    assert raw[18..] == rest;
    ParseBuilt(localBt, destBt, control, rest);
    RawPushSignature(raw, separator, payload);
    if SignatureOffset(raw).Some? {
      RawPayloadIff(raw, SignatureOffset(raw).value, payload);
    }
  }

  lemma RawPayloadIff(raw: bytes, i: nat, payload: bytes)
    requires i < |raw|
    requires raw[i..] == payload || |raw[i..]| < |payload|
    ensures Layer2Payload(raw, i) == Ok(payload)
       <==> raw[i..] == payload && raw[|raw| - 1] != DELIMITER && ESCAPE !in payload
  {
    hide Unstuff;
    UnstuffKeepsIff(payload);
    UnstuffShrinks(raw[i..]);
    UnstuffShrinks(raw[i..|raw| - 1]);
  }

  lemma RawPushSignature(raw: bytes, separator: bool, payload: bytes)
    requires |raw| >= 18 && raw[18..] == (if separator then [DELIMITER] else []) + payload
    ensures SignatureAt(payload, 0) ==>
      && SignatureOffset(raw) == Some(SignatureStart(separator))
      && raw[SignatureStart(separator)..] == payload
      && raw[|raw| - 1] == payload[|payload| - 1]
    ensures !SignatureAt(payload, 0) && SignatureOffset(raw).Some? ==>
      SignatureOffset(raw).value < |raw| && |raw[SignatureOffset(raw).value..]| < |payload|
  {
    var rest, i := raw[18..], SignatureStart(separator);
    if |payload| >= 4 {
      assert payload[..4] == rest[i - 18..i - 14] == raw[i..i + 4];
    }
    if |raw| >= 22 && separator {
      assert raw[18..22][0] == rest[0];
    }
    assert payload == rest[i - 18..] == raw[i..];
  }

  /** A raw push that ends in a delimiter byte is misread: its last data byte is taken for the
      trailer and the two before it for a checksum. */
  lemma UnstuffedPushMisread(localBt: BtAddr, destBt: BtAddr, control: u16, payload: bytes, a: byte, b: byte)
    requires SignatureAt(payload, 0) && 18 + |payload| + 3 <= 0xFFFF
    requires forall k :: 0 <= k < |payload| ==> !Special(payload[k])
    requires !Special(a) && !Special(b)
    ensures Parse(WithHeader(localBt, destBt, control, payload + [a, b, DELIMITER]))
            == Ok(Frame(L2Wrapped, localBt, destBt, control, payload))
  {
    hide Le16, Join16;
    var fcs := Join16(a, b);
    Join16Splits(0, a, b);
    PlainIsNotStuffed(payload + [a, b]);
    assert Layer2Wire(false, payload, Trailed(fcs)) == payload + [a, b, DELIMITER];
    Layer2RoundTrip(localBt, destBt, control, false, payload, Trailed(fcs));
  }

  /** Nor need it be misread: with an escape before the delimiter byte it is refused, and with
      one elsewhere a byte of it is changed. */
  lemma EscapedPushLost(localBt: BtAddr, destBt: BtAddr, control: u16)
    ensures Parse(RawPush(localBt, destBt, control, false, SIGNATURE + [0x00, ESCAPE, DELIMITER])) ==
      Err(TruncatedEscape)
    ensures Parse(RawPush(localBt, destBt, control, false, SIGNATURE + [ESCAPE, 0x01]))
            == Ok(Frame(L2Wrapped, localBt, destBt, control, SIGNATURE + [0x21]))
  {
    hide Header, HeaderCheck, Parse, Unstuff, U16, Value, Layer2Payload;
    ShortUnstuffs();
    RawPushRead(localBt, destBt, control, SIGNATURE + [0x00, ESCAPE, DELIMITER]);
    RawPushRead(localBt, destBt, control, SIGNATURE + [ESCAPE, 0x01]);
    assert (SIGNATURE + [0x00, ESCAPE, DELIMITER])[..6] == SIGNATURE + [0x00, ESCAPE];
  }

  /** What is read of a push sent as it is, without a separator. */
  lemma RawPushRead(localBt: BtAddr, destBt: BtAddr, control: u16, payload: bytes)
    requires SignatureAt(payload, 0) && 18 + |payload| <= 0xFFFF
    ensures Parse(RawPush(localBt, destBt, control, false, payload)) ==
      match (if payload[|payload| - 1] == DELIMITER
        then Trimmed(Unstuff(payload[..|payload| - 1])) else Unstuff(payload))
      case Err(e) => Err(e)
      case Ok(u) => Ok(Frame(L2Wrapped, localBt, destBt, control, u))
  {
    hide Header, Parse, Unstuff, SignatureOffset, Layer2Payload, SignatureAt;
    var raw := RawPush(localBt, destBt, control, false, payload);
    assert [] + payload == payload == raw[18..];
    assert payload != [] by { SignatureIsLong(payload); }
    ParseBuilt(localBt, destBt, control, payload);
    RawPushSignature(raw, false, payload);
    RawPayload(raw, 18, payload);
  }

  lemma SignatureIsLong(payload: bytes)
    requires SignatureAt(payload, 0)
    ensures |payload| >= 4
  {
  }

  lemma RawPayload(raw: bytes, i: nat, payload: bytes)
    requires i < |raw| && raw[i..] == payload
    ensures Layer2Payload(raw, i) ==
      if payload[|payload| - 1] == DELIMITER then Trimmed(Unstuff(payload[..|payload| - 1])) else Unstuff(payload)
  {
    hide Unstuff;
    assert raw[i..|raw| - 1] == payload[..|payload| - 1];
  }

  lemma ShortUnstuffs()
    ensures Unstuff(SIGNATURE + [0x00, ESCAPE]) == Err(TruncatedEscape)
    ensures Unstuff(SIGNATURE + [ESCAPE, 0x01]) == Ok(SIGNATURE + [0x21])
  {
    hide Stuff, Unstuff;
    PlainIsNotStuffed(SIGNATURE);
    TwoByteUnstuffs(0x00, 0x01);
    UnstuffAfterStuff(SIGNATURE, [0x00, ESCAPE]);
    UnstuffAfterStuff(SIGNATURE, [ESCAPE, 0x01]);
    assert Unstuff([ESCAPE, 0x01]) == Ok([0x21]) by { assert Flip(0x01) == 0x21; }
  }

  lemma TwoByteUnstuffs(a: byte, b: byte)
    requires a != ESCAPE
    ensures Unstuff([a, ESCAPE]) == Err(TruncatedEscape)
    ensures Unstuff([ESCAPE, b]) == Ok([Flip(b)])
  {
    hide Flip;
    assert [a, ESCAPE][1..] == [ESCAPE] && [ESCAPE, b][2..] == [];
    assert Unstuff([ESCAPE]) == Err(TruncatedEscape);
    assert [Flip(b)] + [] == [Flip(b)];
  }
}
