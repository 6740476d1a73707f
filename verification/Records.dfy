/** Walking the records of a reply body, and what the typed readers pick out of them. */
module Records {
  import opened Bytes

  const PREFIX: nat := 12
  const SHORT: nat := 20
  const FULL: nat := 28

  const I32_NAN: u32 := 0x8000_0000
  const U32_NAN: u32 := 0xFFFF_FFFF

  const INV_STATUS: u32 := 0x0021_4800
  const DC_MS_WATT: u32 := 0x0025_1E00
  const DC_MS_VOL: u32 := 0x0045_1F00
  const DC_MS_AMP: u32 := 0x0045_2100
  const SPOT_PAC_TOTAL: u32 := 0x0026_3F00

  /** What follows the echoed prefix. */
  function RecordsRegion(body: bytes): bytes {
    if |body| >= PREFIX then body[PREFIX..] else []
  }

  /** The record type inside a code word. */
  function RecordLri(code: u32): u32 {
    code & 0x00FF_FF00
  }

  function LriOf(rec: bytes): u32
    requires |rec| >= 4
  {
    RecordLri(U32(rec, 0))
  }

  /** The string number in the low byte of the code word. */
  function ClsOf(rec: bytes): byte
    requires |rec| >= 4
  {
    rec[0]
  }

  /** A spot record: full, or cut after its value. */
  type Record = r: bytes | |r| == 20 || |r| == 28 witness seq(20, i => 0)

  function Stride(remaining: nat): nat
    requires remaining >= SHORT
  {
    if remaining >= FULL then FULL else SHORT
  }

  /** The records of a region, in order. */
  function RecordsIn(region: bytes): seq<Record> {
    if |region| < SHORT then []
    else
      var n := Stride(|region|);
      [region[..n]] + RecordsIn(region[n..])
  }

  /** The walker. It hands every record to its caller in order; here they are collected. */
  method ForEach28Record(body: bytes) returns (visited: seq<Record>)
    ensures visited == RecordsIn(RecordsRegion(body))
  {
    hide RecordsIn;
    var region := RecordsRegion(body);
    visited := [];
    var i := 0;
    assert region[0..] == region;
    while i + SHORT <= |region|
      invariant i <= |region|
      invariant RecordsIn(region) == visited + RecordsIn(region[i..])
    {
      var remaining := |region| - i;
      var stride := if remaining >= FULL then FULL else SHORT;
      assert region[i..][stride..] == region[i + stride..];
      assert region[i..][..stride] == region[i..i + stride];
      TakeOne(visited, region[i..]);
      visited := visited + [region[i..i + stride]];
      i := i + stride;
    }
    NoMore(region[i..]);
  }

  lemma TakeOne(visited: seq<Record>, region: bytes)
    requires |region| >= SHORT
    ensures visited + RecordsIn(region)
            == visited + [region[..Stride(|region|)]] + RecordsIn(region[Stride(|region|)..])
  {
  }

  lemma NoMore(region: bytes)
    requires |region| < SHORT
    ensures RecordsIn(region) == []
  {
  }

  /** The walker visits every full record, then one cut record if at least twenty bytes are
      left, and leaves fewer than twenty unread. */
  lemma {:induction false} RecordsShape(region: bytes)
    ensures var n, left := |region| / 28, |region| % 28;
      && |RecordsIn(region)| == n + (if left >= 20 then 1 else 0)
      && (forall k :: 0 <= k < n ==> RecordsIn(region)[k] == region[28 * k..28 * (k + 1)])
      && (left >= 20 ==> RecordsIn(region)[n] == region[28 * n..28 * n + 20])
  {
    if |region| >= 28 {
      hide RecordsIn;
      var rest, n := region[28..], |region| / 28;
      FirstIsFull(region);
      RecordsShape(rest);
      assert |rest| / 28 == n - 1 && |rest| % 28 == |region| % 28;
      forall k | 0 < k < n ensures RecordsIn(region)[k] == region[28 * k..28 * (k + 1)] {
        SliceOfRest(region, 28, 28 * (k - 1), 28 * k);
      }
      if |region| % 28 >= 20 {
        SliceOfRest(region, 28, 28 * (n - 1), 28 * (n - 1) + 20);
      }
    }
  }

  lemma FirstIsFull(region: bytes)
    requires |region| >= 28
    ensures RecordsIn(region) == [region[..28]] + RecordsIn(region[28..])
  {
  }

  lemma SliceOfRest(s: bytes, n: nat, lo: nat, hi: nat)
    requires lo <= hi && n + hi <= |s|
    ensures s[n..][lo..hi] == s[n + lo..n + hi]
  {
  }

  /** The records of a body, by position: they begin after twelve bytes. */
  lemma RecordPlaces(body: bytes)
    requires |body| >= 12
    ensures var recs, n, left := RecordsIn(RecordsRegion(body)), (|body| - 12) / 28, (|body| - 12) % 28;
      && |recs| == n + (if left >= 20 then 1 else 0)
      && (forall k :: 0 <= k < n ==> recs[k] == body[12 + 28 * k..40 + 28 * k])
      && (left >= 20 ==> recs[n] == body[12 + 28 * n..32 + 28 * n])
  {
    hide RecordsIn;
    var region := RecordsRegion(body);
    RecordsShape(region);
    forall k | 0 <= k < |region| / 28 ensures region[28 * k..28 * (k + 1)] == body[12 + 28 * k..40 + 28 * k] {
    }
  }

  // ---------------------------------------------------------------- first and last matches

  /** The position of the last record with a property. */
  function LastOf(recs: seq<Record>, p: Record -> bool): (r: Option<nat>)
    ensures r.Some? ==> r.value < |recs| && p(recs[r.value])
    ensures forall j :: (if r.Some? then r.value + 1 else 0) <= j < |recs| ==> !p(recs[j])
  {
    if recs == [] then None
    else if p(recs[|recs| - 1]) then Some(|recs| - 1)
    else LastOf(recs[..|recs| - 1], p)
  }

  /** The position of the first record with a property. */
  function FirstOf(recs: seq<Record>, p: Record -> bool): (r: Option<nat>)
    ensures r.Some? ==> r.value < |recs| && p(recs[r.value])
    ensures forall j :: 0 <= j < (if r.Some? then r.value else |recs|) ==> !p(recs[j])
  {
    if recs == [] then None
    else
      match FirstOf(recs[..|recs| - 1], p)
      case Some(k) => Some(k)
      case None => if p(recs[|recs| - 1]) then Some(|recs| - 1) else None
  }

  lemma OneMoreRecord(recs: seq<Record>, i: nat)
    requires i < |recs|
    ensures recs[..i + 1][..i] == recs[..i] && recs[..i + 1][i] == recs[i] && |recs[..i + 1]| == i + 1
    ensures recs[..|recs|] == recs && recs[..0] == []
  {
  }

  // ---------------------------------------------------------------- values

  /** The current value of a spot record, unless it is the no-reading mark. */
  function I32Value(rec: Record): Option<u32> {
    var v := U32(rec, 16);
    if v == I32_NAN then None else Some(v)
  }

  datatype Readings = Readings(pacTotalW: Option<u32>, timestamp: Option<u32>)

  function HasLri(lri: u32): Record -> bool {
    (rec: Record) => LriOf(rec) == lri
  }

  /** Every matching record overwrites what was read before: the last one stays, even when it
      has no reading. */
  method ParseSpotAcTotalPower(body: bytes) returns (out: Readings)
    ensures var recs := RecordsIn(RecordsRegion(body));
      match LastOf(recs, HasLri(0x0026_3F00))
      case None => out == Readings(None, None)
      case Some(k) => out == Readings(I32Value(recs[k]), Some(U32(recs[k], 4)))
  {
    hide LriOf, I32Value, RecordsIn, U32;
    var recs := ForEach28Record(body);
    out := Readings(None, None);
    for i := 0 to |recs|
      invariant match LastOf(recs[..i], HasLri(SPOT_PAC_TOTAL))
                case None => out == Readings(None, None)
                case Some(k) => out == Readings(I32Value(recs[k]), Some(U32(recs[k], 4)))
    {
      OneMoreRecord(recs, i);
      if LriOf(recs[i]) == SPOT_PAC_TOTAL {
        out := out.(pacTotalW := I32Value(recs[i]));
        out := out.(timestamp := Some(U32(recs[i], 4)));
      }
    }
    assert recs[..|recs|] == recs;
  }

  datatype DcPerString = DcPerString(
    pdc1: Option<u32>, pdc2: Option<u32>, udc1: Option<u32>, udc2: Option<u32>, idc1: Option<u32>, idc2: Option<u32>)

  function HasLriCls(lri: u32, cls: byte): Record -> bool {
    (rec: Record) => LriOf(rec) == lri && ClsOf(rec) == cls
  }

  /** The value the last record of a kind and string leaves. */
  function LastValue(recs: seq<Record>, lri: u32, cls: byte): Option<u32> {
    match LastOf(recs, HasLriCls(lri, cls))
    case None => None
    case Some(k) => I32Value(recs[k])
  }

  function DcOf(recs: seq<Record>): DcPerString {
    DcPerString(LastValue(recs, DC_MS_WATT, 1), LastValue(recs, DC_MS_WATT, 2),
                LastValue(recs, DC_MS_VOL, 1), LastValue(recs, DC_MS_VOL, 2),
                LastValue(recs, DC_MS_AMP, 1), LastValue(recs, DC_MS_AMP, 2))
  }

  lemma LastValueStep(recs: seq<Record>, i: nat, lri: u32, cls: byte)
    requires i < |recs|
    ensures LastValue(recs[..i + 1], lri, cls)
            == if LriOf(recs[i]) == lri && ClsOf(recs[i]) == cls
              then I32Value(recs[i]) else LastValue(recs[..i], lri, cls)
    ensures LastValue(recs[..0], lri, cls) == None
  {
    hide LriOf, ClsOf, I32Value;
    OneMoreRecord(recs, i);
    assert HasLriCls(lri, cls)(recs[i]) == (LriOf(recs[i]) == lri && ClsOf(recs[i]) == cls);
  }

  lemma DcStep(recs: seq<Record>, i: nat)
    requires i < |recs|
    ensures DcOf(recs[..i + 1]) == Overwritten(DcOf(recs[..i]), recs[i])
  {
    hide LastValue, LriOf, ClsOf, I32Value;
    LastValueStep(recs, i, DC_MS_WATT, 1);
    LastValueStep(recs, i, DC_MS_WATT, 2);
    LastValueStep(recs, i, DC_MS_VOL, 1);
    LastValueStep(recs, i, DC_MS_VOL, 2);
    LastValueStep(recs, i, DC_MS_AMP, 1);
    LastValueStep(recs, i, DC_MS_AMP, 2);
  }

  /** What one record does to the readings. */
  function Overwritten(out: DcPerString, rec: Record): DcPerString {
    var lri, cls := LriOf(rec), ClsOf(rec);
    if lri == DC_MS_WATT && cls == 1 then out.(pdc1 := I32Value(rec))
    else if lri == DC_MS_WATT && cls == 2 then out.(pdc2 := I32Value(rec))
    else if lri == DC_MS_VOL && cls == 1 then out.(udc1 := I32Value(rec))
    else if lri == DC_MS_VOL && cls == 2 then out.(udc2 := I32Value(rec))
    else if lri == DC_MS_AMP && cls == 1 then out.(idc1 := I32Value(rec))
    else if lri == DC_MS_AMP && cls == 2 then out.(idc2 := I32Value(rec))
    else out
  }

  /** The direct-current reader walks the region itself, over the same records as the walker. */
  method ParseDcBlock(body: bytes) returns (out: DcPerString)
    ensures out == DcOf(RecordsIn(RecordsRegion(body)))
  {
    hide LriOf, ClsOf, I32Value, DcOf;
    var region := RecordsRegion(body);
    ghost var recs, n := RecordsIn(region), 0;
    out := DcPerString(None, None, None, None, None, None);
    assert out == DcOf(recs[..0]) by { NothingRead(recs[..0]); }
    var i := 0;
    assert region[0..] == region;
    while i + SHORT <= |region|
      invariant i <= |region| && n <= |recs|
      invariant recs[n..] == RecordsIn(region[i..])
      invariant out == DcOf(recs[..n])
    {
      var remaining := |region| - i;
      var stride := if remaining >= FULL then FULL else SHORT;
      var rec: Record := region[i..i + stride];
      assert region[i..][stride..] == region[i + stride..] && region[i..][..stride] == rec;
      assert recs[n..][0] == recs[n] == rec && recs[n..][1..] == recs[n + 1..];
      DcStep(recs, n);
      out := Overwritten(out, rec);
      i := i + stride;
      n := n + 1;
    }
    assert recs[..n] == recs;
  }

  lemma NothingRead(recs: seq<Record>)
    requires recs == []
    ensures DcOf(recs) == DcPerString(None, None, None, None, None, None)
  {
  }

  // ---------------------------------------------------------------- first usable record

  /** The size of a signed reading: its own negation, wrapping, when the sign bit is set. */
  function Magnitude(v: u32): u32 {
    if v & 0x8000_0000 != 0 then 0 - v else v
  }

  predicate IsCosphi(lri: u32) {
    0x0023_7400 <= lri <= 0x0023_74FF || 0x0047_4800 <= lri <= 0x0047_48FF
  }

  function UsableCosphi(): Record -> bool {
    (rec: Record) => IsCosphi(LriOf(rec)) && I32Value(rec).Some?
  }

  /** A record without a reading does not settle the result: the first one with a reading does. */
  method ParseCosphi(body: bytes) returns (out: Option<u32>)
    ensures var recs := RecordsIn(RecordsRegion(body));
      match FirstOf(recs, UsableCosphi())
      case None => out == None
      case Some(k) => I32Value(recs[k]).Some? && out == Some(Magnitude(I32Value(recs[k]).value))
  {
    hide LriOf, I32Value, RecordsIn, IsCosphi, Magnitude;
    var recs := ForEach28Record(body);
    out := None;
    for i := 0 to |recs|
      invariant match FirstOf(recs[..i], UsableCosphi())
                case None => out == None
                case Some(k) => I32Value(recs[k]).Some? && out == Some(Magnitude(I32Value(recs[k]).value))
    {
      OneMoreRecord(recs, i);
      assert UsableCosphi()(recs[i]) == (IsCosphi(LriOf(recs[i])) && I32Value(recs[i]).Some?);
      if IsCosphi(LriOf(recs[i])) && out.None? {
        match I32Value(recs[i])
        case None => out := None;
        case Some(v) => out := Some(Magnitude(v));
      }
    }
    assert recs[..|recs|] == recs;
  }

  const WATT_SLOTS: seq<nat> := [16, 8, 12, 20, 24]

  predicate UsableWatts(v: u32) {
    v != 0 && v != 0x8000_0000 && v != 0xFFFF_FFFF
  }

  /** The first usable value among the given slots that fit in the record. */
  function FirstSlot(rec: Record, slots: seq<nat>): Option<u32> {
    if slots == [] then None
    else if slots[0] + 4 <= |rec| && UsableWatts(U32(rec, slots[0])) then Some(U32(rec, slots[0]))
    else FirstSlot(rec, slots[1..])
  }

  function UsableWattsRecord(first: u32, last: u32): Record -> bool {
    (rec: Record) => first <= LriOf(rec) <= last && FirstSlot(rec, WATT_SLOTS).Some?
  }

  method ScanSlots(rec: Record) returns (out: Option<u32>)
    ensures out == FirstSlot(rec, WATT_SLOTS)
  {
    hide UsableWatts, U32;
    for i := 0 to |WATT_SLOTS|
      invariant FirstSlot(rec, WATT_SLOTS) == FirstSlot(rec, WATT_SLOTS[i..])
    {
      assert WATT_SLOTS[i..][1..] == WATT_SLOTS[i + 1..];
      var off := WATT_SLOTS[i];
      if off + 4 > |rec| {
        continue;
      }
      var v := U32(rec, off);
      if UsableWatts(v) {
        return Some(v);
      }
    }
    out := None;
  }

  /** The first record in range that has a usable slot at all. */
  method ParseSingleWattsRecord(body: bytes, lriFirst: u32, lriLast: u32) returns (out: Option<u32>)
    ensures var recs := RecordsIn(RecordsRegion(body));
      match FirstOf(recs, UsableWattsRecord(lriFirst, lriLast))
      case None => out == None
      case Some(k) => FirstSlot(recs[k], WATT_SLOTS).Some? && out == FirstSlot(recs[k], WATT_SLOTS)
  {
    hide LriOf, FirstSlot, RecordsIn;
    var recs := ForEach28Record(body);
    out := None;
    for i := 0 to |recs|
      invariant match FirstOf(recs[..i], UsableWattsRecord(lriFirst, lriLast))
                case None => out == None
                case Some(k) => FirstSlot(recs[k], WATT_SLOTS).Some? && out == FirstSlot(recs[k], WATT_SLOTS)
    {
      OneMoreRecord(recs, i);
      assert UsableWattsRecord(lriFirst, lriLast)(recs[i])
          == (lriFirst <= LriOf(recs[i]) <= lriLast && FirstSlot(recs[i], WATT_SLOTS).Some?);
      if LriOf(recs[i]) >= lriFirst && LriOf(recs[i]) <= lriLast && out.None? {
        out := ScanSlots(recs[i]);
      }
    }
    assert recs[..|recs|] == recs;
  }

  // ---------------------------------------------------------------- where in a record things are

  /** The kind of a record is in its second and third byte, the string number in its first. */
  lemma KindBytes(rec: bytes)
    requires |rec| >= 4
    ensures LriOf(rec) == ((rec[1] as u32) << 8) | ((rec[2] as u32) << 16)
    ensures ClsOf(rec) == rec[0]
  {
  }

  /** The reading is the word at offset 16, unless that is 80000000. */
  lemma ReadingAtSixteen(rec: Record, v: u32)
    requires rec[16..20] == Le32(v)
    ensures I32Value(rec) == if v == 0x8000_0000 then None else Some(v)
  {
    hide U32, Le32;
    U32OfLe32(rec, 16, v);
  }

  /** The timestamp of a power reading is the word at offset 4 of the same record. */
  lemma StampAtFour(rec: Record, v: u32)
    requires rec[4..8] == Le32(v)
    ensures U32(rec, 4) == v
  {
    hide U32, Le32;
    U32OfLe32(rec, 4, v);
  }

  /** The size of a reading does not depend on its sign, and is the reading itself when that is
      not negative. */
  lemma MagnitudeMeans(v: u32)
    ensures v < 0x8000_0000 ==> Magnitude(v) == v && Magnitude(0 - v) == v
    ensures v >= 0x8000_0000 ==> v + Magnitude(v) == 0
    ensures Magnitude(v) <= 0x8000_0000
  {
  }

  /** Only two kinds count as a power factor. */
  lemma CosphiKinds(rec: Record)
    ensures IsCosphi(LriOf(rec)) <==> LriOf(rec) == 0x0023_7400 || LriOf(rec) == 0x0047_4800
  {
    hide U32;
    MaskedKind(U32(rec, 0));
  }

  lemma MaskedKind(code: u32)
    ensures IsCosphi(RecordLri(code)) <==> RecordLri(code) == 0x0023_7400 || RecordLri(code) == 0x0047_4800
  {
  }

  predicate Watts(v: u32) {
    v != 0 && v != 0x8000_0000 && v != 0xFFFF_FFFF
  }

  /** A nameplate value is the first usable word of those at offsets 16, 8, 12, 20 and 24; a cut
      record has only the first three. */
  lemma WattsBySlot(rec: Record)
    ensures FirstSlot(rec, WATT_SLOTS)
            == if Watts(U32(rec, 16)) then Some(U32(rec, 16))
               else if Watts(U32(rec, 8)) then Some(U32(rec, 8))
               else if Watts(U32(rec, 12)) then Some(U32(rec, 12))
               else if |rec| == 28 && Watts(U32(rec, 20)) then Some(U32(rec, 20))
               else if |rec| == 28 && Watts(U32(rec, 24)) then Some(U32(rec, 24))
               else None
  {
    hide U32;
    assert WATT_SLOTS[1..] == [8, 12, 20, 24] && WATT_SLOTS[1..][1..] == [12, 20, 24];
    assert [12, 20, 24][1..] == [20, 24] && [20, 24][1..] == [24] && [24][1..] == [];
    SlotStep(rec, WATT_SLOTS);
    SlotStep(rec, [8, 12, 20, 24]);
    SlotStep(rec, [12, 20, 24]);
    SlotStep(rec, [20, 24]);
    SlotStep(rec, [24]);
  }

  lemma SlotStep(rec: Record, slots: seq<nat>)
    requires slots != []
    ensures FirstSlot(rec, slots)
            == if slots[0] + 4 <= |rec| && Watts(U32(rec, slots[0])) then Some(U32(rec, slots[0]))
               else if slots[1..] == [] then None else FirstSlot(rec, slots[1..])
  {
    hide U32;
  }

  /** The last record of a kind and string decides what the direct-current reader reports. */
  lemma DcByRecord(recs: seq<Record>, k: nat, lri: u32, cls: byte)
    requires k < |recs| && LriOf(recs[k]) == lri && ClsOf(recs[k]) == cls
    requires forall j :: k < j < |recs| ==> !(LriOf(recs[j]) == lri && ClsOf(recs[j]) == cls)
    ensures var out, v := DcOf(recs), I32Value(recs[k]);
      && (lri == 0x0025_1E00 && cls == 1 ==> out.pdc1 == v) && (lri == 0x0025_1E00 && cls == 2 ==> out.pdc2 == v)
      && (lri == 0x0045_1F00 && cls == 1 ==> out.udc1 == v) && (lri == 0x0045_1F00 && cls == 2 ==> out.udc2 == v)
      && (lri == 0x0045_2100 && cls == 1 ==> out.idc1 == v) && (lri == 0x0045_2100 && cls == 2 ==> out.idc2 == v)
  {
    hide LriOf, ClsOf, I32Value;
    LastOfKind(recs, k, lri, cls);
  }

  lemma LastOfKind(recs: seq<Record>, k: nat, lri: u32, cls: byte)
    requires k < |recs| && LriOf(recs[k]) == lri && ClsOf(recs[k]) == cls
    requires forall j :: k < j < |recs| ==> !(LriOf(recs[j]) == lri && ClsOf(recs[j]) == cls)
    ensures LastValue(recs, lri, cls) == I32Value(recs[k])
  {
    hide LriOf, ClsOf, I32Value;
    var p := HasLriCls(lri, cls);
    assert p(recs[k]);
    assert forall j :: k < j < |recs| ==> !p(recs[j]);
  }
}
