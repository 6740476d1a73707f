/** The status and type-label readers: scans over tagged slots inside records. */
module Status {
  import opened Bytes
  import opened Records

  const TAG_MASK: u32 := 0x00FF_FFFF
  const SELECTED: u32 := 0x0100_0000
  const STATUS_SLOTS: seq<nat> := [8, 12, 16, 20]
  const LABEL_RECORD: nat := 40
  const END_OF_LABELS: u32 := 0x00FF_FFFE

  /** The low three bytes of a slot. */
  function Tag(v: u32): u32 {
    v & TAG_MASK
  }

  /** A slot that counts: it holds a value, and the selected mark if that is asked for. */
  predicate Counts(v: u32, selected: bool) {
    v != 0 && v != U32_NAN && (selected ==> v & SELECTED != 0)
  }

  /** The tag of the first slot that counts. */
  function FirstTag(rec: bytes, slots: seq<nat>, selected: bool): Option<u32>
    requires forall i :: 0 <= i < |slots| ==> slots[i] + 4 <= |rec|
  {
    if slots == [] then None
    else if Counts(U32(rec, slots[0]), selected) then Some(Tag(U32(rec, slots[0])))
    else FirstTag(rec, slots[1..], selected)
  }

  /** The status a record reports: the selected slot, or else the first with any value. */
  function StatusOf(rec: Record): Option<u32> {
    if LriOf(rec) != INV_STATUS || |rec| < 24 then None
    else
      match FirstTag(rec, STATUS_SLOTS, true)
      case Some(t) => Some(t)
      case None => FirstTag(rec, STATUS_SLOTS, false)
  }

  function HasStatus(): Record -> bool {
    (rec: Record) => StatusOf(rec).Some?
  }

  method ScanTags(rec: Record, selected: bool) returns (out: Option<u32>)
    requires |rec| >= 24
    ensures out == FirstTag(rec, STATUS_SLOTS, selected)
  {
    hide U32, Counts, Tag;
    for i := 0 to |STATUS_SLOTS|
      invariant FirstTag(rec, STATUS_SLOTS, selected) == FirstTag(rec, STATUS_SLOTS[i..], selected)
    {
      assert STATUS_SLOTS[i..][1..] == STATUS_SLOTS[i + 1..];
      var v := U32(rec, STATUS_SLOTS[i]);
      if Counts(v, selected) {
        return Some(Tag(v));
      }
    }
    out := None;
  }

  /** The last full status record with any value in a slot decides; within it a selected slot
      goes before an earlier one that is not selected. */
  method ParseDeviceStatus(body: bytes) returns (out: Option<u32>)
    ensures var recs := RecordsIn(RecordsRegion(body));
      out == match LastOf(recs, HasStatus()) case None => None case Some(k) => StatusOf(recs[k])
  {
    hide LriOf, FirstTag, RecordsIn;
    var recs := ForEach28Record(body);
    out := None;
    for i := 0 to |recs|
      invariant out == match LastOf(recs[..i], HasStatus()) case None => None case Some(k) => StatusOf(recs[k])
    {
      OneMoreRecord(recs, i);
      assert HasStatus()(recs[i]) == StatusOf(recs[i]).Some?;
      if LriOf(recs[i]) == INV_STATUS && |recs[i]| >= 24 {
        var chosen := ScanTags(recs[i], true);
        if chosen.Some? {
          out := chosen;
          continue;
        }
        var any := ScanTags(recs[i], false);
        if any.Some? {
          out := any;
        }
      }
    }
    assert recs[..|recs|] == recs;
  }

  /** What the slots have in common with a plain search: the first that counts, or none does. */
  lemma {:induction false} FirstTagMeans(rec: bytes, slots: seq<nat>, selected: bool) returns (k: nat)
    requires forall i :: 0 <= i < |slots| ==> slots[i] + 4 <= |rec|
    ensures k <= |slots| && forall i :: 0 <= i < k ==> !Counts(U32(rec, slots[i]), selected)
    ensures FirstTag(rec, slots, selected) == if k == |slots| then None else Some(Tag(U32(rec, slots[k])))
    ensures k < |slots| ==> Counts(U32(rec, slots[k]), selected)
  {
    hide U32, Counts, Tag;
    k := 0;
    if slots != [] && !Counts(U32(rec, slots[0]), selected) {
      assert forall i :: 0 < i < |slots| ==> slots[1..][i - 1] == slots[i];
      k := FirstTagMeans(rec, slots[1..], selected);
      k := k + 1;
    }
  }

  /** A record reports no status exactly when it is of another kind, cut off before the last
      slot, or without a value in any slot. */
  lemma NoStatusIff(rec: Record)
    ensures StatusOf(rec).None? <==>
      LriOf(rec) != INV_STATUS || |rec| < 24
      || forall i :: 0 <= i < 4 ==> !Counts(U32(rec, STATUS_SLOTS[i]), false)
  {
    hide U32, LriOf, FirstTag;
    if LriOf(rec) == INV_STATUS && |rec| >= 24 {
      var j := FirstTagMeans(rec, STATUS_SLOTS, true);
      var k := FirstTagMeans(rec, STATUS_SLOTS, false);
      if j < 4 {
        SelectedCounts(U32(rec, STATUS_SLOTS[j]));
      }
    }
  }

  lemma SelectedCounts(v: u32)
    ensures Counts(v, true) ==> Counts(v, false)
  {
  }

  /** Whether the i-th status word holds a value, and whether it is marked as selected. */
  predicate Valued(rec: Record, i: nat)
    requires i < 4 && |rec| == 28
  {
    U32(rec, 8 + 4 * i) != 0 && U32(rec, 8 + 4 * i) != 0xFFFF_FFFF
  }

  predicate Selected(rec: Record, i: nat)
    requires i < 4 && |rec| == 28
  {
    Valued(rec, i) && U32(rec, 8 + 4 * i) & 0x0100_0000 != 0
  }

  lemma StatusWord(rec: Record, i: nat)
    requires i < 4 && |rec| == 28
    ensures STATUS_SLOTS[i] == 8 + 4 * i
    ensures Counts(U32(rec, STATUS_SLOTS[i]), false) <==> Valued(rec, i)
    ensures Counts(U32(rec, STATUS_SLOTS[i]), true) <==> Selected(rec, i)
  {
    hide U32;
  }

  /** A full status record reports the low three bytes of the first selected word of those at
      offsets 8, 12, 16 and 20, even if one that is not selected comes earlier; and if none is
      selected, of the first that holds a value. A cut record reports nothing. */
  lemma StatusBySlot(rec: Record, i: nat)
    requires LriOf(rec) == 0x0021_4800 && i < 4
    ensures |rec| == 20 ==> StatusOf(rec) == None
    ensures |rec| == 28 && Selected(rec, i) && (forall j :: 0 <= j < i ==> !Selected(rec, j)) ==>
      StatusOf(rec) == Some(U32(rec, 8 + 4 * i) & 0x00FF_FFFF)
    ensures |rec| == 28 && (forall j :: 0 <= j < 4 ==> !Selected(rec, j))
            && Valued(rec, i) && (forall j :: 0 <= j < i ==> !Valued(rec, j)) ==>
      StatusOf(rec) == Some(U32(rec, 8 + 4 * i) & 0x00FF_FFFF)
  {
    hide U32, LriOf, FirstTag, Counts, Valued, Selected;
    if |rec| == 28 {
      forall j: nat | j < 4
        ensures STATUS_SLOTS[j] == 8 + 4 * j
        ensures Counts(U32(rec, STATUS_SLOTS[j]), false) <==> Valued(rec, j)
        ensures Counts(U32(rec, STATUS_SLOTS[j]), true) <==> Selected(rec, j)
      {
        StatusWord(rec, j);
      }
      var s := FirstTagMeans(rec, STATUS_SLOTS, true);
      var v := FirstTagMeans(rec, STATUS_SLOTS, false);
      if Selected(rec, i) && forall j :: 0 <= j < i ==> !Selected(rec, j) {
        assert s == i;
      }
      if && (forall j :: 0 <= j < 4 ==> !Selected(rec, j))
         && Valued(rec, i) && (forall j :: 0 <= j < i ==> !Valued(rec, j))
      {
        assert s == 4 && v == i;
      }
    }
  }

  // ---------------------------------------------------------------- type labels

  predicate IsLabel(lri: u32) {
    lri == 0x0082_1E00 || lri == 0x0082_1F00 || lri == 0x0082_2000
  }

  /** The selected tag among the slots from off on, up to the end mark. */
  function LabelFrom(rec: bytes, off: nat): Option<u32>
    requires |rec| == LABEL_RECORD
    decreases LABEL_RECORD - off
  {
    if off + 4 > LABEL_RECORD then None
    else
      var attr := U32(rec, off);
      if Tag(attr) == END_OF_LABELS then None
      else if attr >> 24 == 1 then Some(Tag(attr))
      else LabelFrom(rec, off + 4)
  }

  /** A slot at which the search for the selected tag goes on. */
  predicate PassedOver(attr: u32) {
    attr & 0x00FF_FFFF != 0x00FF_FFFE && attr >> 24 != 1
  }

  /** The label is the tag of the first slot with the selected mark, if no end mark comes before
      it; an end mark hides it even if it carries the selected mark itself. */
  lemma {:induction false} LabelFromMeans(rec: bytes, off: nat) returns (p: nat)
    requires |rec| == 40 && off <= 40 && off % 4 == 0
    ensures off <= p <= 40 && p % 4 == 0
    ensures forall q :: off <= q < p && q % 4 == 0 ==> PassedOver(U32(rec, q))
    ensures p < 40 ==> !PassedOver(U32(rec, p))
    ensures LabelFrom(rec, off) == if p == 40 || U32(rec, p) & 0x00FF_FFFF == 0x00FF_FFFE then None
                                   else Some(U32(rec, p) & 0x00FF_FFFF)
    decreases LABEL_RECORD - off
  {
    hide U32;
    p := off;
    if off < LABEL_RECORD && PassedOver(U32(rec, off)) {
      p := LabelFromMeans(rec, off + 4);
    }
  }

  function LabelOf(rec: bytes): Option<u32>
    requires |rec| == LABEL_RECORD
  {
    if IsLabel(LriOf(rec)) then LabelFrom(rec, 8) else None
  }

  /** The slots of a label record begin at its ninth byte, and there are three kinds of it. */
  lemma LabelOfMeans(rec: bytes) returns (p: nat)
    requires |rec| == 40
    ensures 8 <= p <= 40 && p % 4 == 0
    ensures forall q :: 8 <= q < p && q % 4 == 0 ==> PassedOver(U32(rec, q))
    ensures p < 40 ==> !PassedOver(U32(rec, p))
    ensures var kind, tag := LriOf(rec), if p < 40 then U32(rec, p) & 0x00FF_FFFF else 0x00FF_FFFE;
      LabelOf(rec) == if kind != 0x0082_1E00 && kind != 0x0082_1F00 && kind != 0x0082_2000 then None
                      else if tag == 0x00FF_FFFE then None else Some(tag)
  {
    hide U32, LriOf, LabelFrom, PassedOver;
    p := LabelFromMeans(rec, 8);
  }

  /** The first label any forty-byte record selects. */
  function LabelIn(region: bytes): Option<u32> {
    if |region| < LABEL_RECORD then None
    else
      match LabelOf(region[..LABEL_RECORD])
      case Some(t) => Some(t)
      case None => LabelIn(region[LABEL_RECORD..])
  }

  method ScanLabels(rec: bytes) returns (out: Option<u32>)
    requires |rec| == LABEL_RECORD
    ensures out == LabelFrom(rec, 8)
  {
    hide U32, Tag;
    var off := 8;
    while off < LABEL_RECORD
      invariant 8 <= off <= LABEL_RECORD && off % 4 == 0
      invariant LabelFrom(rec, 8) == LabelFrom(rec, off)
    {
      var attr := U32(rec, off);
      var tag := Tag(attr);
      if tag == END_OF_LABELS {
        return None;
      }
      if attr >> 24 == 1 {
        return Some(tag);
      }
      off := off + 4;
    }
    out := None;
  }

  method ParseTypeLabelRaw(body: bytes) returns (out: Option<u32>)
    ensures out == LabelIn(RecordsRegion(body))
  {
    hide U32, LabelFrom, LriOf;
    var region := RecordsRegion(body);
    var i := 0;
    assert region[0..] == region;
    while i + LABEL_RECORD <= |region|
      invariant i <= |region|
      invariant LabelIn(region) == LabelIn(region[i..])
    {
      var rec := region[i..i + LABEL_RECORD];
      assert region[i..][..LABEL_RECORD] == rec && region[i..][LABEL_RECORD..] == region[i + LABEL_RECORD..];
      if IsLabel(LriOf(rec)) {
        var found := ScanLabels(rec);
        if found.Some? {
          return found;
        }
      }
      i := i + LABEL_RECORD;
    }
    out := None;
  }

  /** Where the label comes from: the first forty-byte record, counted from the start of the
      region, that is a label record with a selected tag before its end mark. */
  lemma {:induction false} LabelInMeans(region: bytes) returns (k: nat)
    ensures 40 * k <= |region|
    ensures forall j :: 0 <= j < k ==> LabelOf(region[40 * j..40 * (j + 1)]).None?
    ensures LabelIn(region).Some? ==>
      40 * (k + 1) <= |region| && LabelIn(region) == LabelOf(region[40 * k..40 * (k + 1)])
    ensures LabelIn(region).None? ==> |region| - 40 * k < 40
  {
    hide LabelOf;
    k := 0;
    if |region| >= 40 && LabelOf(region[..40]).None? {
      var rest := region[40..];
      var more := LabelInMeans(rest);
      k := more + 1;
      forall j | 0 < j < k ensures LabelOf(region[40 * j..40 * (j + 1)]).None? {
        SliceOfRest(region, 40, 40 * (j - 1), 40 * j);
      }
      if LabelIn(region).Some? {
        SliceOfRest(region, 40, 40 * more, 40 * (more + 1));
      }
    }
  }
}
