/** The event-log records of a reply body. */
module EventLog {
  import opened Bytes

  const PREFIX: nat := 12
  const RECORD: nat := 24

  datatype EventRecord = EventRecord(
    entryId: u32, timestamp: u32, eventCode: u32, deviceId: u32, param1: u32, param2: u32)

  /** A record that only fills up the reply. */
  predicate IsPadding(e: EventRecord) {
    e.entryId == 0 && e.eventCode == 0 && e.timestamp == 0
  }

  function RecordAt(s: bytes): EventRecord
    requires |s| >= RECORD
  {
    EventRecord(U32(s, 0), U32(s, 4), U32(s, 8), U32(s, 12), U32(s, 16), U32(s, 20))
  }

  /** The records up to the first padding record or cut-off one. */
  function EventsIn(payload: bytes): seq<EventRecord> {
    if |payload| < RECORD || IsPadding(RecordAt(payload)) then []
    else [RecordAt(payload)] + EventsIn(payload[RECORD..])
  }

  /** What follows the echoed prefix. */
  function Payload(body: bytes): bytes {
    if |body| < PREFIX then [] else body[PREFIX..]
  }

  /** The records of a body. */
  function EventsOf(body: bytes): seq<EventRecord> {
    EventsIn(Payload(body))
  }

  method ParseEventLogRecords(body: bytes) returns (out: seq<EventRecord>)
    ensures out == EventsOf(body)
  {
    hide RecordAt, IsPadding;
    out := [];
    if |body| < PREFIX {
      return;
    }
    var payload := body[PREFIX..];
    var off := 0;
    assert payload[0..] == payload;
    while off + RECORD <= |payload|
      invariant off <= |payload|
      invariant EventsIn(payload) == out + EventsIn(payload[off..])
    {
      var rec := payload[off..off + RECORD];
      SameRecord(payload[off..], rec);
      var e := RecordAt(rec);
      if IsPadding(e) {
        break;
      }
      assert payload[off..][RECORD..] == payload[off + RECORD..];
      TakeOne(out, payload[off..]);
      out := out + [e];
      off := off + RECORD;
    }
  }

  lemma SameRecord(s: bytes, rec: bytes)
    requires |s| >= RECORD && rec == s[..RECORD]
    ensures RecordAt(s) == RecordAt(rec)
  {
    hide Join32;
  }

  lemma TakeOne(out: seq<EventRecord>, s: bytes)
    requires |s| >= RECORD && !IsPadding(RecordAt(s))
    ensures out + EventsIn(s) == out + [RecordAt(s)] + EventsIn(s[RECORD..])
  {
    hide RecordAt, IsPadding;
  }

  // ---------------------------------------------------------------- serialisation

  function EventHead(e: EventRecord): (r: bytes)
    ensures |r| == 12
  {
    Le32(e.entryId) + Le32(e.timestamp) + Le32(e.eventCode)
  }

  function EventTail(e: EventRecord): (r: bytes)
    ensures |r| == 12
  {
    Le32(e.deviceId) + Le32(e.param1) + Le32(e.param2)
  }

  function EventBytes(e: EventRecord): (r: bytes)
    ensures |r| == RECORD
  {
    EventHead(e) + EventTail(e)
  }

  function Serialised(es: seq<EventRecord>): bytes {
    if es == [] then [] else EventBytes(es[0]) + Serialised(es[1..])
  }

  lemma EventLayout(e: EventRecord)
    ensures var h, t := EventHead(e), EventTail(e);
      && h[0..4] == Le32(e.entryId) && h[4..8] == Le32(e.timestamp) && h[8..12] == Le32(e.eventCode)
      && t[0..4] == Le32(e.deviceId) && t[4..8] == Le32(e.param1) && t[8..12] == Le32(e.param2)
  {
    hide Le32;
  }

  lemma RecordOfBytes(e: EventRecord, more: bytes)
    ensures RecordAt(EventBytes(e) + more) == e
  {
    hide Le32, U32, EventHead, EventTail;
    var s, head, tail := EventBytes(e) + more, EventHead(e), EventTail(e);
    EventLayout(e);
    assert s[0..12] == head && s[12..24] == tail;
    assert s[0..4] == head[0..4] && s[4..8] == head[4..8] && s[8..12] == head[8..12];
    assert s[12..16] == tail[0..4] && s[16..20] == tail[4..8] && s[20..24] == tail[8..12];
    U32OfLe32(s, 0, e.entryId);
    U32OfLe32(s, 4, e.timestamp);
    U32OfLe32(s, 8, e.eventCode);
    U32OfLe32(s, 12, e.deviceId);
    U32OfLe32(s, 16, e.param1);
    U32OfLe32(s, 20, e.param2);
  }

  lemma OneEvent(e: EventRecord, more: bytes)
    requires !IsPadding(e)
    ensures EventsIn(EventBytes(e) + more) == [e] + EventsIn(more)
  {
    hide EventBytes, RecordAt, IsPadding;
    RecordOfBytes(e, more);
    assert (EventBytes(e) + more)[RECORD..] == more;
  }

  /** Records that are not padding come back in order, followed by whatever the rest holds. */
  lemma {:induction false} EventsAppend(es: seq<EventRecord>, rest: bytes)
    requires forall e :: e in es ==> !IsPadding(e)
    ensures EventsIn(Serialised(es) + rest) == es + EventsIn(rest)
  {
    hide EventBytes, IsPadding, EventsIn;
    if es == [] {
      assert Serialised(es) + rest == rest;
    } else {
      var more := Serialised(es[1..]) + rest;
      assert Serialised(es) + rest == EventBytes(es[0]) + more;
      OneEvent(es[0], more);
      EventsAppend(es[1..], rest);
      assert [es[0]] + (es[1..] + EventsIn(rest)) == es + EventsIn(rest);
    }
  }

  /** Parsing inverts serialising exactly when the tail is too short for a record or starts with
      padding. */
  lemma EventsRoundTripIff(es: seq<EventRecord>, tail: bytes)
    requires forall e :: e in es ==> !IsPadding(e)
    ensures EventsIn(Serialised(es) + tail) == es <==> |tail| < RECORD || IsPadding(RecordAt(tail))
  {
    hide EventBytes, RecordAt, IsPadding, Serialised;
    EventsAppend(es, tail);
    if |tail| >= RECORD && !IsPadding(RecordAt(tail)) {
      assert |es + EventsIn(tail)| > |es|;
    }
  }

  /** The record at a place of a body, word by word, if there is one that is not padding. */
  function EventAt(body: bytes, i: nat): Option<EventRecord> {
    if i + 24 > |body| then None
    else if U32(body, i) == 0 && U32(body, i + 4) == 0 && U32(body, i + 8) == 0 then None
    else Some(EventRecord(
      entryId := U32(body, i), timestamp := U32(body, i + 4), eventCode := U32(body, i + 8),
      deviceId := U32(body, i + 12), param1 := U32(body, i + 16), param2 := U32(body, i + 20)))
  }

  /** The records of a body, by position: every 24 bytes after the first twelve, up to the first
      place where there is none. */
  lemma EventsByPlace(body: bytes)
    ensures var es := EventsOf(body);
      && (forall k :: 0 <= k < |es| ==> EventAt(body, 12 + 24 * k) == Some(es[k]))
      && EventAt(body, 12 + 24 * |es|) == None
  {
    hide EventsIn, EventAt;
    if |body| >= 12 {
      EventsFrom(body, 12);
    } else {
      NoEvents(body);
    }
  }

  lemma NoEvents(body: bytes)
    requires |body| < 12
    ensures EventsOf(body) == [] && EventAt(body, 12) == None
  {
  }

  lemma {:induction false} EventsFrom(body: bytes, i: nat)
    requires i <= |body|
    ensures var es := EventsIn(body[i..]);
      && (forall k :: 0 <= k < |es| ==> EventAt(body, i + 24 * k) == Some(es[k]))
      && EventAt(body, i + 24 * |es|) == None
    decreases |body| - i
  {
    hide EventAt, EventsIn;
    OneEventAt(body, i);
    if EventAt(body, i).Some? {
      EventsFrom(body, i + 24);
      var es, more := EventsIn(body[i..]), EventsIn(body[i + 24..]);
      forall k | 0 < k < |es| ensures EventAt(body, i + 24 * k) == Some(es[k]) {
        assert i + 24 * k == i + 24 + 24 * (k - 1) && es[k] == more[k - 1];
      }
      assert i + 24 * |es| == i + 24 + 24 * |more|;
    }
  }

  lemma OneEventAt(body: bytes, i: nat)
    requires i <= |body|
    ensures EventAt(body, i).Some? ==>
      i + 24 <= |body| && EventsIn(body[i..]) == [EventAt(body, i).value] + EventsIn(body[i + 24..])
    ensures EventAt(body, i).None? ==> EventsIn(body[i..]) == []
  {
    hide Join32;
    if i + 24 <= |body| {
      assert body[i..][24..] == body[i + 24..];
    }
  }

  // ---------------------------------------------------------------- joined fragments

  const BLANK: bytes := [0, 0, 0, 0, 0, 0, 0, 0, 0, 0, 0, 0]

  lemma ZeroWord(a: byte, b: byte, c: byte, d: byte)
    ensures Join32(a, b, c, d) == 0 <==> a == 0 && b == 0 && c == 0 && d == 0
  {
  }

  /** A record is padding exactly when its first twelve bytes are zero. */
  lemma PaddingIsBlank(s: bytes)
    requires |s| >= RECORD
    ensures IsPadding(RecordAt(s)) <==> s[..PREFIX] == BLANK
  {
    hide Join32;
    ZeroWord(s[0], s[1], s[2], s[3]);
    ZeroWord(s[4], s[5], s[6], s[7]);
    ZeroWord(s[8], s[9], s[10], s[11]);
    var head := s[..PREFIX];
    assert forall k :: 0 <= k < PREFIX ==> head[k] == s[k];
    assert forall k :: 0 <= k < PREFIX ==> BLANK[k] == 0;
    if head == BLANK {
      assert head[0] == 0 && head[1] == 0 && head[2] == 0 && head[3] == 0;
      assert head[4] == 0 && head[5] == 0 && head[6] == 0 && head[7] == 0;
      assert head[8] == 0 && head[9] == 0 && head[10] == 0 && head[11] == 0;
    }
  }

  lemma BytesOfRecord(s: bytes)
    requires |s| >= RECORD
    ensures EventBytes(RecordAt(s)) == s[..RECORD]
  {
    hide Le32, U32;
    HalfOfRecord(s, 0);
    HalfOfRecord(s, PREFIX);
    assert s[..RECORD] == s[0..PREFIX] + s[PREFIX..RECORD];
  }

  lemma HalfOfRecord(s: bytes, i: nat)
    requires i + PREFIX <= |s|
    ensures Le32(U32(s, i)) + Le32(U32(s, i + 4)) + Le32(U32(s, i + 8)) == s[i..i + PREFIX]
  {
    hide Le32, U32;
    Le32OfU32(s, i);
    Le32OfU32(s, i + 4);
    Le32OfU32(s, i + 8);
    assert s[i..i + PREFIX] == s[i..i + 4] + s[i + 4..i + 8] + s[i + 8..i + 12];
  }

  /** A record is read off two halves exactly when they are its own. */
  lemma HalvesTellRecord(a: bytes, b: bytes, more: bytes, e: EventRecord)
    requires |a| == PREFIX && |b| == PREFIX
    ensures RecordAt(a + b + more) == e <==> a == EventHead(e) && b == EventTail(e)
  {
    hide EventHead, EventTail, RecordAt;
    var s := a + b + more;
    BytesOfRecord(s);
    RecordOfBytes(e, more);
    assert s[..RECORD] == a + b;
    assert (a + b)[..PREFIX] == a && (a + b)[PREFIX..] == b;
    var h, t := EventHead(e), EventTail(e);
    assert (h + t)[..PREFIX] == h && (h + t)[PREFIX..] == t;
  }

  predicate AllHalves(es: seq<EventRecord>, half: bytes) {
    forall e :: e in es ==> EventHead(e) == half && EventTail(e) == half
  }

  /** Half a record in front of some records shifts every one of them. */
  lemma {:induction false} ShiftedIff(half: bytes, es: seq<EventRecord>, last: bytes)
    requires |half| == PREFIX && |last| <= PREFIX && forall e :: e in es ==> !IsPadding(e)
    ensures EventsIn(half + Serialised(es) + last) == es
       <==> AllHalves(es, half) && (|last| < PREFIX || half == BLANK)
    decreases |es|
  {
    hide IsPadding, RecordAt, EventHead, EventTail;
    var s := half + Serialised(es) + last;
    if es == [] {
      assert s == half + last && s[..PREFIX] == half;
      if |last| == PREFIX {
        PaddingIsBlank(s);
      }
    } else {
      var e, more := es[0], es[1..];
      var h, t := EventHead(e), EventTail(e);
      var rest := t + Serialised(more) + last;
      assert Serialised(es) == h + t + Serialised(more);
      assert s == half + h + rest;
      assert s[RECORD..] == rest;
      HalvesTellRecord(half, h, rest, e);
      ShiftedIff(t, more, last);
      assert es == [e] + more;
      if EventsIn(s) == es {
        assert EventsIn(s)[0] == RecordAt(s) && EventsIn(s)[1..] == EventsIn(rest);
      }
      assert AllHalves(es, half) <==> h == half && t == half && AllHalves(more, half);
    }
  }

  /** What is read is there, back to back, and holds no padding. */
  lemma {:induction false} EventsAreThere(s: bytes)
    ensures Serialised(EventsIn(s)) <= s
    ensures forall e :: e in EventsIn(s) ==> !IsPadding(e)
  {
    hide EventBytes, RecordAt, IsPadding;
    if |s| >= RECORD && !IsPadding(RecordAt(s)) {
      var rest := s[RECORD..];
      EventsAreThere(rest);
      BytesOfRecord(s);
      assert EventsIn(s) == [RecordAt(s)] + EventsIn(rest);
      assert EventsIn(s)[1..] == EventsIn(rest);
      assert Serialised(EventsIn(s)) == s[..RECORD] + Serialised(EventsIn(rest));
      assert s == s[..RECORD] + rest;
    }
  }

  /** Exactly when some records are what is read: their bytes are there, back to back, and what
      follows is too short for another or starts with a blank half. */
  lemma EventsReadIff(s: bytes, es: seq<EventRecord>)
    requires forall e :: e in es ==> !IsPadding(e)
    ensures EventsIn(s) == es <==> LeadWith(s, Serialised(es))
  {
    hide EventBytes, RecordAt, IsPadding, Serialised, EventsIn;
    EventsAreThere(s);
    var n := |Serialised(es)|;
    if Serialised(es) <= s {
      var tail := s[n..];
      assert s == Serialised(es) + tail;
      EventsRoundTripIff(es, tail);
      if |tail| >= RECORD {
        PaddingIsBlank(tail);
        assert tail[..PREFIX] == s[n..n + PREFIX];
      }
    }
  }

  /** The given bytes come first, and what follows holds no further record. */
  predicate LeadWith(s: bytes, first: bytes) {
    && first <= s
    && (|s| < |first| + RECORD || s[|first|..|first| + PREFIX] == BLANK)
  }

  /** The records of each body, one after the other. */
  function AllEvents(bodies: seq<bytes>): seq<EventRecord> {
    if bodies == [] then [] else EventsOf(bodies[0]) + AllEvents(bodies[1..])
  }

  lemma {:induction false} NoPaddingAmong(bodies: seq<bytes>)
    ensures forall e :: e in AllEvents(bodies) ==> !IsPadding(e)
  {
    hide IsPadding, EventsIn;
    if bodies != [] {
      EventsAreThere(Payload(bodies[0]));
      NoPaddingAmong(bodies[1..]);
    }
  }

  /** Joined bodies keep their prefixes, and all but the first are read as record data. For any
      bodies whatever, parsing them joined gives what parsing each gives exactly when the joined
      payload leads with the records of all of them, with no prefix in between. */
  lemma JoinedBodiesIff(bodies: seq<bytes>)
    ensures EventsOf(Flatten(bodies)) == AllEvents(bodies)
       <==> LeadWith(Payload(Flatten(bodies)), Serialised(AllEvents(bodies)))
  {
    hide IsPadding, EventsIn, Serialised, AllEvents, LeadWith;
    NoPaddingAmong(bodies);
    EventsReadIff(Payload(Flatten(bodies)), AllEvents(bodies));
  }

  /** A fragment: a prefix and its records. */
  datatype Fragment = Fragment(prefix: Half, records: seq<EventRecord>)

  type Half = h: bytes | |h| == PREFIX witness [0, 0, 0, 0, 0, 0, 0, 0, 0, 0, 0, 0]

  function BodyOf(f: Fragment): bytes {
    f.prefix + Serialised(f.records)
  }

  function BodiesOf(fs: seq<Fragment>): seq<bytes> {
    seq(|fs|, k requires 0 <= k < |fs| => BodyOf(fs[k]))
  }

  function RecordsOf(fs: seq<Fragment>): seq<EventRecord> {
    if fs == [] then [] else fs[0].records + RecordsOf(fs[1..])
  }

  lemma BodyParses(f: Fragment)
    requires forall e :: e in f.records ==> !IsPadding(e)
    ensures EventsOf(BodyOf(f)) == f.records
  {
    hide IsPadding, Serialised;
    EventsAppend(f.records, []);
    assert Payload(BodyOf(f)) == Serialised(f.records) + [];
    assert f.records + [] == f.records;
  }

  lemma {:induction false} FragmentsParse(fs: seq<Fragment>, last: bytes)
    requires |last| <= PREFIX && forall e :: e in RecordsOf(fs) ==> !IsPadding(e)
    ensures AllEvents(BodiesOf(fs) + [last]) == RecordsOf(fs)
    ensures |Flatten(BodiesOf(fs) + [last])| == PREFIX * |fs| + |Serialised(RecordsOf(fs))| + |last|
  {
    hide IsPadding, Serialised, EventsIn, BodyOf;
    var bodies := BodiesOf(fs) + [last];
    if fs == [] {
      assert bodies == [last] && bodies[1..] == [];
      assert EventsOf(last) == [] by { TooShortForEvents(Payload(last)); }
      NothingSerialised();
    } else {
      assert bodies[0] == BodyOf(fs[0]) && bodies[1..] == BodiesOf(fs[1..]) + [last];
      assert forall e :: e in fs[0].records || e in RecordsOf(fs[1..]) ==> e in RecordsOf(fs);
      BodyParses(fs[0]);
      FragmentsParse(fs[1..], last);
      SerialisedConcat(fs[0].records, RecordsOf(fs[1..]));
      BodyLength(fs[0]);
    }
  }

  lemma NothingSerialised()
    ensures Serialised([]) == []
  {
  }

  lemma BodyLength(f: Fragment)
    ensures |BodyOf(f)| == PREFIX + |Serialised(f.records)|
  {
    hide Serialised;
  }

  lemma {:induction false} SerialisedConcat(a: seq<EventRecord>, b: seq<EventRecord>)
    ensures Serialised(a + b) == Serialised(a) + Serialised(b)
  {
    hide EventBytes;
    if a == [] {
      assert a + b == b;
    } else {
      assert (a + b)[1..] == a[1..] + b;
      SerialisedConcat(a[1..], b);
    }
  }

  /** The same for any number of fragments and a last short one, as a session joins them: their
      records come back exactly when they are there without the prefixes, and the prefixes
      after the first and the short one leave too little for a record, or the half after the
      records is blank. */
  lemma JoinedFragmentsIff(fs: seq<Fragment>, last: bytes)
    requires fs != [] && |last| <= PREFIX && forall e :: e in RecordsOf(fs) ==> !IsPadding(e)
    ensures var payload, sent := Payload(Flatten(BodiesOf(fs) + [last])), Serialised(RecordsOf(fs));
      && |payload| == |sent| + PREFIX * (|fs| - 1) + |last|
      && (EventsIn(payload) == RecordsOf(fs) <==>
            && sent <= payload
            && (PREFIX * (|fs| - 1) + |last| < RECORD || payload[|sent|..|sent| + PREFIX] == BLANK))
  {
    hide IsPadding, Serialised, EventsIn, AllEvents, BodiesOf, RecordsOf;
    FragmentsParse(fs, last);
    JoinedBodiesIff(BodiesOf(fs) + [last]);
  }

  // ---------------------------------------------------------------- what the fragments must hold

  function HalvesOf(es: seq<EventRecord>): seq<Half> {
    if es == [] then [] else [EventHead(es[0]), EventTail(es[0])] + HalvesOf(es[1..])
  }

  /** Each half is the front of the queue when its turn comes; the front then moves to the back.
      With nothing in the queue every half fits. */
  predicate Fits(queue: seq<Half>, halves: seq<Half>)
    decreases |halves|
  {
    halves == [] || ((queue + [halves[0]])[0] == halves[0] && Fits((queue + [halves[0]])[1..], halves[1..]))
  }

  function Turned(queue: seq<Half>, halves: seq<Half>): (q: seq<Half>)
    ensures |q| == |queue|
    decreases |halves|
  {
    if halves == [] then queue else Turned((queue + [halves[0]])[1..], halves[1..])
  }

  /** The same over some fragments, each of which puts its prefix at the back first. */
  predicate AllFit(queue: seq<Half>, fs: seq<Fragment>)
    decreases |fs|
  {
    fs == [] ||
    (var q, halves := queue + [fs[0].prefix], HalvesOf(fs[0].records);
     Fits(q, halves) && AllFit(Turned(q, halves), fs[1..]))
  }

  /** What is in the queue at the end. */
  function LeftOver(queue: seq<Half>, fs: seq<Fragment>): (q: seq<Half>)
    ensures |q| == |queue| + |fs|
    decreases |fs|
  {
    if fs == [] then queue
    else LeftOver(Turned(queue + [fs[0].prefix], HalvesOf(fs[0].records)), fs[1..])
  }

  lemma FlattenFirst(h: bytes, parts: seq<bytes>)
    ensures Flatten([h] + parts) == h + Flatten(parts)
  {
    assert ([h] + parts)[1..] == parts;
  }

  lemma {:induction false} HalvesMakeRecords(es: seq<EventRecord>)
    ensures Flatten(HalvesOf(es)) == Serialised(es)
  {
    hide EventHead, EventTail, Flatten;
    if es == [] {
      assert Flatten([]) == [] by { FlattenNothing(); }
    } else {
      var h, t := EventHead(es[0]), EventTail(es[0]);
      HalvesMakeRecords(es[1..]);
      FlattenConcat([h, t], HalvesOf(es[1..]));
      assert [h, t] == [h] + [t];
      FlattenFirst(h, [t]);
      FlattenOne(t);
    }
  }

  lemma FlattenNothing()
    ensures Flatten([]) == []
  {
  }

  /** One half taken off both sides. */
  lemma HalfOff(queue: seq<Half>, h: Half, rest: bytes, want: bytes)
    ensures h + want <= Flatten(queue) + h + rest
       <==> (queue + [h])[0] == h && want <= Flatten((queue + [h])[1..]) + rest
    ensures (queue + [h])[0] == h ==> Flatten(queue) + h == h + Flatten((queue + [h])[1..])
  {
    hide Flatten;
    var q := queue + [h];
    FlattenConcat(queue, [h]);
    FlattenOne(h);
    assert q == [q[0]] + q[1..];
    FlattenFirst(q[0], q[1..]);
    var all := Flatten(queue) + h + rest;
    assert all == q[0] + (Flatten(q[1..]) + rest);
    assert all[..PREFIX] == q[0] && all[PREFIX..] == Flatten(q[1..]) + rest;
    assert (h + want)[..PREFIX] == h && (h + want)[PREFIX..] == want;
    if h + want <= all {
      assert all[..|h + want|] == h + want;
      assert all[..PREFIX] == (h + want)[..PREFIX];
      assert all[PREFIX..][..|want|] == all[PREFIX..|h + want|] == want;
    }
  }

  lemma {:induction false} FitsIff(queue: seq<Half>, halves: seq<Half>, rest: bytes, want: bytes)
    ensures Flatten(halves) + want <= Flatten(queue) + Flatten(halves) + rest
       <==> Fits(queue, halves) && want <= Flatten(Turned(queue, halves)) + rest
    ensures Fits(queue, halves) ==>
      Flatten(queue) + Flatten(halves) == Flatten(halves) + Flatten(Turned(queue, halves))
    decreases |halves|
  {
    hide Flatten;
    if halves == [] {
      FlattenNothing();
      assert [] + want == want && Flatten(queue) + [] + rest == Flatten(queue) + rest;
      assert Flatten(queue) + [] == [] + Flatten(queue);
    } else {
      var h, more := halves[0], halves[1..];
      var next := (queue + [h])[1..];
      assert halves == [h] + more;
      FlattenFirst(h, more);
      FitsIff(next, more, rest, want);
      HalfOff(queue, h, Flatten(more) + rest, Flatten(more) + want);
      Associates(h, Flatten(more), want);
      Associates(Flatten(queue) + h, Flatten(more), rest);
      Associates(Flatten(next), Flatten(more), rest);
      Associates(Flatten(queue), h, Flatten(more));
      Associates(h, Flatten(next), Flatten(more));
      Associates(h, Flatten(more), Flatten(Turned(next, more)));
    }
  }

  lemma Associates(a: bytes, b: bytes, c: bytes)
    ensures (a + b) + c == a + (b + c)
  {
  }

  lemma Regrouped(a: bytes, b: bytes, c: bytes, d: bytes, e: bytes)
    ensures a + (b + c + d) + e == (a + b) + c + (d + e)
    ensures a + (b + c + d) == (a + b) + c + d
  {
  }

  lemma {:induction false} AllFitIff(queue: seq<Half>, fs: seq<Fragment>, last: bytes)
    ensures Serialised(RecordsOf(fs)) <= Flatten(queue) + Flatten(BodiesOf(fs)) + last <==> AllFit(queue, fs)
    ensures AllFit(queue, fs) ==>
      Flatten(queue) + Flatten(BodiesOf(fs)) == Serialised(RecordsOf(fs)) + Flatten(LeftOver(queue, fs))
    decreases |fs|
  {
    hide Flatten, Serialised, HalvesOf, Fits, Turned;
    if fs == [] {
      NothingSerialised();
      FlattenNothing();
      assert BodiesOf(fs) == [];
      assert Flatten(queue) + [] == [] + Flatten(queue);
    } else {
      var f, more := fs[0], fs[1..];
      var q, halves := queue + [f.prefix], HalvesOf(f.records);
      var turned, rest, sent := Turned(q, halves), Flatten(BodiesOf(more)), Serialised(f.records);
      HalvesMakeRecords(f.records);
      SerialisedConcat(f.records, RecordsOf(more));
      FlattenConcat(queue, [f.prefix]);
      FlattenOne(f.prefix);
      assert BodiesOf(fs) == [BodyOf(f)] + BodiesOf(more);
      FlattenFirst(BodyOf(f), BodiesOf(more));
      FitsIff(q, halves, rest + last, Serialised(RecordsOf(more)));
      AllFitIff(turned, more, last);
      Regrouped(Flatten(queue), f.prefix, sent, rest, last);
      Associates(Flatten(turned), rest, last);
      Associates(sent, Flatten(turned), rest);
      Associates(sent, Serialised(RecordsOf(more)), Flatten(LeftOver(turned, more)));
    }
  }

  lemma AfterPrefix(prefix: Half, a: bytes, b: bytes, c: bytes)
    ensures Payload((prefix + a + b) + c) == a + (b + c)
  {
    assert (prefix + a + b) + c == prefix + (a + (b + c));
  }

  lemma FragmentsLaidOut(fs: seq<Fragment>, last: bytes)
    requires fs != []
    ensures Payload(Flatten(BodiesOf(fs) + [last]))
            == Serialised(fs[0].records) + (Flatten(BodiesOf(fs[1..])) + last)
    ensures Serialised(RecordsOf(fs)) == Serialised(fs[0].records) + Serialised(RecordsOf(fs[1..]))
  {
    hide Serialised, Flatten, Payload;
    var f, more := fs[0], fs[1..];
    assert BodiesOf(fs) == [BodyOf(f)] + BodiesOf(more);
    FlattenConcat(BodiesOf(fs), [last]);
    FlattenOne(last);
    FlattenFirst(BodyOf(f), BodiesOf(more));
    SerialisedConcat(f.records, RecordsOf(more));
    AfterPrefix(f.prefix, Serialised(f.records), Flatten(BodiesOf(more)), last);
  }

  /** If all fit, the records come first and the front of the queue next. */
  lemma FrontIsNext(fs: seq<Fragment>, last: bytes)
    requires |fs| > 1 && AllFit([], fs[1..])
    ensures var payload, n := Payload(Flatten(BodiesOf(fs) + [last])), |Serialised(RecordsOf(fs))|;
      n + PREFIX <= |payload| && payload[n..n + PREFIX] == LeftOver([], fs[1..])[0]
  {
    hide Serialised, Flatten, AllFit, LeftOver, BodiesOf, RecordsOf, Payload;
    var more := fs[1..];
    var first, sent, left := Serialised(fs[0].records), Serialised(RecordsOf(more)), LeftOver([], more);
    FragmentsLaidOut(fs, last);
    NothingBefore(Flatten(BodiesOf(more)));
    AllFitIff([], more, last);
    assert left == [left[0]] + left[1..];
    FlattenFirst(left[0], left[1..]);
    Behind(first, sent, left[0], Flatten(left[1..]), last);
  }

  lemma NothingBefore(s: bytes)
    ensures Flatten([]) + s == s
  {
  }

  lemma Behind(a: bytes, b: bytes, half: Half, rest: bytes, last: bytes)
    ensures var all := a + ((b + (half + rest)) + last);
      |a + b| + PREFIX <= |all| && all[|a + b|..|a + b| + PREFIX] == half
  {
    assert a + ((b + (half + rest)) + last) == (a + b) + (half + (rest + last));
  }

  /** What the fragments themselves must hold for their records to come back joined: with the
      prefixes of all but the first in a queue, each record half after the first fragment is the
      front of the queue, which then moves to the back; and there is one fragment only, or two
      and a last one shorter than a prefix, or the front of the queue is blank at the end. */
  lemma FragmentsReturnIff(fs: seq<Fragment>, last: bytes)
    requires fs != [] && |last| <= PREFIX && forall e :: e in RecordsOf(fs) ==> !IsPadding(e)
    ensures EventsOf(Flatten(BodiesOf(fs) + [last])) == AllEvents(BodiesOf(fs) + [last])
       <==> && AllFit([], fs[1..])
            && (|fs| == 1 || (|fs| == 2 && |last| < PREFIX) || LeftOver([], fs[1..])[0] == BLANK)
  {
    hide IsPadding, Serialised, EventsIn, AllEvents, Flatten, AllFit, LeftOver, BodiesOf, RecordsOf, Payload;
    var more := fs[1..];
    FragmentsParse(fs, last);
    JoinedFragmentsIff(fs, last);
    FragmentsLaidOut(fs, last);
    NothingBefore(Flatten(BodiesOf(more)));
    AllFitIff([], more, last);
    PrefixBehind(Serialised(fs[0].records), Serialised(RecordsOf(more)), Flatten(BodiesOf(more)) + last);
    if AllFit([], more) && |fs| > 1 {
      FrontIsNext(fs, last);
    }
  }

  lemma PrefixBehind(a: bytes, b: bytes, c: bytes)
    ensures a + b <= a + c <==> b <= c
  {
    assert (a + b)[|a|..] == b && (a + c)[|a|..] == c;
    if a + b <= a + c {
      assert (a + c)[..|a + b|] == a + b;
      assert (a + c)[|a|..][..|b|] == (a + c)[..|a + b|][|a|..];
    }
  }

  lemma {:induction false} LastHeadIsNotBlank(es: seq<EventRecord>, e: EventRecord)
    requires !IsPadding(e)
    ensures |Serialised(es + [e])| >= RECORD
    ensures var s := Serialised(es + [e]); s[|s| - RECORD..|s| - PREFIX] == EventHead(e) != BLANK
  {
    hide IsPadding, EventHead, EventTail, Serialised;
    SerialisedConcat(es, [e]);
    assert Serialised([e]) == EventHead(e) + EventTail(e) by { OneSerialised(e); }
    HeadIsNotBlank(e);
  }

  lemma OneSerialised(e: EventRecord)
    ensures Serialised([e]) == EventHead(e) + EventTail(e)
  {
    hide EventHead, EventTail;
    assert [e][1..] == [];
  }

  /** Three fragments whose third has records never come back joined. */
  lemma ThreeNeverReturn(f: Fragment, g: Fragment, h: Fragment, last: bytes)
    requires h.records != [] && |last| <= PREFIX && forall e :: e in RecordsOf([f, g, h]) ==> !IsPadding(e)
    ensures EventsOf(Flatten(BodiesOf([f, g, h]) + [last])) != AllEvents(BodiesOf([f, g, h]) + [last])
  {
    hide IsPadding, Serialised, EventsIn, AllEvents, EventHead;
    var fs := [f, g, h];
    var es, e := h.records[..|h.records| - 1], h.records[|h.records| - 1];
    assert h.records == es + [e];
    RecordsOfThree(f, g, h);
    assert e in RecordsOf(fs);
    LastHeadIsNotBlank(es, e);
    FragmentsParse(fs, last);
    JoinedFragmentsIff(fs, last);
    var payload := Payload(Flatten(BodiesOf(fs) + [last]));
    var sent, tail := Serialised(RecordsOf(fs)), Serialised(h.records);
    ThreeJoined(f, g, h, last);
    var front := BodyOf(f) + BodyOf(g) + h.prefix;
    assert payload == front[PREFIX..] + tail + last;
    assert payload[|payload| - |last| - |tail|..|payload| - |last|] == tail;
    assert payload[|sent|..|sent| + PREFIX] == tail[|tail| - RECORD..|tail| - PREFIX];
  }

  lemma RecordsOfThree(f: Fragment, g: Fragment, h: Fragment)
    ensures RecordsOf([f, g, h]) == f.records + g.records + h.records
  {
    assert [f, g, h][1..] == [g, h] && [g, h][1..] == [h] && [h][1..] == [];
    assert RecordsOf([h]) == h.records + [] == h.records;
    assert RecordsOf([g, h]) == g.records + RecordsOf([h]);
  }

  lemma ThreeJoined(f: Fragment, g: Fragment, h: Fragment, last: bytes)
    ensures Flatten(BodiesOf([f, g, h]) + [last])
            == (BodyOf(f) + BodyOf(g) + h.prefix) + Serialised(h.records) + last
  {
    hide Serialised;
    var x, y, z := BodyOf(f), BodyOf(g), BodyOf(h);
    assert BodiesOf([f, g, h]) + [last] == [x, y, z, last];
    assert [x, y, z, last][1..] == [y, z, last] && [y, z, last][1..] == [z, last];
    assert [z, last][1..] == [last] && [last][1..] == [];
    assert Flatten([last]) == last + [] == last;
    assert Flatten([z, last]) == z + Flatten([last]);
    assert Flatten([y, z, last]) == y + Flatten([z, last]);
    assert Flatten([x, y, z, last]) == x + Flatten([y, z, last]);
  }

  /** Four may: with records that are one half over and over, and a blank fourth prefix. */
  lemma FourMayReturn(prefix: Half)
    ensures var r, half := EventRecord(1, 1, 1, 1, 1, 1), Le32(1) + Le32(1) + Le32(1);
      var fs := [Fragment(prefix, [r]), Fragment(half, [r]), Fragment(half, [r]), Fragment(BLANK, [r])];
      EventsOf(Flatten(BodiesOf(fs) + [[]])) == [r, r, r, r]
  {
    hide IsPadding, Serialised, EventsIn, EventHead, EventTail, Le32, Flatten, BodiesOf, RecordsOf, EventBytes;
    var r, half := EventRecord(1, 1, 1, 1, 1, 1), Le32(1) + Le32(1) + Le32(1);
    var a, b, c, d := Fragment(prefix, [r]), Fragment(half, [r]), Fragment(half, [r]), Fragment(BLANK, [r]);
    var fs := [a, b, c, d];
    HalvesShift(r, r);
    OneSerialised(r);
    FourJoined(a, b, c, d);
    FourSerialised(r);
    JoinedFragmentsIff(fs, []);
    var payload, two := Payload(Flatten(BodiesOf(fs) + [[]])), half + half;
    assert BodyOf(a) == prefix + two && BodyOf(b) == BodyOf(c) == half + two && BodyOf(d) == BLANK + two;
    assert payload == two + (half + two) + (half + two) + (BLANK + two);
    HalvesRegrouped(half);
    assert payload[|two + two + two + two|..][..PREFIX] == BLANK;
  }

  lemma HalvesRegrouped(half: bytes)
    ensures var two := half + half;
      two + (half + two) + (half + two) + (BLANK + two) == (two + two + two + two) + (BLANK + two)
  {
  }

  lemma FourJoined(a: Fragment, b: Fragment, c: Fragment, d: Fragment)
    ensures Flatten(BodiesOf([a, b, c, d]) + [[]]) == BodyOf(a) + BodyOf(b) + BodyOf(c) + BodyOf(d)
    ensures RecordsOf([a, b, c, d]) == a.records + b.records + c.records + d.records
  {
    hide Serialised, BodyOf;
    var w, x, y, z := BodyOf(a), BodyOf(b), BodyOf(c), BodyOf(d);
    var none: bytes := [];
    assert BodiesOf([a, b, c, d]) + [none] == [w, x, y, z, none];
    assert [w, x, y, z, none][1..] == [x, y, z, none] && [x, y, z, none][1..] == [y, z, none];
    assert [y, z, none][1..] == [z, none] && [z, none][1..] == [none] && [none][1..] == [];
    assert Flatten([none]) == [];
    assert Flatten([z, none]) == z + Flatten([none]);
    assert z + none == z;
    assert Flatten([y, z, none]) == y + z && Flatten([x, y, z, none]) == x + (y + z);
    assert Flatten([w, x, y, z, none]) == w + (x + (y + z));
    RecordsOfThree(b, c, d);
    assert [a, b, c, d][1..] == [b, c, d];
  }

  lemma FourSerialised(r: EventRecord)
    ensures var s := Serialised([r]); Serialised([r] + [r] + [r] + [r]) == s + s + s + s
  {
    hide Serialised;
    SerialisedConcat([r], [r]);
    SerialisedConcat([r] + [r], [r]);
    SerialisedConcat([r] + [r] + [r], [r]);
  }

  /** Two fragments come back, with a last short one after them, exactly when every record of
      the second is its prefix twice over, and the short one is shorter than a prefix or follows
      a blank prefix. In particular a second fragment with records never survives a last
      fragment of twelve bytes. */
  lemma JoinedParsesIff(prefix: bytes, es: seq<EventRecord>, prefix2: bytes, fs: seq<EventRecord>, last: bytes)
    requires |prefix| == PREFIX && |prefix2| == PREFIX && |last| <= PREFIX
    requires forall e :: e in es + fs ==> !IsPadding(e)
    ensures var joined := (prefix + Serialised(es)) + (prefix2 + Serialised(fs)) + last;
      EventsIn(joined[PREFIX..]) == es + fs <==> AllHalves(fs, prefix2) && (|last| < PREFIX || prefix2 == BLANK)
    ensures fs != [] && AllHalves(fs, prefix2) ==> prefix2 != BLANK
  {
    hide IsPadding, RecordAt, EventHead, EventTail, Serialised, EventsIn, AllHalves;
    var rest := prefix2 + Serialised(fs) + last;
    var joined := (prefix + Serialised(es)) + (prefix2 + Serialised(fs)) + last;
    assert joined[PREFIX..] == Serialised(es) + rest;
    assert forall e :: e in es || e in fs ==> e in es + fs;
    EventsAppend(es, rest);
    ShiftedIff(prefix2, fs, last);
    assert (es + EventsIn(rest))[|es|..] == EventsIn(rest) && (es + fs)[|es|..] == fs;
    if fs != [] && AllHalves(fs, prefix2) {
      HeadIsNotBlank(fs[0]);
      FirstHalf(fs, prefix2);
    }
  }

  lemma FirstHalf(fs: seq<EventRecord>, half: bytes)
    requires fs != [] && AllHalves(fs, half)
    ensures EventHead(fs[0]) == half
  {
  }

  lemma HeadIsNotBlank(e: EventRecord)
    requires !IsPadding(e)
    ensures EventHead(e) != BLANK
  {
    hide EventHead, EventTail, IsPadding, RecordAt;
    RecordOfBytes(e, []);
    PaddingIsBlank(EventBytes(e) + []);
    assert (EventBytes(e) + [])[..PREFIX] == EventHead(e);
  }

  /** One that does not: the record read is made of the second prefix and half of the record
      that was sent. */
  lemma JoinedRecordIsShifted(prefix: bytes)
    requires |prefix| == PREFIX
    ensures var f, prefix2 := EventRecord(1, 2, 3, 4, 5, 6), Le32(7) + Le32(8) + Le32(9);
      EventsIn((prefix + (prefix2 + Serialised([f])))[PREFIX..]) == [EventRecord(7, 8, 9, 1, 2, 3)]
  {
    hide IsPadding, RecordAt, EventHead, EventTail, EventsIn;
    var f, g := EventRecord(1, 2, 3, 4, 5, 6), EventRecord(7, 8, 9, 1, 2, 3);
    var prefix2 := Le32(7) + Le32(8) + Le32(9);
    HalvesShift(f, g);
    assert [f][1..] == [];
    assert Serialised([f]) == EventHead(f) + EventTail(f);
    assert (prefix + (prefix2 + Serialised([f])))[PREFIX..] == EventBytes(g) + EventTail(f);
    OneEvent(g, EventTail(f));
    assert EventsIn(EventTail(f)) == [] by { TooShortForEvents(EventTail(f)); }
  }

  lemma HalvesShift(f: EventRecord, g: EventRecord)
    requires g.deviceId == f.entryId && g.param1 == f.timestamp && g.param2 == f.eventCode
    ensures EventTail(g) == EventHead(f)
    ensures EventHead(g) == Le32(g.entryId) + Le32(g.timestamp) + Le32(g.eventCode)
    ensures g.entryId != 0 ==> !IsPadding(g)
  {
  }

  lemma TooShortForEvents(s: bytes)
    requires |s| < RECORD
    ensures EventsIn(s) == []
  {
  }

  /** The record that follows those of the first fragment starts with the second prefix. */
  lemma JoinedPrefixIsMisread(prefix: bytes, es: seq<EventRecord>, prefix2: bytes, f: EventRecord, fs: seq<EventRecord>)
    requires |prefix| == PREFIX && |prefix2| == PREFIX
    requires forall e :: e in es ==> !IsPadding(e)
    requires U32(prefix2, 0) != 0
    ensures var joined := (prefix + Serialised(es)) + (prefix2 + Serialised([f] + fs));
      && |EventsIn(joined[PREFIX..])| > |es|
      && EventsIn(joined[PREFIX..])[..|es|] == es
      && EventsIn(joined[PREFIX..])[|es|].entryId == U32(prefix2, 0)
  {
    hide EventBytes, Serialised, EventsIn, Join32;
    var rest := prefix2 + Serialised([f] + fs);
    var joined := (prefix + Serialised(es)) + rest;
    assert joined[PREFIX..] == Serialised(es) + rest;
    EventsAppend(es, rest);
    LongEnough(f, fs);
    FirstEvent(rest);
  }

  lemma LongEnough(f: EventRecord, fs: seq<EventRecord>)
    ensures |Serialised([f] + fs)| >= RECORD
  {
    hide EventBytes;
  }

  lemma FirstEvent(s: bytes)
    requires |s| >= RECORD && U32(s, 0) != 0
    ensures |EventsIn(s)| > 0 && EventsIn(s)[0].entryId == U32(s, 0)
  {
    hide U32;
  }
}
