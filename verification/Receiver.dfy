/** The receiving half of the transport: socket reads fed through the frame reader. */
module Receiver {
  import opened Bytes
  import opened Framer
  import opened Transports
  import opened EndToEnd

  /** What one socket read comes to, and whether the deadline has passed after it. */
  datatype Read = Chunk(data: bytes, late: bool) | ReadFailed | PeerClosed

  /** The bytes some reads brought. */
  function BytesRead(made: seq<Read>): bytes {
    if made == [] then []
    else BytesRead(made[..|made| - 1]) + (match made[|made| - 1] case Chunk(data, _) => data case _ => [])
  }

  /** The frames that are complete after some reads. */
  function Complete(made: seq<Read>): seq<bytes> {
    FramesOf(ScanOf(BytesRead(made)).segments)
  }

  predicate IsLate(read: Read) {
    read.Chunk? && read.late
  }

  /** A read after which a receive without a frame reads on. */
  predicate ReadsOn(read: Read, hasDeadline: bool) {
    read.Chunk? && !(hasDeadline && IsLate(read))
  }

  lemma MoreComplete(made: seq<Read>, more: seq<Read>)
    ensures Complete(made) <= Complete(made + more)
  {
    hide ScanOf, FramesOf, BytesRead;
    BytesReadConcat(made, more);
    FramesAppend(BytesRead(made), BytesRead(more));
  }

  /** What successive receives come to, given the reads made, the frames already taken of those
      they complete, and the reads still to come. */
  function Items(made: seq<Read>, taken: nat, script: seq<Read>, hasDeadline: bool): seq<Item>
    requires taken <= |Complete(made)|
    decreases |script|, |Complete(made)| - taken
  {
    if taken < |Complete(made)| then
      [Arrived(Complete(made)[taken])] + Items(made, taken + 1, script, hasDeadline)
    else if script == [] then []
    else
      MoreComplete(made, [script[0]]);
      var more := made + [script[0]];
      Outcome(script[0], taken < |Complete(more)|, hasDeadline) + Items(more, taken, script[1..], hasDeadline)
  }

  /** The failure a read makes of a receive, if any; a frame completed by it goes before a
      deadline passed after it. */
  function Outcome(read: Read, completes: bool, hasDeadline: bool): seq<Item> {
    match read
    case ReadFailed => [Failed(Io)]
    case PeerClosed => [Failed(Closed)]
    case Chunk(_, late) => if !completes && hasDeadline && late then [Failed(Timeout)] else []
  }

  /** One receive takes its item off what is ahead. */
  ghost predicate Became(before: Stream, item: Item, after: Stream) {
    Head(before) == item && after == Tail(before)
  }

  /** The last of some reads made since earlier ones. */
  function Newest(before: seq<Read>, now: seq<Read>): Option<Read> {
    if |now| > |before| then Some(now[|now| - 1]) else None
  }

  /** A receive that has read from one place to another went no further than it must: before the
      last read only the given frames were complete, and none of the others ended it. */
  predicate ReadTo(before: seq<Read>, now: seq<Read>, frames: seq<bytes>, hasDeadline: bool) {
    && before <= now
    && (now != before ==> Complete(now[..|now| - 1]) == frames)
    && forall k :: |before| <= k < |now| - 1 ==> ReadsOn(now[k], hasDeadline)
  }

  predicate ReadsAllOn(before: seq<Read>, now: seq<Read>, frames: seq<bytes>, hasDeadline: bool) {
    && ReadTo(before, now, frames, hasDeadline)
    && forall k :: |before| <= k < |now| ==> ReadsOn(now[k], hasDeadline)
  }

  lemma OneMoreRead(before: seq<Read>, now: seq<Read>, read: Read, frames: seq<bytes>, hasDeadline: bool)
    requires ReadsAllOn(before, now, frames, hasDeadline) && Complete(now) == frames
    ensures ReadTo(before, now + [read], frames, hasDeadline) && Newest(before, now + [read]) == Some(read)
    ensures ReadsOn(read, hasDeadline) ==> ReadsAllOn(before, now + [read], frames, hasDeadline)
  {
    hide Complete, ReadsOn;
    assert (now + [read])[..|now|] == now;
  }

  lemma NothingRead(now: seq<Read>, frames: seq<bytes>, hasDeadline: bool)
    ensures ReadsAllOn(now, now, frames, hasDeadline) && ReadTo(now, now, frames, hasDeadline)
  {
  }

  lemma AllOnIsTo(before: seq<Read>, now: seq<Read>, frames: seq<bytes>, hasDeadline: bool)
    requires ReadsAllOn(before, now, frames, hasDeadline)
    ensures ReadTo(before, now, frames, hasDeadline)
  {
  }

  /** What makes a receive fail: the last read, or that there is none left. */
  predicate Explains(e: TransportError, newest: Option<Read>, left: seq<Read>, hasDeadline: bool) {
    match e
    case Closed => left == [] || newest == Some(PeerClosed)
    case Io => newest == Some(ReadFailed)
    case Timeout => hasDeadline && newest.Some? && IsLate(newest.value)
    case MockExhausted => false
  }

  function ItemOf(r: Result<bytes, TransportError>): Item {
    match r
    case Ok(frame) => Arrived(frame)
    case Err(e) => Failed(e)
  }

  class RfcommTransport {
    const reader: FrameReader
    var script: seq<Read>
    /** The reads made and the frames returned so far. */
    ghost var consumed: seq<Read>
    ghost var delivered: seq<bytes>

    /** Over any sequence of receives: every byte read went through the reader, and every frame
        it handed out was returned. */
    ghost predicate Valid()
      reads this, reader
    {
      reader.Valid() && reader.popped == delivered && reader.fed == BytesRead(consumed)
    }

    /** The receives still to come, as a session sees them; once the script of reads has run out
        the link counts as closed. */
    ghost function Ahead(hasDeadline: bool): Stream
      requires Valid()
      reads this, reader
    {
      QueueIs(this);
      Stream(Items(consumed, |delivered|, script, hasDeadline), Closed)
    }

    constructor (script: seq<Read>)
      ensures Valid() && fresh(reader) && this.script == script
      ensures consumed == [] && delivered == [] && reader.completed == []
    {
      reader := new FrameReader();
      this.script, consumed, delivered := script, [], [];
    }

    /** One receive: a queued frame if there is one, else reads until a frame is complete, the
        link fails or the deadline passes. A failure loses nothing: every byte read is in the
        reader, and no complete frame is held back. Nor is anything read once a frame is
        complete or a read has failed: before the last read there was no frame beyond those
        already returned. When the script of reads runs out the peer counts as gone. */
    method RecvFrame(hasDeadline: bool) returns (r: Result<bytes, TransportError>)
      requires Valid()
      modifies this, reader
      ensures Valid() && old(consumed) <= consumed && consumed + script == old(consumed + script)
      ensures Became(old(Ahead(hasDeadline)), ItemOf(r), Ahead(hasDeadline))
      ensures r.Ok? ==> delivered == old(delivered) + [r.value]
      ensures r.Err? ==> delivered == old(delivered) && reader.completed == []
      ensures old(reader.completed) != [] ==> r == Ok(old(reader.completed)[0]) && consumed == old(consumed)
      ensures ReadTo(old(consumed), consumed, old(delivered), hasDeadline)
      ensures r.Err? ==> Explains(r.error, Newest(old(consumed), consumed), script, hasDeadline)
    {
      hide Complete, Valid, FrameReader.Valid, Items, Ahead, ReadsAllOn, ReadTo, Became, Newest;
      NothingRead(consumed, delivered, hasDeadline);
      var queued := TakeQueued(hasDeadline);
      if queued.Some? {
        return Ok(queued.value);
      }
      while true
        invariant Valid() && reader.completed == [] && delivered == old(delivered)
        invariant old(consumed) <= consumed && consumed + script == old(consumed + script)
        invariant ReadsAllOn(old(consumed), consumed, old(delivered), hasDeadline)
        invariant Ahead(hasDeadline) == old(Ahead(hasDeadline))
        decreases |script|
      {
        CaughtUp(this);
        AllOnIsTo(old(consumed), consumed, old(delivered), hasDeadline);
        if script == [] {
          NothingAhead(this, hasDeadline);
          return Err(Closed);
        }
        OneMoreRead(old(consumed), consumed, script[0], old(delivered), hasDeadline);
        assert consumed + script == (consumed + [script[0]]) + script[1..];
        var frame, failure, late := ReadOnce(hasDeadline);
        if failure.Some? {
          return Err(failure.value);
        }
        if frame.Some? {
          return Ok(frame.value);
        }
        if hasDeadline && late {
          return Err(Timeout);
        }
      }
    }

    /** One read: its bytes go through the reader, which may complete a frame. */
    method ReadOnce(ghost hasDeadline: bool) returns (frame: Option<bytes>, failure: Option<TransportError>, late: bool)
      requires Valid() && script != [] && reader.completed == []
      modifies this, reader
      ensures Valid() && script == old(script)[1..] && consumed == old(consumed) + [old(script)[0]]
      ensures match old(script)[0]
              case ReadFailed => failure == Some(Io) && frame.None?
              case PeerClosed => failure == Some(Closed) && frame.None?
              case Chunk(_, l) => failure.None? && late == l
      ensures frame.Some? ==> delivered == old(delivered) + [frame.value]
      ensures frame.None? ==> delivered == old(delivered) && reader.completed == []
      ensures frame.Some? ==> Became(old(Ahead(hasDeadline)), Arrived(frame.value), Ahead(hasDeadline))
      ensures failure.Some? ==> Became(old(Ahead(hasDeadline)), Failed(failure.value), Ahead(hasDeadline))
      ensures frame.None? && failure.None? && hasDeadline && late ==>
        Became(old(Ahead(hasDeadline)), Failed(Timeout), Ahead(hasDeadline))
      ensures frame.None? && failure.None? && !(hasDeadline && late) ==> Ahead(hasDeadline) == old(Ahead(hasDeadline))
    {
      hide BytesRead, FrameReader.Valid, Complete, Items, Became;
      CaughtUp(this);
      ReadItem(consumed, |delivered|, script, hasDeadline);
      var read := script[0];
      MoreRead(consumed, read);
      script, consumed := script[1..], consumed + [read];
      frame, late := None, false;
      match read
      case ReadFailed => failure := Some(Io);
      case PeerClosed => failure := Some(Closed);
      case Chunk(data, l) =>
        failure, late := None, l;
        reader.Push(data);
        QueueIs(this);
        frame := TakeQueued(hasDeadline);
        QueueIs(this);
    }

    /** The oldest frame in the queue, if there is one. */
    method TakeQueued(ghost hasDeadline: bool) returns (frame: Option<bytes>)
      requires Valid()
      modifies `delivered, reader
      ensures Valid() && script == old(script) && consumed == old(consumed)
      ensures old(reader.completed) == [] ==> frame.None? && reader.completed == [] && delivered == old(delivered)
      ensures old(reader.completed) != [] ==>
        frame == Some(old(reader.completed)[0]) && delivered == old(delivered) + [frame.value]
      ensures match frame
              case Some(f) => Became(old(Ahead(hasDeadline)), Arrived(f), Ahead(hasDeadline))
              case None => Ahead(hasDeadline) == old(Ahead(hasDeadline))
    {
      hide BytesRead, FrameReader.Valid, Complete, Items;
      QueueIs(this);
      ItemsStep(consumed, |delivered|, script, hasDeadline);
      frame := reader.PopFrame();
      if frame.Some? {
        delivered := delivered + [frame.value];
      }
    }
  }

  lemma CaughtUp(t: RfcommTransport)
    requires t.Valid() && t.reader.completed == []
    ensures Complete(t.consumed) == t.delivered
  {
    hide ScanOf, FramesOf;
    assert t.delivered + [] == t.delivered;
  }

  lemma QueueIs(t: RfcommTransport)
    requires t.Valid()
    ensures Complete(t.consumed) == t.delivered + t.reader.completed
  {
    hide ScanOf, FramesOf;
  }

  lemma NothingAhead(t: RfcommTransport, hasDeadline: bool)
    requires t.Valid() && t.script == [] && t.reader.completed == []
    ensures Became(t.Ahead(hasDeadline), Failed(Closed), t.Ahead(hasDeadline))
  {
    hide Complete;
    CaughtUp(t);
  }

  /** What one more read makes of the receives to come, once all complete frames are taken. */
  lemma ReadItem(made: seq<Read>, taken: nat, script: seq<Read>, hasDeadline: bool)
    requires taken == |Complete(made)| && script != []
    ensures var more, rest := made + [script[0]], script[1..];
      && taken <= |Complete(more)|
      && var before := Stream(Items(made, taken, script, hasDeadline), Closed);
         var after := Stream(Items(more, taken, rest, hasDeadline), Closed);
         match script[0]
         case ReadFailed => Became(before, Failed(Io), after)
         case PeerClosed => Became(before, Failed(Closed), after)
         case Chunk(_, late) =>
           if taken < |Complete(more)| then
             Became(before, Arrived(Complete(more)[taken]), Stream(Items(more, taken + 1, rest, hasDeadline), Closed))
           else if hasDeadline && late then Became(before, Failed(Timeout), after)
           else before == after
  {
    hide Complete, Items;
    ItemsStep(made, taken, script, hasDeadline);
    ItemsStep(made + [script[0]], taken, script[1..], hasDeadline);
  }

  lemma ItemsStep(made: seq<Read>, taken: nat, script: seq<Read>, hasDeadline: bool)
    requires taken <= |Complete(made)|
    ensures taken < |Complete(made)| ==>
      Items(made, taken, script, hasDeadline)
      == [Arrived(Complete(made)[taken])] + Items(made, taken + 1, script, hasDeadline)
    ensures taken == |Complete(made)| && script == [] ==> Items(made, taken, script, hasDeadline) == []
    ensures taken == |Complete(made)| && script != [] ==>
      var more := made + [script[0]];
      && taken <= |Complete(more)|
      && Items(made, taken, script, hasDeadline)
         == Outcome(script[0], taken < |Complete(more)|, hasDeadline) + Items(more, taken, script[1..], hasDeadline)
  {
    hide Complete;
    if taken == |Complete(made)| && script != [] {
      MoreComplete(made, [script[0]]);
    }
  }

  lemma MoreRead(made: seq<Read>, read: Read)
    ensures BytesRead(made + [read]) == BytesRead(made) + (match read case Chunk(data, _) => data case _ => [])
  {
    assert (made + [read])[..|made|] == made;
  }

  lemma {:induction false} BytesReadConcat(a: seq<Read>, b: seq<Read>)
    ensures BytesRead(a + b) == BytesRead(a) + BytesRead(b)
  {
    if b == [] {
      assert a + b == a;
    } else {
      var init, last := b[..|b| - 1], b[|b| - 1];
      assert a + b == (a + init) + [last] && b == init + [last];
      BytesReadConcat(a, init);
      MoreRead(a + init, last);
      MoreRead(init, last);
    }
  }

  /** Over any sequence of receives on a link whose reads carry some messages, however they are
      cut and whatever fails or times out in between: the frames returned are received as the
      first of the messages, in order; and once everything has been read and nothing is queued,
      as exactly the messages. */
  lemma ReceivedIsSent(t: RfcommTransport, ms: seq<Message>)
    requires t.Valid() && forall m :: m in ms ==> Sendable(m)
    requires BytesRead(t.consumed + t.script) == Flatten(WiresOf(ms))
    ensures ReceiveAll(t.delivered) <= Sent(ms)
    ensures t.script == [] && t.reader.completed == [] ==> ReceiveAll(t.delivered) == Sent(ms)
  {
    hide ScanOf, FramesOf, Sendable, WiresOf, BytesRead;
    var fed, more := t.reader.fed, BytesRead(t.script);
    BytesReadConcat(t.consumed, t.script);
    DeliveredUnchanged(ms);
    FramesAppend(fed, more);
    var later := t.reader.completed + FramesOf(ScanOf(ScanOf(fed).rest + more).segments);
    assert FramesOf(ScanOf(fed + more).segments) == t.delivered + later;
    ReceiveAllConcat(t.delivered, later);
    if t.script == [] && t.reader.completed == [] {
      assert t.consumed + t.script == t.consumed;
      assert FramesOf(ScanOf(fed).segments) == t.delivered + [] == t.delivered;
    }
  }

  function ArrivalsOf(frames: seq<bytes>): seq<Item> {
    seq(|frames|, k requires 0 <= k < |frames| => Arrived(frames[k]))
  }

  /** The frames among some items. */
  function FramesAmong(items: seq<Item>): seq<bytes> {
    if items == [] then []
    else (match items[0] case Arrived(f) => [f] case Failed(_) => []) + FramesAmong(items[1..])
  }

  lemma FirstItem(item: Item, items: seq<Item>)
    ensures FramesAmong([item] + items) == (match item case Arrived(f) => [f] case Failed(_) => []) + FramesAmong(items)
  {
    assert ([item] + items)[1..] == items;
  }

  /** Whatever fails or times out in between, successive receives bring exactly the frames that
      the reads complete, in order. */
  lemma {:induction false} ReceivesBringAll(made: seq<Read>, taken: nat, script: seq<Read>, hasDeadline: bool)
    requires taken <= |Complete(made)|
    ensures taken <= |Complete(made + script)|
    ensures FramesAmong(Items(made, taken, script, hasDeadline)) == Complete(made + script)[taken..]
    decreases |script|, |Complete(made)| - taken
  {
    hide Complete, Items, FramesAmong;
    ItemsStep(made, taken, script, hasDeadline);
    MoreComplete(made, script);
    var frames := Complete(made + script);
    if taken < |Complete(made)| {
      ReceivesBringAll(made, taken + 1, script, hasDeadline);
      FirstItem(Arrived(Complete(made)[taken]), Items(made, taken + 1, script, hasDeadline));
      assert [frames[taken]] + frames[taken + 1..] == frames[taken..];
    } else if script == [] {
      assert made + script == made;
      NoItems();
    } else {
      var more, rest := made + [script[0]], script[1..];
      assert more + rest == made + script;
      ReceivesBringAll(more, taken, rest, hasDeadline);
      var items := Items(more, taken, rest, hasDeadline);
      var outcome := Outcome(script[0], taken < |Complete(more)|, hasDeadline);
      if outcome == [] {
        assert outcome + items == items;
      } else {
        FirstItem(outcome[0], items);
        assert outcome == [outcome[0]];
      }
    }
  }

  lemma NoItems()
    ensures FramesAmong([]) == []
  {
  }

  /** Reads that neither fail nor let a deadline pass. */
  predicate Intact(script: seq<Read>, hasDeadline: bool) {
    forall read :: read in script ==> ReadsOn(read, hasDeadline)
  }

  /** On an intact link nothing comes in between. */
  lemma {:induction false} IntactBringsFrames(made: seq<Read>, taken: nat, script: seq<Read>, hasDeadline: bool)
    requires taken <= |Complete(made)| && Intact(script, hasDeadline)
    ensures taken <= |Complete(made + script)|
    ensures Items(made, taken, script, hasDeadline) == ArrivalsOf(Complete(made + script)[taken..])
    decreases |script|, |Complete(made)| - taken
  {
    hide Complete, Items;
    ItemsStep(made, taken, script, hasDeadline);
    MoreComplete(made, script);
    var frames := Complete(made + script);
    if taken < |Complete(made)| {
      IntactBringsFrames(made, taken + 1, script, hasDeadline);
      assert [frames[taken]] + frames[taken + 1..] == frames[taken..];
    } else if script == [] {
      assert made + script == made;
    } else {
      var more, rest := made + [script[0]], script[1..];
      assert more + rest == made + script;
      assert ReadsOn(script[0], hasDeadline) && forall read :: read in rest ==> read in script;
      IntactBringsFrames(more, taken, rest, hasDeadline);
      assert Outcome(script[0], taken < |Complete(more)|, hasDeadline) == [];
    }
  }
}
