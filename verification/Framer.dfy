/** Stream reassembly: the incremental frame reader against a left-to-right scan. */
module Framer {
  import opened Bytes
  import opened Stuffing
  import opened Frames

  const HEADER_LEN: nat := 4
  const SHORTEST: nat := 18
  const LONGEST: nat := 2048

  /** A four-byte header with a good checksum and a plausible length starts at i. */
  predicate HeaderAt(s: bytes, i: nat) {
    && i + HEADER_LEN <= |s|
    && s[i] == DELIMITER
    && s[i + 3] == HeaderCheck(s[i + 1], s[i + 2])
    && SHORTEST <= Value(s[i + 1], s[i + 2]) <= LONGEST
  }

  /** A complete frame: a header, and as many bytes as it declares. */
  predicate WellFramed(f: bytes) {
    HeaderAt(f, 0) && Declared(f) == |f|
  }

  /** What becomes of the bytes of a stream, in order. */
  datatype Segment = Dropped(b: byte) | Emitted(frame: bytes)

  datatype Scan = Scan(segments: seq<Segment>, rest: bytes)

  /** The whole-stream reference: skip a byte unless a header starts at it, else take a frame. */
  function ScanOf(s: bytes): Scan
    decreases |s|
  {
    if s == [] then Scan([], [])
    else if s[0] != DELIMITER then After([Dropped(s[0])], ScanOf(s[1..]))
    else if |s| < HEADER_LEN then Scan([], s)
    else if !HeaderAt(s, 0) then After([Dropped(s[0])], ScanOf(s[1..]))
    else if |s| < Declared(s) then Scan([], s)
    else After([Emitted(s[..Declared(s)])], ScanOf(s[Declared(s)..]))
  }

  function After(first: seq<Segment>, scan: Scan): Scan {
    Scan(first + scan.segments, scan.rest)
  }

  function FramesOf(segments: seq<Segment>): seq<bytes> {
    if segments == [] then []
    else (if segments[0].Emitted? then [segments[0].frame] else []) + FramesOf(segments[1..])
  }

  function BytesOf(segments: seq<Segment>): bytes {
    if segments == [] then []
    else (match segments[0] case Dropped(b) => [b] case Emitted(f) => f) + BytesOf(segments[1..])
  }

  /** The states a reader can rest in. */
  predicate Pending(inProgress: bytes, expectedLen: Option<nat>) {
    if |inProgress| < HEADER_LEN then
      expectedLen == None && (inProgress != [] ==> inProgress[0] == DELIMITER)
    else
      HeaderAt(inProgress, 0) && expectedLen == Some(Declared(inProgress)) && |inProgress| < Declared(inProgress)
  }

  class FrameReader {
    var inProgress: bytes
    var expectedLen: Option<nat>
    var completed: seq<bytes>
    /** All bytes pushed and all frames popped since the start. */
    ghost var fed: bytes
    ghost var popped: seq<bytes>

    /** Over any run of pushes and pops: the frames handed out and queued, and the bytes still
        held, are those of the scan of everything fed, however it was cut up. */
    ghost predicate Valid()
      reads this
    {
      && Pending(inProgress, expectedLen)
      && FramesOf(ScanOf(fed).segments) == popped + completed
      && ScanOf(fed).rest == inProgress
    }

    constructor ()
      ensures Valid() && fed == [] && popped == [] && completed == []
    {
      inProgress, expectedLen, completed := [], None, [];
      fed, popped := [], [];
    }

    method Push(data: bytes)
      requires Valid()
      modifies this
      ensures Valid() && fed == old(fed) + data && popped == old(popped)
    {
      hide ScanOf, FramesOf, HeaderAt, Pending;
      for i := 0 to |data|
        invariant Valid() && fed == old(fed) + data[..i] && popped == old(popped)
      {
        FramesAppend(fed, [data[i]]);
        PushByte(data[i]);
        fed := fed + [data[i]];
        assert data[..i + 1] == data[..i] + [data[i]];
      }
      assert data[..|data|] == data;
    }

    method PushByte(b: byte)
      requires Pending(inProgress, expectedLen)
      modifies `inProgress, `expectedLen, `completed
      ensures Pending(inProgress, expectedLen)
      ensures inProgress == ScanOf(old(inProgress) + [b]).rest
      ensures completed == old(completed) + FramesOf(ScanOf(old(inProgress) + [b]).segments)
      ensures |inProgress| <= |old(inProgress)| + 1
      decreases |inProgress|
    {
      hide HeaderCheck, Value;
      if inProgress == [] {
        ScanOfOne(b);
        if b == DELIMITER {
          inProgress := inProgress + [b];
        }
        return;
      }
      inProgress := inProgress + [b];
      if expectedLen.None? {
        if |inProgress| == HEADER_LEN {
          var lenLo, lenHi := inProgress[1], inProgress[2];
          var declared := Value(lenLo, lenHi);
          var valid := inProgress[3] == HeaderCheck(lenLo, lenHi) && SHORTEST <= declared <= LONGEST;
          if !valid {
            var tail := inProgress[1..];
            inProgress := [];
            expectedLen := None;
            Replay(tail);
            return;
          }
          expectedLen := Some(declared);
        }
        return;
      }
      var want := expectedLen.value;
      if |inProgress| >= want {
        assert |inProgress| == want;
        assert inProgress[..want] == inProgress && inProgress[want..] == [];
        var done := inProgress;
        inProgress := [];
        expectedLen := None;
        completed := completed + [done];
      }
    }

    /** The replay of a rejected header: three bytes into an empty reader, so that no second
        header check can happen. */
    method Replay(tail: bytes)
      requires inProgress == [] && expectedLen == None && |tail| == 3
      modifies `inProgress, `expectedLen, `completed
      ensures Pending(inProgress, expectedLen)
      ensures inProgress == ScanOf(tail).rest && |inProgress| <= 3
      ensures completed == old(completed) + FramesOf(ScanOf(tail).segments)
      decreases 3, 0
    {
      hide ScanOf, FramesOf, HeaderAt;
      ScanOfNothing();
      for i := 0 to |tail|
        invariant Pending(inProgress, expectedLen) && |inProgress| <= i
        invariant inProgress == ScanOf(tail[..i]).rest
        invariant completed == old(completed) + FramesOf(ScanOf(tail[..i]).segments)
      {
        FramesAppend(tail[..i], [tail[i]]);
        assert tail[..i + 1] == tail[..i] + [tail[i]];
        PushByte(tail[i]);
      }
      assert tail[..|tail|] == tail;
    }

    method PopFrame() returns (r: Option<bytes>)
      requires Valid()
      modifies this
      ensures Valid() && fed == old(fed)
      ensures old(completed) == [] ==> r == None && completed == [] && popped == old(popped)
      ensures old(completed) != [] ==>
        r == Some(old(completed)[0]) && completed == old(completed)[1..] && popped == old(popped) + [r.value]
    {
      if completed == [] {
        return None;
      }
      r := Some(completed[0]);
      popped := popped + [completed[0]];
      completed := completed[1..];
    }
  }

  // ---------------------------------------------------------------- the scan

  lemma ScanOfOne(b: byte)
    ensures ScanOf([b]) == if b == DELIMITER then Scan([], [b]) else Scan([Dropped(b)], [])
  {
    assert [b][1..] == [];
    assert [Dropped(b)] + [] == [Dropped(b)];
  }

  lemma HeaderStays(s: bytes, t: bytes, i: nat)
    requires i + HEADER_LEN <= |s|
    ensures HeaderAt(s + t, i) <==> HeaderAt(s, i)
    ensures Declared(s + t) == Declared(s)
  {
  }

  lemma DeclaredPositive(s: bytes)
    requires HeaderAt(s, 0)
    ensures SHORTEST <= Declared(s) <= LONGEST
  {
  }

  /** What is scanned so far does not change with what comes later, and what comes later only
      meets the bytes still held. */
  lemma {:induction false} ScanAppend(s: bytes, t: bytes)
    ensures ScanOf(s + t) == After(ScanOf(s).segments, ScanOf(ScanOf(s).rest + t))
    decreases |s|
  {
    hide HeaderAt, Value;
    if s == [] {
      assert s + t == t && [] + t == t;
    } else if s[0] != DELIMITER {
      ScanAppendStep(s, t, 1, [Dropped(s[0])]);
    } else if |s| >= HEADER_LEN {
      HeaderStays(s, t, 0);
      if !HeaderAt(s, 0) {
        ScanAppendStep(s, t, 1, [Dropped(s[0])]);
      } else if |s| >= Declared(s) {
        DeclaredPositive(s);
        ScanAppendStep(s, t, Declared(s), [Emitted(s[..Declared(s)])]);
      }
    }
  }

  lemma {:induction false} ScanAppendStep(s: bytes, t: bytes, k: nat, first: seq<Segment>)
    requires 0 < k <= |s|
    ensures (s + t)[..k] == s[..k] && (s + t)[0] == s[0]
    ensures var scan := After(first, ScanOf(s[k..]));
      After(first, ScanOf((s + t)[k..])) == After(scan.segments, ScanOf(scan.rest + t))
    decreases |s|, 0
  {
    hide ScanOf;
    assert (s + t)[k..] == s[k..] + t;
    ScanAppend(s[k..], t);
    var a, b := ScanOf(s[k..]).segments, ScanOf(ScanOf(s[k..]).rest + t);
    assert first + (a + b.segments) == (first + a) + b.segments;
  }

  lemma FramesAppend(s: bytes, t: bytes)
    ensures ScanOf(s + t).rest == ScanOf(ScanOf(s).rest + t).rest
    ensures FramesOf(ScanOf(s + t).segments)
            == FramesOf(ScanOf(s).segments) + FramesOf(ScanOf(ScanOf(s).rest + t).segments)
  {
    hide ScanOf, FramesOf;
    ScanAppend(s, t);
    FramesOfConcat(ScanOf(s).segments, ScanOf(ScanOf(s).rest + t).segments);
  }

  lemma ScanOfNothing()
    ensures ScanOf([]) == Scan([], []) && FramesOf([]) == []
  {
  }

  lemma {:induction false} FramesOfConcat(a: seq<Segment>, b: seq<Segment>)
    ensures FramesOf(a + b) == FramesOf(a) + FramesOf(b)
  {
    if a == [] {
      assert a + b == b;
    } else {
      assert (a + b)[1..] == a[1..] + b;
      FramesOfConcat(a[1..], b);
    }
  }
}
