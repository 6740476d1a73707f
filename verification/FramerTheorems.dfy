/** What the reader makes of a whole stream. */
module FramerTheorems {
  import opened Bytes
  import opened Stuffing
  import opened Frames
  import opened Framer
  import FrameTheorems

  /** Emitted frames, dropped bytes and the bytes still held partition the stream in order. */
  lemma {:induction false} ScanPartitions(s: bytes)
    ensures BytesOf(ScanOf(s).segments) + ScanOf(s).rest == s
    decreases |s|
  {
    hide HeaderAt, Value;
    if s == [] {
    } else if s[0] != DELIMITER || (|s| >= HEADER_LEN && !HeaderAt(s, 0)) {
      ScanPartitions(s[1..]);
      assert s == [s[0]] + s[1..];
      AfterOne(Dropped(s[0]), ScanOf(s[1..]));
    } else if |s| >= HEADER_LEN {
      DeclaredPositive(s);
      var n := Declared(s);
      if |s| >= n {
        ScanPartitions(s[n..]);
        assert s == s[..n] + s[n..];
        AfterOne(Emitted(s[..n]), ScanOf(s[n..]));
      }
    }
  }

  lemma AfterOne(first: Segment, scan: Scan)
    ensures ([first] + scan.segments)[1..] == scan.segments
    ensures BytesOf(After([first], scan).segments)
            == (match first case Dropped(b) => [b] case Emitted(f) => f) + BytesOf(scan.segments)
    ensures FramesOf(After([first], scan).segments)
            == (if first.Emitted? then [first.frame] else []) + FramesOf(scan.segments)
  {
  }

  /** Where segment k starts in the stream. */
  function StartOf(segments: seq<Segment>, k: nat): nat
    requires k <= |segments|
  {
    |BytesOf(segments[..k])|
  }

  lemma StartsShift(first: Segment, more: seq<Segment>, k: nat)
    requires 0 < k <= |more| + 1
    ensures StartOf([first] + more, k) == (if first.Emitted? then |first.frame| else 1) + StartOf(more, k - 1)
  {
    var all := [first] + more;
    assert all[..k][1..] == more[..k - 1];
  }

  lemma StartOfFirst(segments: seq<Segment>)
    ensures StartOf(segments, 0) == 0
  {
    assert segments[..0] == [];
  }

  /** A byte is dropped only where no header starts, and a frame is taken only where one does,
      as long as its length field says. */
  lemma {:induction false} SegmentsAreForced(s: bytes, k: nat)
    requires k < |ScanOf(s).segments|
    ensures var i := StartOf(ScanOf(s).segments, k);
      match ScanOf(s).segments[k]
      case Dropped(b) => i < |s| && s[i] == b && !HeaderAt(s, i)
      case Emitted(f) => HeaderAt(s, i) && i + |f| <= |s| && f == s[i..i + |f|] && WellFramed(f)
    decreases |s|
  {
    hide HeaderCheck, Value;
    if s[0] != DELIMITER || !HeaderAt(s, 0) {
      SegmentsAreForcedLater(s, 1, Dropped(s[0]), k);
    } else {
      DeclaredPositive(s);
      assert HeaderAt(s[..Declared(s)], 0);
      SegmentsAreForcedLater(s, Declared(s), Emitted(s[..Declared(s)]), k);
    }
  }

  lemma {:induction false} SegmentsAreForcedLater(s: bytes, n: nat, first: Segment, k: nat)
    requires 0 < n <= |s| && ScanOf(s) == After([first], ScanOf(s[n..]))
    requires n == if first.Emitted? then |first.frame| else 1
    requires match first
             case Dropped(b) => s[0] == b && !HeaderAt(s, 0)
             case Emitted(f) => HeaderAt(s, 0) && f == s[..n] && WellFramed(f)
    requires k < |ScanOf(s).segments|
    ensures var i := StartOf(ScanOf(s).segments, k);
      match ScanOf(s).segments[k]
      case Dropped(b) => i < |s| && s[i] == b && !HeaderAt(s, i)
      case Emitted(f) => HeaderAt(s, i) && i + |f| <= |s| && f == s[i..i + |f|] && WellFramed(f)
    decreases |s|, 0
  {
    hide ScanOf, HeaderAt, Declared, WellFramed, StartOf;
    var more := ScanOf(s[n..]).segments;
    StartOfFirst(ScanOf(s).segments);
    if k > 0 {
      SegmentsAreForced(s[n..], k - 1);
      StartsShift(first, more, k);
      var i := StartOf(more, k - 1);
      HeaderShifts(s, n, i);
      if more[k - 1].Emitted? {
        var f := more[k - 1].frame;
        assert s[n..][i..i + |f|] == s[n + i..n + i + |f|];
      }
    }
  }

  lemma {:induction false} FramesOfFound(segments: seq<Segment>, j: nat) returns (k: nat)
    requires j < |FramesOf(segments)|
    ensures k < |segments| && segments[k] == Emitted(FramesOf(segments)[j])
  {
    if segments[0].Emitted? && j == 0 {
      k := 0;
    } else {
      k := FramesOfFound(segments[1..], if segments[0].Emitted? then j - 1 else j);
      k := k + 1;
    }
  }

  /** Every frame the reader hands out has a good header and the length it declares. */
  lemma EmittedAreWellFramed(s: bytes, j: nat)
    requires j < |FramesOf(ScanOf(s).segments)|
    ensures WellFramed(FramesOf(ScanOf(s).segments)[j])
  {
    hide ScanOf, WellFramed, HeaderAt;
    var k := FramesOfFound(ScanOf(s).segments, j);
    SegmentsAreForced(s, k);
  }

  lemma FrameFirst(f: bytes, more: bytes)
    requires WellFramed(f)
    ensures ScanOf(f + more) == After([Emitted(f)], ScanOf(more))
  {
    hide HeaderCheck, Value;
    HeaderStays(f, more, 0);
    DeclaredPositive(f);
    assert (f + more)[..|f|] == f && (f + more)[|f|..] == more;
  }

  lemma {:induction false} FramesAlone(frames: seq<bytes>)
    requires forall f :: f in frames ==> WellFramed(f)
    ensures FramesOf(ScanOf(Flatten(frames)).segments) == frames && ScanOf(Flatten(frames)).rest == []
  {
    hide ScanOf, WellFramed;
    if frames == [] {
      ScanOfNothing();
    } else {
      FrameFirst(frames[0], Flatten(frames[1..]));
      FramesAlone(frames[1..]);
      AfterOne(Emitted(frames[0]), ScanOf(Flatten(frames[1..])));
    }
  }

  /** Resynchronisation: garbage in front of well-formed frames costs none of them, as long as
      no header starts inside the garbage (windows that straddle its end included). */
  lemma {:induction false} Resync(garbage: bytes, frames: seq<bytes>)
    requires forall f :: f in frames ==> WellFramed(f)
    requires forall i :: 0 <= i < |garbage| ==> !HeaderAt(garbage + Flatten(frames), i)
    ensures FramesOf(ScanOf(garbage + Flatten(frames)).segments) == frames
    ensures frames != [] ==> ScanOf(garbage + Flatten(frames)).rest == []
    decreases |garbage|
  {
    hide HeaderAt, Value;
    var s := garbage + Flatten(frames);
    if garbage == [] {
      assert s == Flatten(frames);
      FramesAlone(frames);
    } else if frames == [] && |s| < HEADER_LEN && s[0] == DELIMITER {
    } else {
      if frames != [] {
        FrameIsLong(frames[0]);
        assert |s| >= |garbage| + |frames[0]|;
      }
      assert s[1..] == garbage[1..] + Flatten(frames);
      forall i | 0 <= i < |garbage[1..]| ensures !HeaderAt(garbage[1..] + Flatten(frames), i) {
        HeaderShifts(s, 1, i);
      }
      assert !HeaderAt(s, 0);
      Resync(garbage[1..], frames);
      AfterOne(Dropped(s[0]), ScanOf(s[1..]));
    }
  }

  lemma HeaderShifts(s: bytes, n: nat, i: nat)
    requires n <= |s|
    ensures HeaderAt(s[n..], i) <==> HeaderAt(s, n + i)
  {
  }

  lemma FrameIsLong(f: bytes)
    requires WellFramed(f)
    ensures |f| >= SHORTEST
  {
  }

  /** What the reader takes for a header: the delimiter, four bytes that cancel out, and a length
      from 18 to 2048. */
  lemma HeaderAtIff(s: bytes, i: nat)
    ensures HeaderAt(s, i) <==>
      && i + 4 <= |s| && s[i] == 0x7E && s[i] ^ s[i + 1] ^ s[i + 2] ^ s[i + 3] == 0
      && 18 <= s[i + 1] as int + 256 * (s[i + 2] as int) <= 2048
  {
    hide HeaderCheck;
    if i + 4 <= |s| && s[i] == 0x7E {
      FrameTheorems.CheckIsSum(s[i], s[i + 1], s[i + 2], s[i + 3]);
    }
  }

  lemma HeaderSum(s: bytes, i: nat)
    requires HeaderAt(s, i)
    ensures i + 4 <= |s| && FrameTheorems.SumOfFour(s[i], s[i + 1], s[i + 2], s[i + 3]) == 0
  {
    hide HeaderAt, FrameTheorems.Sum;
    HeaderAtIff(s, i);
    FrameTheorems.SumIs(s[i], s[i + 1], s[i + 2], s[i + 3]);
  }

  /** One changed byte and it is none any more. */
  lemma HeaderChangeSeen(s: bytes, i: nat, k: nat, b: byte)
    requires HeaderAt(s, i) && k < 4
    ensures i + 4 <= |s| && (b != s[i + k] ==> !HeaderAt(s[i + k := b], i))
  {
    hide HeaderAt, FrameTheorems.SumOfFour;
    HeaderSum(s, i);
    if b != s[i + k] {
      FrameTheorems.HeaderChangeSeen(s, s[i + k := b], i, k);
      if HeaderAt(s[i + k := b], i) {
        HeaderSum(s[i + k := b], i);
      }
    }
  }

  /** A short input never completes a header check: at most three bytes are held or dropped. */
  lemma {:induction false} ShortScan(s: bytes)
    requires |s| < HEADER_LEN
    ensures FramesOf(ScanOf(s).segments) == []
    ensures ScanOf(s).rest != [] ==> ScanOf(s).rest[0] == DELIMITER
    decreases |s|
  {
    hide HeaderAt;
    if s != [] && s[0] != DELIMITER {
      ShortScan(s[1..]);
      AfterOne(Dropped(s[0]), ScanOf(s[1..]));
    }
  }
}
