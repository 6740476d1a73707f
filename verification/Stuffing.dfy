/** Byte stuffing in the style of section 4.2 of RFC 1662. */
module Stuffing {
  import opened Bytes

  const DELIMITER: byte := 0x7E
  const ESCAPE: byte := 0x7D

  /** Why a frame, or the stuffed region inside it, cannot be read. */
  datatype ParseError =
    | TooShort(got: nat, need: nat)
    | MissingStart(found: byte)
    | MissingEnd(found: byte)
    | LengthMismatch(declared: nat, actual: nat)
    | HeaderChecksum(seen: byte, expected: byte)
    | TruncatedEscape

  /** The bytes that may not appear inside a stuffed region. */
  predicate Special(b: byte) {
    b == 0x7D || b == 0x7E || b == 0x11 || b == 0x12 || b == 0x13
  }

  /** A byte after the escape goes through this mask. */
  function Flip(b: byte): byte {
    b ^ 0x20
  }

  function StuffByte(b: byte): bytes {
    if Special(b) then [ESCAPE, Flip(b)] else [b]
  }

  function Stuff(data: bytes): bytes {
    if data == [] then [] else StuffByte(data[0]) + Stuff(data[1..])
  }

  function SpecialCount(data: bytes): nat {
    if data == [] then 0 else (if Special(data[0]) then 1 else 0) + SpecialCount(data[1..])
  }

  function Prepended(head: bytes, r: Result<bytes, ParseError>): Result<bytes, ParseError> {
    match r
    case Ok(rest) => Ok(head + rest)
    case Err(e) => Err(e)
  }

  function Unstuff(s: bytes): Result<bytes, ParseError> {
    if s == [] then Ok([])
    else if s[0] != ESCAPE then Prepended([s[0]], Unstuff(s[1..]))
    else if |s| == 1 then Err(TruncatedEscape)
    else Prepended([Flip(s[1])], Unstuff(s[2..]))
  }

  method StuffBytes(data: bytes) returns (out: bytes)
    ensures out == Stuff(data)
  {
    hide Flip;
    out := [];
    for i := 0 to |data|
      invariant out == Stuff(data[..i])
    {
      StuffConcat(data[..i], [data[i]]);
      assert data[..i] + [data[i]] == data[..i + 1];
      StuffOne(data[i]);
      if Special(data[i]) {
        out := out + [ESCAPE];
        out := out + [Flip(data[i])];
      } else {
        out := out + [data[i]];
      }
    }
    assert data[..|data|] == data;
  }

  method UnstuffBytes(data: bytes) returns (r: Result<bytes, ParseError>)
    ensures r == Unstuff(data)
  {
    var out := [];
    var i := 0;
    PrependedTwice([], [], Unstuff(data));
    assert data[0..] == data;
    while i < |data|
      invariant i <= |data|
      invariant Unstuff(data) == Prepended(out, Unstuff(data[i..]))
    {
      var b := data[i];
      i := i + 1;
      assert data[i - 1..][1..] == data[i..];
      if b == ESCAPE {
        if i == |data| {
          return Err(TruncatedEscape);
        }
        assert data[i - 1..][2..] == data[i + 1..];
        PrependedTwice(out, [Flip(data[i])], Unstuff(data[i + 1..]));
        out := out + [Flip(data[i])];
        i := i + 1;
      } else {
        PrependedTwice(out, [b], Unstuff(data[i..]));
        out := out + [b];
      }
    }
    assert out + [] == out;
    r := Ok(out);
  }

  lemma PrependedTwice(a: bytes, b: bytes, r: Result<bytes, ParseError>)
    ensures Prepended(a, Prepended(b, r)) == Prepended(a + b, r)
    ensures Prepended([], r) == r
  {
    if r.Ok? {
      assert a + (b + r.value) == (a + b) + r.value;
      assert [] + r.value == r.value;
    }
  }

  lemma FlipTwice(b: byte)
    ensures Flip(Flip(b)) == b
    ensures Special(b) ==> !Special(Flip(b))
  {
  }

  lemma StuffOne(b: byte)
    ensures Stuff([b]) == StuffByte(b)
  {
    assert [b][1..] == [];
  }

  /** Stuffing distributes over concatenation. */
  lemma {:induction false} StuffConcat(a: bytes, b: bytes)
    ensures Stuff(a + b) == Stuff(a) + Stuff(b)
  {
    if a == [] {
      assert a + b == b;
    } else {
      assert (a + b)[1..] == a[1..] + b;
      StuffConcat(a[1..], b);
    }
  }

  /** A stuffed region is free of the delimiter and the flow-control bytes, and each special
      byte costs one more. */
  lemma {:induction false} StuffIsClean(data: bytes)
    ensures forall k :: 0 <= k < |Stuff(data)| ==> Stuff(data)[k] == ESCAPE || !Special(Stuff(data)[k])
    ensures |Stuff(data)| == |data| + SpecialCount(data)
    ensures SpecialCount(data) <= |data|
  {
    if data != [] {
      StuffIsClean(data[1..]);
      FlipTwice(data[0]);
    }
  }

  /** One byte at a time: the five bytes that are escaped, and what becomes of each. */
  lemma StuffedByte(b: byte)
    ensures Stuff([b]) == if b == 0x7D || b == 0x7E || b == 0x11 || b == 0x12 || b == 0x13
                          then [0x7D, b ^ 0x20] else [b]
    ensures Stuff([0x7E]) == [0x7D, 0x5E] && Stuff([0x7D]) == [0x7D, 0x5D]
    ensures Stuff([0x11]) == [0x7D, 0x31] && Stuff([0x12]) == [0x7D, 0x32] && Stuff([0x13]) == [0x7D, 0x33]
  {
    StuffOne(b);
    StuffOne(0x7E);
    StuffOne(0x7D);
    StuffOne(0x11);
    StuffOne(0x12);
    StuffOne(0x13);
  }

  lemma StuffFirst(data: bytes)
    requires data != []
    ensures Stuff(data) == Stuff([data[0]]) + Stuff(data[1..])
  {
    StuffOne(data[0]);
  }

  /** A stuffed region holds none of 7E, 11, 12 and 13. */
  lemma {:induction false} StuffAvoids(data: bytes)
    ensures forall k :: 0 <= k < |Stuff(data)| ==> Stuff(data)[k] != 0x7E && Stuff(data)[k] != 0x11
    ensures forall k :: 0 <= k < |Stuff(data)| ==> Stuff(data)[k] != 0x12 && Stuff(data)[k] != 0x13
  {
    StuffIsClean(data);
  }

  function CountOf(data: bytes, b: byte): nat {
    if data == [] then 0 else (if data[0] == b then 1 else 0) + CountOf(data[1..], b)
  }

  /** It is longer than its data by the number of these bytes and of 7D in it. */
  lemma {:induction false} StuffLength(data: bytes)
    ensures |Stuff(data)| == |data| + CountOf(data, 0x7D) + CountOf(data, 0x7E)
                             + CountOf(data, 0x11) + CountOf(data, 0x12) + CountOf(data, 0x13)
  {
    hide Stuff;
    if data == [] {
      NothingStuffed();
    } else {
      StuffLength(data[1..]);
      StuffFirst(data);
      StuffedByte(data[0]);
    }
  }

  lemma NothingStuffed()
    ensures Stuff([]) == []
  {
  }

  lemma {:induction false} UnstuffAfterStuff(data: bytes, rest: bytes)
    ensures Unstuff(Stuff(data) + rest) == Prepended(data, Unstuff(rest))
  {
    hide Flip;
    if data == [] {
      assert Stuff(data) + rest == rest;
      PrependedTwice([], [], Unstuff(rest));
    } else {
      var one, more := StuffByte(data[0]), Stuff(data[1..]) + rest;
      UnstuffAfterStuff(data[1..], rest);
      assert Stuff(data) + rest == one + more;
      UnstuffOne(data[0], more);
      assert data == [data[0]] + data[1..];
      PrependedTwice([data[0]], data[1..], Unstuff(rest));
    }
  }

  lemma UnstuffOne(b: byte, more: bytes)
    ensures Unstuff(StuffByte(b) + more) == Prepended([b], Unstuff(more))
  {
    hide Flip, Prepended;
    var s := StuffByte(b) + more;
    FlipTwice(b);
    assert s[|StuffByte(b)|..] == more;
  }

  /** Unstuffing inverts stuffing. */
  lemma UnstuffInvertsStuff(data: bytes)
    ensures Unstuff(Stuff(data)) == Ok(data)
  {
    hide Stuff;
    UnstuffAfterStuff(data, []);
    assert Stuff(data) + [] == Stuff(data);
    assert data + [] == data;
  }

  lemma {:induction false} UnstuffShrinks(s: bytes)
    ensures Unstuff(s).Ok? ==> |Unstuff(s).value| <= |s|
  {
    hide Flip;
    if |s| > 1 {
      UnstuffShrinks(s[if s[0] == ESCAPE then 2 else 1..]);
    }
  }

  /** Unstuffing leaves a region as it is exactly when there is no escape in it. */
  lemma {:induction false} UnstuffKeepsIff(s: bytes)
    ensures Unstuff(s) == Ok(s) <==> ESCAPE !in s
  {
    hide Flip;
    if s != [] {
      if s[0] == ESCAPE {
        if |s| > 1 {
          UnstuffShrinks(s[2..]);
        }
      } else {
        UnstuffKeepsIff(s[1..]);
        assert s == [s[0]] + s[1..];
        if Unstuff(s) == Ok(s) {
          assert Unstuff(s[1..]).Ok? && Unstuff(s[1..]).value == s[1..];
        }
      }
    }
  }

  /** The number of escapes at the very end. */
  function TrailingEscapes(s: bytes): nat {
    if s != [] && s[|s| - 1] == ESCAPE then 1 + TrailingEscapes(s[..|s| - 1]) else 0
  }

  lemma {:induction false} TrailingEscapesOfTail(s: bytes, k: nat)
    requires k <= |s| && (exists j :: k <= j < |s| && s[j] != ESCAPE)
    ensures TrailingEscapes(s) == TrailingEscapes(s[k..])
  {
    if s[|s| - 1] == ESCAPE {
      var t := s[..|s| - 1];
      assert exists j :: k <= j < |t| && t[j] != ESCAPE by {
        var j :| k <= j < |s| && s[j] != ESCAPE;
        assert t[j] != ESCAPE;
      }
      TrailingEscapesOfTail(t, k);
      assert s[k..][..|s[k..]| - 1] == t[k..];
    }
  }

  lemma {:induction false} AllEscapes(s: bytes)
    requires forall j :: 0 <= j < |s| ==> s[j] == ESCAPE
    ensures TrailingEscapes(s) == |s|
  {
    if s != [] {
      AllEscapes(s[..|s| - 1]);
    }
  }

  /** Unstuffing fails exactly when the run of escapes at the end is odd. */
  lemma {:induction false} UnstuffFailsIff(s: bytes)
    ensures Unstuff(s).Err? <==> TrailingEscapes(s) % 2 == 1
  {
    hide Flip;
    if |s| <= 1 {
    } else {
      var k := if s[0] == ESCAPE then 2 else 1;
      UnstuffFailsIff(s[k..]);
      assert Unstuff(s).Err? == Unstuff(s[k..]).Err?;
      TrailingEscapesAfter(s, k);
    }
  }

  lemma TrailingEscapesAfter(s: bytes, k: nat)
    requires |s| > 1 && k == if s[0] == ESCAPE then 2 else 1
    ensures TrailingEscapes(s) - TrailingEscapes(s[k..]) in {0, 2}
  {
    hide TrailingEscapes;
    if j :| k <= j < |s| && s[j] != ESCAPE {
      TrailingEscapesOfTail(s, k);
    } else {
      AllEscapes(s[k..]);
      if s[k - 1] != ESCAPE {
        EscapesAfterOther(s, k);
        assert |s[k..]| == |s| - k;
      } else {
        AllEscapes(s);
      }
    }
  }

  lemma {:induction false} EscapesAfterOther(s: bytes, k: nat)
    requires 0 < k <= |s| && s[k - 1] != ESCAPE
    requires forall j :: k <= j < |s| ==> s[j] == ESCAPE
    ensures TrailingEscapes(s) == |s| - k
  {
    if k < |s| {
      EscapesAfterOther(s[..|s| - 1], k);
    }
  }
}
