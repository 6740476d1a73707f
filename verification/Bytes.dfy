/** Bytes, fixed-width words and their little-endian wire form. */
module Bytes {
  type byte = bv8
  type u16 = bv16
  type u32 = bv32
  type bytes = seq<byte>

  datatype Option<+T> = None | Some(value: T)

  datatype Result<+T, +E> = Ok(value: T) | Err(error: E)

  /** Parts put one after the other. */
  function Flatten(parts: seq<bytes>): bytes {
    if parts == [] then [] else parts[0] + Flatten(parts[1..])
  }

  lemma {:induction false} FlattenConcat(a: seq<bytes>, b: seq<bytes>)
    ensures Flatten(a + b) == Flatten(a) + Flatten(b)
  {
    if a == [] {
      assert a + b == b;
    } else {
      assert (a + b)[1..] == a[1..] + b;
      FlattenConcat(a[1..], b);
    }
  }

  lemma FlattenOne(part: bytes)
    ensures Flatten([part]) == part
  {
    assert [part][1..] == [];
  }

  lemma FlattenGrows(parts: seq<bytes>, more: bytes)
    ensures Flatten(parts + [more]) == Flatten(parts) + more
  {
    FlattenConcat(parts, [more]);
    FlattenOne(more);
  }

  /** The two bytes of `u16::to_le_bytes`. */
  function Le16(n: u16): (r: bytes)
    ensures |r| == 2
  {
    [(n & 0xFF) as byte, (n >> 8) as byte]
  }

  /** The four bytes of `u32::to_le_bytes`. */
  function Le32(n: u32): (r: bytes)
    ensures |r| == 4
  {
    [(n & 0xFF) as byte, ((n >> 8) & 0xFF) as byte, ((n >> 16) & 0xFF) as byte, (n >> 24) as byte]
  }

  function Join16(lo: byte, hi: byte): u16 {
    (lo as u16) | ((hi as u16) << 8)
  }

  function Join32(a: byte, b: byte, c: byte, d: byte): u32 {
    (a as u32) | ((b as u32) << 8) | ((c as u32) << 16) | ((d as u32) << 24)
  }

  /** `LittleEndian::read_u16(&s[i..i + 2])`. */
  function U16(s: bytes, i: nat): u16
    requires i + 2 <= |s|
  {
    Join16(s[i], s[i + 1])
  }

  /** `LittleEndian::read_u32(&s[i..i + 4])`. */
  function U32(s: bytes, i: nat): u32
    requires i + 4 <= |s|
  {
    Join32(s[i], s[i + 1], s[i + 2], s[i + 3])
  }

  lemma Join16Splits(n: u16, lo: byte, hi: byte)
    ensures Join16(Le16(n)[0], Le16(n)[1]) == n
    ensures Le16(Join16(lo, hi)) == [lo, hi]
  {
  }

  lemma JoinedLe32(n: u32)
    ensures Join32(Le32(n)[0], Le32(n)[1], Le32(n)[2], Le32(n)[3]) == n
  {
  }

  lemma FirstOfJoin32(a: byte, b: byte, c: byte, d: byte)
    ensures (Join32(a, b, c, d) & 0xFF) as byte == a
    ensures ((Join32(a, b, c, d) >> 8) & 0xFF) as byte == b
  {
  }

  lemma LastOfJoin32(a: byte, b: byte, c: byte, d: byte)
    ensures ((Join32(a, b, c, d) >> 16) & 0xFF) as byte == c
    ensures (Join32(a, b, c, d) >> 24) as byte == d
  {
  }

  lemma Le32OfJoin32(a: byte, b: byte, c: byte, d: byte)
    ensures Le32(Join32(a, b, c, d)) == [a, b, c, d]
  {
    hide Join32;
    FirstOfJoin32(a, b, c, d);
    LastOfJoin32(a, b, c, d);
  }

  lemma U16OfLe16(s: bytes, i: nat, n: u16)
    requires i + 2 <= |s| && s[i..i + 2] == Le16(n)
    ensures U16(s, i) == n
  {
    assert s[i] == s[i..i + 2][0] && s[i + 1] == s[i..i + 2][1];
    Join16Splits(n, 0, 0);
  }

  lemma U32OfLe32(s: bytes, i: nat, n: u32)
    requires i + 4 <= |s| && s[i..i + 4] == Le32(n)
    ensures U32(s, i) == n
  {
    var w := s[i..i + 4];
    assert s[i] == w[0] && s[i + 1] == w[1] && s[i + 2] == w[2] && s[i + 3] == w[3];
    JoinedLe32(n);
  }

  lemma Le16OfU16(s: bytes, i: nat)
    requires i + 2 <= |s|
    ensures Le16(U16(s, i)) == s[i..i + 2]
  {
    Join16Splits(0, s[i], s[i + 1]);
  }

  lemma Le32OfU32(s: bytes, i: nat)
    requires i + 4 <= |s|
    ensures Le32(U32(s, i)) == s[i..i + 4]
  {
    Le32OfJoin32(s[i], s[i + 1], s[i + 2], s[i + 3]);
  }

  lemma ByteSuccessor(b: byte)
    requires b != 0xFF
    ensures (b + 1) as int == b as int + 1
  {
  }

  /** The byte with value n: a truncating `as u8` applied to a number that fits. */
  function ByteOf(n: nat): (b: byte)
    requires n < 256
    ensures b as int == n
  {
    if n == 0 then 0 else
      ByteSuccessor(ByteOf(n - 1));
      ByteOf(n - 1) + 1
  }

  /** The number a little-endian pair of bytes stands for. */
  function Value(lo: byte, hi: byte): nat {
    lo as int + 256 * (hi as int)
  }

  lemma ValueInNumbers(lo: byte, hi: byte)
    ensures Value(lo, hi) == lo as int + 256 * (hi as int)
  {
  }

  lemma ByteOfValue(b: byte)
    ensures ByteOf(b as int) == b
  {
    SameValueSameByte(ByteOf(b as int), b);
  }

  lemma SameValueSameByte(b: byte, c: byte)
    requires b as int == c as int
    ensures b == c
  {
    assert (b as int) as byte == b && (c as int) as byte == c;
  }

  /** `(n & 0xFF) as u8`. */
  function Low(n: nat): byte {
    ByteOf(n % 256)
  }

  /** `((n >> 8) & 0xFF) as u8`. */
  function High(n: nat): byte {
    ByteOf(n / 256 % 256)
  }

  /** A pair of bytes keeps a number up to 65535 and truncates a larger one. */
  lemma ValueOfPair(n: nat)
    ensures Value(Low(n), High(n)) == n % 0x1_0000
  {
  }

  lemma SplitBase256(l: nat, h: nat)
    requires l < 256
    ensures (l + 256 * h) % 256 == l && (l + 256 * h) / 256 == h
  {
  }

  lemma PairOfNumbers(l: nat, h: nat)
    requires l < 256 && h < 256
    ensures Low(l + 256 * h) == ByteOf(l) && High(l + 256 * h) == ByteOf(h)
  {
    SplitBase256(l, h);
    assert h % 256 == h;
  }

  lemma PairOfValue(lo: byte, hi: byte)
    ensures Low(Value(lo, hi)) == lo && High(Value(lo, hi)) == hi
    ensures Value(lo, hi) < 0x1_0000
  {
    hide Low, High, ByteOf;
    PairOfNumbers(lo as int, hi as int);
    ByteOfValue(lo);
    ByteOfValue(hi);
  }
}
