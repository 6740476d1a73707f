/** The FCS-16 of section C.2 of RFC 1662: a table-driven update, its bitwise meaning,
    the good-FCS residue and the corruptions it detects. */
module Fcs {
  import opened Bytes

  const INIT: u16 := 0xFFFF
  const GOOD_RESIDUE: u16 := 0xF0B8

  /** One step of the shift register with the reversed polynomial 0x8408. */
  function Shift(v: u16): u16 {
    if v & 1 != 0 then (v >> 1) ^ 0x8408 else v >> 1
  }

  function Shifts(v: u16, n: nat): u16 {
    if n == 0 then v else Shift(Shifts(v, n - 1))
  }

  /** The byte enters the low half of the register. */
  function Mix(s: u16, b: byte): u16 {
    s ^ (b as u16)
  }

  /** The bitwise reference: the byte enters the low half, then eight register steps. */
  function Absorb(s: u16, b: byte): u16 {
    Shifts(Mix(s, b), 8)
  }

  function AbsorbAll(s: u16, data: bytes): u16 {
    if data == [] then s else Absorb(AbsorbAll(s, data[..|data| - 1]), data[|data| - 1])
  }

  /** The final complement. */
  function Finish(s: u16): u16 {
    s ^ 0xFFFF
  }

  /** The checksum as emitted on the wire. */
  function Fcs(data: bytes): u16 {
    Finish(AbsorbAll(INIT, data))
  }

  function Table(): (t: seq<u16>)
    ensures |t| == 256
  {
    seq(256, i requires 0 <= i < 256 => Shifts(i as u16, 8))
  }

  /** The nested loops that fill the table. */
  method BuildTable() returns (table: array<u16>)
    ensures fresh(table) && table[..] == Table()
  {
    table := new u16[256];
    for b := 0 to 256
      invariant forall k :: 0 <= k < b ==> table[k] == Shifts(k as u16, 8)
    {
      var v := b as u16;
      for i := 0 to 8
        invariant v == Shifts(b as u16, i)
      {
        if v & 1 != 0 {
          v := (v >> 1) ^ 0x8408;
        } else {
          v := v >> 1;
        }
      }
      table[b] := v;
    }
  }

  /** The halves of the register, and the sum of two registers. */
  function Top(v: u16): u16 {
    v >> 8
  }

  function Bottom(v: u16): u16 {
    v & 0xFF
  }

  function Xor(v: u16, w: u16): u16 {
    v ^ w
  }

  /** The table-driven update. */
  function TableStep(s: u16, b: byte): u16 {
    var index := Bottom(Mix(s, b));
    Xor(Top(s), Table()[index as int])
  }

  /** The streaming calculator. */
  class Fcs16 {
    var state: u16

    constructor ()
      ensures state == INIT
    {
      state := INIT;
    }

    method Update(b: byte)
      modifies this
      ensures state == Absorb(old(state), b)
    {
      TableStepIsBitwise(state, b);
      state := TableStep(state, b);
    }

    method UpdateSlice(data: bytes)
      modifies this
      ensures state == AbsorbAll(old(state), data)
    {
      for i := 0 to |data|
        invariant state == AbsorbAll(old(state), data[..i])
      {
        assert data[..i + 1][..i] == data[..i];
        Update(data[i]);
      }
      assert data[..|data|] == data;
    }

    method Finalize() returns (fcs: u16)
      ensures fcs == Finish(state)
    {
      fcs := Finish(state);
    }
  }

  /** The one-call form. */
  method Compute(data: bytes) returns (fcs: u16)
    ensures fcs == Fcs(data)
  {
    var f := new Fcs16();
    f.UpdateSlice(data);
    fcs := f.Finalize();
  }

  /** The checksum of the digits 1 to 9. */
  lemma CheckValue()
    ensures Fcs([0x31, 0x32, 0x33, 0x34, 0x35, 0x36, 0x37, 0x38, 0x39]) == 0x906E
  {
    hide Absorb, AbsorbAll;
    CheckValueSteps();
    AbsorbNone(0xFFFF);
    var d3 := [] + [0x31] + [0x32] + [0x33];
    AbsorbOneMore(0xFFFF, [], 0x31);
    AbsorbOneMore(0xFFFF, [] + [0x31], 0x32);
    AbsorbOneMore(0xFFFF, [] + [0x31] + [0x32], 0x33);
    AbsorbOneMore(0xFFFF, d3, 0x34);
    AbsorbOneMore(0xFFFF, d3 + [0x34], 0x35);
    AbsorbOneMore(0xFFFF, d3 + [0x34] + [0x35], 0x36);
    var d6 := d3 + [0x34] + [0x35] + [0x36];
    AbsorbOneMore(0xFFFF, d6, 0x37);
    AbsorbOneMore(0xFFFF, d6 + [0x37], 0x38);
    AbsorbOneMore(0xFFFF, d6 + [0x37] + [0x38], 0x39);
    assert d6 + [0x37] + [0x38] + [0x39] == [0x31, 0x32, 0x33, 0x34, 0x35, 0x36, 0x37, 0x38, 0x39];
  }

  lemma AbsorbNone(s: u16)
    ensures AbsorbAll(s, []) == s
  {
  }

  lemma AbsorbOneMore(s: u16, data: bytes, b: byte)
    ensures AbsorbAll(s, data + [b]) == Absorb(AbsorbAll(s, data), b)
  {
    hide Absorb;
    assert (data + [b])[..|data|] == data;
  }

  lemma CheckValueSteps()
    ensures Absorb(0xFFFF, 0x31) == 0x2F8D && Absorb(0x2F8D, 0x32) == 0x4D53 && Absorb(0x4D53, 0x33) == 0x634B
    ensures Absorb(0x634B, 0x34) == 0x8B13 && Absorb(0x8B13, 0x35) == 0x44BF && Absorb(0x44BF, 0x36) == 0x198D
    ensures Absorb(0x198D, 0x37) == 0x1AC8 && Absorb(0x1AC8, 0x38) == 0xF795 && Absorb(0xF795, 0x39) == 0x6F91
  {
    hide Absorb;
    AbsorbIsEight(0xFFFF, 0x31);
    AbsorbIsEight(0x2F8D, 0x32);
    AbsorbIsEight(0x4D53, 0x33);
    AbsorbIsEight(0x634B, 0x34);
    AbsorbIsEight(0x8B13, 0x35);
    AbsorbIsEight(0x44BF, 0x36);
    AbsorbIsEight(0x198D, 0x37);
    AbsorbIsEight(0x1AC8, 0x38);
    AbsorbIsEight(0xF795, 0x39);
  }

  /** What the low half of the register turns into over eight steps. */
  function Fold(v: u16): u16 {
    (v ^ (v << 4)) & 0xFF
  }

  function Spread(t: u16): u16 {
    (t << 8) ^ (t << 3) ^ (t >> 4)
  }

  /** Eight register steps in one expression, without branches. */
  function Eight(v: u16): u16 {
    Xor(Top(v), Spread(Fold(v)))
  }

  /** One of them, two and four: what is shifted down, and what the bits shifted out add. */
  function AddOne(n: u16): u16 {
    (n << 15) ^ (n << 10) ^ (n << 3)
  }

  function AddTwo(n: u16): u16 {
    (n << 14) ^ (n << 9) ^ (n << 2)
  }

  function AddFour(n: u16): u16 {
    n ^ (n << 7) ^ (n << 12)
  }

  function DownOne(v: u16): u16 {
    v >> 1
  }

  function DownTwo(v: u16): u16 {
    v >> 2
  }

  function DownFour(v: u16): u16 {
    v >> 4
  }

  function LastOne(v: u16): u16 {
    v & 0x1
  }

  function LastTwo(v: u16): u16 {
    v & 0x3
  }

  function LastFour(v: u16): u16 {
    v & 0xF
  }

  function One(v: u16): u16 {
    Xor(DownOne(v), AddOne(LastOne(v)))
  }

  function Two(v: u16): u16 {
    Xor(DownTwo(v), AddTwo(LastTwo(v)))
  }

  function Four(v: u16): u16 {
    Xor(DownFour(v), AddFour(LastFour(v)))
  }

  lemma ShiftByLast(v: u16)
    ensures LastOne(v) == 0 || LastOne(v) == 1
    ensures Shift(v) == if LastOne(v) == 1 then Xor(DownOne(v), 0x8408) else DownOne(v)
  {
  }

  lemma AddOneConstants()
    ensures AddOne(0) == 0 && AddOne(1) == 0x8408
  {
  }

  lemma XorNothing(v: u16)
    ensures Xor(v, 0) == v
  {
  }

  lemma OneShift(v: u16)
    ensures Shift(v) == One(v)
  {
    hide Shift, Xor, DownOne, LastOne, AddOne;
    ShiftByLast(v);
    AddOneConstants();
    XorNothing(DownOne(v));
  }

  lemma XorAssociates(a: u16, b: u16, c: u16)
    ensures Xor(Xor(a, b), c) == Xor(a, Xor(b, c))
  {
  }

  lemma DownOneOfXor(a: u16, b: u16)
    ensures DownOne(Xor(a, b)) == Xor(DownOne(a), DownOne(b))
  {
  }

  lemma LastOneOfXor(a: u16, b: u16)
    ensures LastOne(Xor(a, b)) == Xor(LastOne(a), LastOne(b))
  {
  }

  lemma DownOneTwice(v: u16)
    ensures DownOne(DownOne(v)) == DownTwo(v)
  {
  }

  lemma AddedByTwo(v: u16)
    ensures var n := AddOne(LastOne(v));
      AddTwo(LastTwo(v)) == Xor(DownOne(n), AddOne(Xor(LastOne(DownOne(v)), LastOne(n))))
  {
  }

  lemma OneTwice(v: u16)
    ensures One(One(v)) == Two(v)
  {
    hide Xor, AddOne, AddTwo, DownOne, DownTwo, LastOne, LastTwo;
    var n := AddOne(LastOne(v));
    DownOneOfXor(DownOne(v), n);
    LastOneOfXor(DownOne(v), n);
    DownOneTwice(v);
    AddedByTwo(v);
    XorAssociates(DownOne(DownOne(v)), DownOne(n), AddOne(Xor(LastOne(DownOne(v)), LastOne(n))));
  }

  lemma DownTwoOfXor(a: u16, b: u16)
    ensures DownTwo(Xor(a, b)) == Xor(DownTwo(a), DownTwo(b))
  {
  }

  lemma LastTwoOfXor(a: u16, b: u16)
    ensures LastTwo(Xor(a, b)) == Xor(LastTwo(a), LastTwo(b))
  {
  }

  lemma DownTwoTwice(v: u16)
    ensures DownTwo(DownTwo(v)) == DownFour(v)
  {
  }

  lemma AddedByFour(v: u16)
    ensures var n := AddTwo(LastTwo(v));
      AddFour(LastFour(v)) == Xor(DownTwo(n), AddTwo(Xor(LastTwo(DownTwo(v)), LastTwo(n))))
  {
  }

  lemma TwoTwice(v: u16)
    ensures Two(Two(v)) == Four(v)
  {
    hide Xor, AddTwo, AddFour, DownTwo, DownFour, LastTwo, LastFour;
    var n := AddTwo(LastTwo(v));
    DownTwoOfXor(DownTwo(v), n);
    LastTwoOfXor(DownTwo(v), n);
    DownTwoTwice(v);
    AddedByFour(v);
    XorAssociates(DownTwo(DownTwo(v)), DownTwo(n), AddTwo(Xor(LastTwo(DownTwo(v)), LastTwo(n))));
  }

  lemma DownFourOfXor(a: u16, b: u16)
    ensures DownFour(Xor(a, b)) == Xor(DownFour(a), DownFour(b))
  {
  }

  lemma LastFourOfXor(a: u16, b: u16)
    ensures LastFour(Xor(a, b)) == Xor(LastFour(a), LastFour(b))
  {
  }

  lemma DownFourTwice(v: u16)
    ensures DownFour(DownFour(v)) == Top(v)
  {
  }

  lemma AddedByEight(v: u16)
    ensures var n := AddFour(LastFour(v));
      Spread(Fold(v)) == Xor(DownFour(n), AddFour(Xor(LastFour(DownFour(v)), LastFour(n))))
  {
  }

  lemma FourTwice(v: u16)
    ensures Four(Four(v)) == Eight(v)
  {
    hide Xor, AddFour, DownFour, LastFour, Spread, Fold, Top;
    var n := AddFour(LastFour(v));
    DownFourOfXor(DownFour(v), n);
    LastFourOfXor(DownFour(v), n);
    DownFourTwice(v);
    AddedByEight(v);
    XorAssociates(DownFour(DownFour(v)), DownFour(n), AddFour(Xor(LastFour(DownFour(v)), LastFour(n))));
  }

  lemma TwoShifts(v: u16)
    ensures Shift(Shift(v)) == Two(v)
  {
    hide Shift, One, Two;
    OneShift(v);
    OneShift(One(v));
    OneTwice(v);
  }

  lemma EightIsEightShifts(v: u16)
    ensures Shifts(v, 8) == Eight(v)
  {
    hide Shift, Shifts, Eight, Four;
    FourMore(v, 0);
    FourMore(v, 4);
    assert Shifts(v, 0) == v by { NoShifts(v); }
    FourTwice(v);
  }

  lemma NoShifts(v: u16)
    ensures Shifts(v, 0) == v
  {
  }

  lemma FourMore(v: u16, n: nat)
    ensures Shifts(v, n + 4) == Four(Shifts(v, n))
  {
    hide Shift, Two, Four;
    TwoShifts(Shifts(v, n));
    TwoShifts(Shifts(v, n + 2));
    TwoTwice(Shifts(v, n));
    assert Shifts(v, n + 2) == Shift(Shift(Shifts(v, n)));
    assert Shifts(v, n + 4) == Shift(Shift(Shifts(v, n + 2)));
  }

  lemma TableEntry(index: u16)
    requires index <= 0xFF
    ensures 0 <= index as int < 256
    ensures Table()[index as int] == Eight(index)
  {
    hide Shifts, Eight;
    assert (index as int) as u16 == index;
    EightIsEightShifts(index);
  }

  lemma BottomIsSmall(v: u16)
    ensures Bottom(v) <= 0xFF && Top(Bottom(v)) == 0
  {
  }

  lemma FoldOfBottom(v: u16)
    ensures Fold(Bottom(v)) == Fold(v)
  {
  }

  lemma XorZero(v: u16)
    ensures Xor(0, v) == v
  {
  }

  lemma EightByHalves(v: u16)
    ensures Eight(v) == Xor(Top(v), Eight(Bottom(v)))
  {
    hide Fold, Spread, Top, Bottom, Xor;
    BottomIsSmall(v);
    FoldOfBottom(v);
    XorZero(Spread(Fold(v)));
  }

  lemma MixKeepsTop(s: u16, b: byte)
    ensures Top(Mix(s, b)) == Top(s)
  {
  }

  lemma EightOfMix(s: u16, b: byte)
    ensures Eight(Mix(s, b)) == Xor(Top(s), Eight(Bottom(Mix(s, b))))
  {
    hide *;
    EightByHalves(Mix(s, b));
    MixKeepsTop(s, b);
  }

  lemma AbsorbIsEight(s: u16, b: byte)
    ensures Absorb(s, b) == Eight(Mix(s, b))
  {
    hide Shifts, Eight, Mix;
    EightIsEightShifts(Mix(s, b));
  }

  /** The table-driven update is eight steps of the shift register, for every state and byte. */
  lemma TableStepIsBitwise(s: u16, b: byte)
    ensures TableStep(s, b) == Absorb(s, b)
  {
    hide Shifts, Table, Eight, Mix, Top, Bottom, Xor;
    BottomIsSmall(Mix(s, b));
    TableEntry(Bottom(Mix(s, b)));
    AbsorbIsEight(s, b);
    EightOfMix(s, b);
  }

  lemma {:induction false} AbsorbAllConcat(s: u16, a: bytes, b: bytes)
    ensures AbsorbAll(s, a + b) == AbsorbAll(AbsorbAll(s, a), b)
  {
    hide Absorb;
    if b == [] {
      assert a + b == a;
    } else {
      assert (a + b)[..|a + b| - 1] == a + b[..|b| - 1];
      AbsorbAllConcat(s, a, b[..|b| - 1]);
    }
  }

  lemma AbsorbTwo(s: u16, a: byte, b: byte)
    ensures AbsorbAll(s, [a, b]) == Absorb(Absorb(s, a), b)
  {
    hide Absorb;
    assert [a, b][..1] == [a];
    assert [a][..0] == [];
    assert AbsorbAll(s, [a]) == Absorb(AbsorbAll(s, []), a);
  }

  lemma ComplementFillsLow(s: u16, lo: byte, hi: byte)
    requires [lo, hi] == Le16(Finish(s))
    ensures Bottom(Mix(s, lo)) == 0xFF
    ensures Mix(Xor(Top(s), 0x0F78), hi) == 0x0F87
  {
    assert lo == [lo, hi][0] && hi == [lo, hi][1];
  }

  lemma EightConstants()
    ensures Eight(0xFF) == 0x0F78 && Eight(0x0F87) == GOOD_RESIDUE
  {
  }

  /** Absorbing the complemented register always leaves the good residue. */
  lemma AbsorbComplement(s: u16, lo: byte, hi: byte)
    requires [lo, hi] == Le16(Finish(s))
    ensures AbsorbAll(s, [lo, hi]) == GOOD_RESIDUE
  {
    hide Absorb, AbsorbAll, Mix, Finish, Eight, Top, Bottom, Xor;
    AbsorbTwo(s, lo, hi);
    ComplementFillsLow(s, lo, hi);
    AbsorbIsEight(s, lo);
    EightOfMix(s, lo);
    AbsorbIsEight(Xor(Top(s), 0x0F78), hi);
    EightConstants();
  }

  /** What every receiver may check: data followed by its FCS, low byte first, leaves the
      register at the good-FCS residue. */
  lemma FcsLeavesGoodResidue(data: bytes)
    ensures AbsorbAll(INIT, data + Le16(Fcs(data))) == GOOD_RESIDUE
  {
    hide AbsorbAll, Finish;
    AbsorbAllConcat(INIT, data, Le16(Fcs(data)));
    AbsorbComplement(AbsorbAll(INIT, data), Le16(Fcs(data))[0], Le16(Fcs(data))[1]);
  }

  function FoldTop(t: u16): u16 {
    t ^ (t >> 5)
  }

  lemma TopOfSpread(h: u16, t: u16)
    requires h <= 0xFF && t <= 0xFF
    ensures Top(Xor(h, Spread(t))) == FoldTop(t)
  {
  }

  lemma TopOfEight(v: u16)
    ensures Top(Eight(v)) == FoldTop(Fold(v)) && Fold(v) <= 0xFF
  {
    hide Spread, FoldTop, Xor;
    TopOfSpread(Top(v), Fold(v));
  }

  lemma FoldTold(t: u16, u: u16)
    requires t <= 0xFF && u <= 0xFF && FoldTop(t) == FoldTop(u)
    ensures t == u
  {
  }

  lemma FoldTellsBottom(v: u16, w: u16)
    requires Fold(v) == Fold(w)
    ensures Bottom(v) == Bottom(w)
  {
  }

  lemma TopTellsBottom(v: u16, w: u16)
    requires Top(Eight(v)) == Top(Eight(w))
    ensures Bottom(v) == Bottom(w)
  {
    hide *;
    TopOfEight(v);
    TopOfEight(w);
    FoldTold(Fold(v), Fold(w));
    FoldTellsBottom(v, w);
  }

  lemma XorCancels(v: u16, w: u16, c: u16)
    requires Xor(v, c) == Xor(w, c)
    ensures v == w
  {
  }

  lemma HalvesMakeWord(v: u16, w: u16)
    requires Top(v) == Top(w) && Bottom(v) == Bottom(w)
    ensures v == w
  {
  }

  lemma EightIsInjective(v: u16, w: u16)
    requires Eight(v) == Eight(w)
    ensures v == w
  {
    hide *;
    TopTellsBottom(v, w);
    EightByHalves(v);
    EightByHalves(w);
    XorCancels(Top(v), Top(w), Eight(Bottom(v)));
    HalvesMakeWord(v, w);
  }

  lemma MixCancels(s: u16, t: u16, b: byte)
    requires Mix(s, b) == Mix(t, b)
    ensures s == t
  {
  }

  lemma AbsorbIsInjective(s: u16, t: u16, b: byte)
    requires Absorb(s, b) == Absorb(t, b)
    ensures s == t
  {
    hide *;
    AbsorbIsEight(s, b);
    AbsorbIsEight(t, b);
    EightIsInjective(Mix(s, b), Mix(t, b));
    MixCancels(s, t, b);
  }

  lemma {:induction false} AbsorbAllIsInjective(s: u16, t: u16, data: bytes)
    requires AbsorbAll(s, data) == AbsorbAll(t, data)
    ensures s == t
  {
    hide Absorb;
    if data != [] {
      var init, last := data[..|data| - 1], data[|data| - 1];
      AbsorbIsInjective(AbsorbAll(s, init), AbsorbAll(t, init), last);
      AbsorbAllIsInjective(s, t, init);
    }
  }

  lemma MixTellsByte(s: u16, a: byte, c: byte)
    requires Bottom(Mix(s, a)) == Bottom(Mix(s, c))
    ensures a == c
  {
  }

  lemma FirstByteTold(s: u16, a: byte, c: byte)
    requires Top(Absorb(s, a)) == Top(Absorb(s, c))
    ensures a == c
  {
    hide *;
    AbsorbIsEight(s, a);
    AbsorbIsEight(s, c);
    TopTellsBottom(Mix(s, a), Mix(s, c));
    MixTellsByte(s, a, c);
  }

  /** From a fixed state, two absorbed bytes can be told from the state they leave. */
  lemma PairIsInjective(s: u16, a: byte, b: byte, c: byte, d: byte)
    requires Absorb(Absorb(s, a), b) == Absorb(Absorb(s, c), d)
    ensures a == c && b == d
  {
    hide *;
    var x, y := Absorb(s, a), Absorb(s, c);
    AbsorbIsEight(x, b);
    AbsorbIsEight(y, d);
    EightIsInjective(Mix(x, b), Mix(y, d));
    MixKeepsTop(x, b);
    MixKeepsTop(y, d);
    FirstByteTold(s, a, c);
    MixTellsByte(x, b, d);
  }

  /** Any corruption confined to two adjacent bytes changes the checksum. */
  lemma AdjacentCorruptionDetected(head: bytes, a: byte, b: byte, c: byte, d: byte, tail: bytes)
    requires a != c || b != d
    ensures Fcs(head + [a, b] + tail) != Fcs(head + [c, d] + tail)
  {
    hide Absorb, AbsorbAll, Finish;
    var s := AbsorbAll(INIT, head);
    AbsorbAllConcat(INIT, head + [a, b], tail);
    AbsorbAllConcat(INIT, head + [c, d], tail);
    AbsorbAllConcat(INIT, head, [a, b]);
    AbsorbAllConcat(INIT, head, [c, d]);
    var x, y := AbsorbAll(s, [a, b]), AbsorbAll(s, [c, d]);
    if AbsorbAll(x, tail) == AbsorbAll(y, tail) {
      AbsorbAllIsInjective(x, y, tail);
      AbsorbTwo(s, a, b);
      AbsorbTwo(s, c, d);
      PairIsInjective(s, a, b, c, d);
    }
    ComplementIsInjective(AbsorbAll(x, tail), AbsorbAll(y, tail));
  }

  lemma ComplementIsInjective(x: u16, y: u16)
    ensures Finish(x) == Finish(y) ==> x == y
  {
  }

  // ---------------------------------------------------------------- bursts

  /** The low s bits of a byte, and the others. */
  function LowMask(s: nat): byte
    requires s < 8
  {
    if s == 0 then 0 else if s == 1 then 1 else if s == 2 then 3 else if s == 3 then 7
    else if s == 4 then 15 else if s == 5 then 31 else if s == 6 then 63 else 127
  }

  predicate IsLowMask(low: byte) {
    low == 0 || low == 1 || low == 3 || low == 7 || low == 15 || low == 31 || low == 63 || low == 127
  }

  function Others(low: byte): byte {
    low ^ 0xFF
  }

  /** Two bytes, or two registers, agree where the mask is set. */
  predicate BytesAgree(a: byte, b: byte, mask: byte) {
    a & mask == b & mask
  }

  predicate Agree(v: u16, w: u16, mask: byte) {
    v & (mask as u16) == w & (mask as u16)
  }

  lemma AgreeThroughMix(s: u16, t: u16, a: byte, b: byte, mask: byte)
    requires Mix(s, a) == Mix(t, b) && BytesAgree(a, b, mask)
    ensures Top(s) == Top(t) && Agree(s, t, mask)
  {
  }

  lemma AgreeThroughXor(v: u16, w: u16, c: u16, mask: byte)
    requires Agree(Xor(v, c), Xor(w, c), mask)
    ensures Agree(v, w, mask)
  {
  }

  lemma TopsAgree(v: u16, w: u16, mask: byte)
    requires Bottom(v) == Bottom(w) && Agree(Eight(v), Eight(w), mask)
    ensures Agree(Top(v), Top(w), mask)
  {
    hide *;
    EightByHalves(v);
    EightByHalves(w);
    AgreeThroughXor(Top(v), Top(w), Eight(Bottom(v)), mask);
  }

  lemma MixesAgree(s: u16, a: byte, b: byte, mask: byte)
    requires BytesAgree(a, b, mask)
    ensures Agree(Mix(s, a), Mix(s, b), mask)
  {
  }

  lemma FoldsAgree(v: u16, w: u16, low: byte)
    requires IsLowMask(low) && Agree(v, w, low)
    ensures Agree(Fold(v), Fold(w), low)
  {
  }

  lemma FoldsAreSame(t: u16, u: u16, low: byte)
    requires IsLowMask(low) && t <= 0xFF && u <= 0xFF
    requires Agree(t, u, low) && Agree(FoldTop(t), FoldTop(u), Others(low))
    ensures t == u
  {
  }

  lemma FirstOfBurst(s: u16, a: byte, d: byte, low: byte)
    requires IsLowMask(low) && BytesAgree(a, d, low)
    requires Agree(Top(Eight(Mix(s, a))), Top(Eight(Mix(s, d))), Others(low))
    ensures a == d
  {
    hide *;
    TopOfEight(Mix(s, a));
    TopOfEight(Mix(s, d));
    MixesAgree(s, a, d, low);
    FoldsAgree(Mix(s, a), Mix(s, d), low);
    FoldsAreSame(Fold(Mix(s, a)), Fold(Mix(s, d)), low);
    FoldTellsBottom(Mix(s, a), Mix(s, d));
    MixTellsByte(s, a, d);
  }

  /** From a fixed state, three bytes can be told from the state they leave, as long as the
      first ones agree in their low bits and the last ones in the others. */
  lemma BurstIsInjective(s: u16, a: byte, b: byte, c: byte, d: byte, e: byte, f: byte, low: byte)
    requires IsLowMask(low) && BytesAgree(a, d, low) && BytesAgree(c, f, Others(low))
    requires Absorb(Absorb(Absorb(s, a), b), c) == Absorb(Absorb(Absorb(s, d), e), f)
    ensures a == d && b == e && c == f
  {
    hide *;
    var x1, y1 := Absorb(s, a), Absorb(s, d);
    var x2, y2 := Absorb(x1, b), Absorb(y1, e);
    AbsorbIsEight(x2, c);
    AbsorbIsEight(y2, f);
    EightIsInjective(Mix(x2, c), Mix(y2, f));
    AgreeThroughMix(x2, y2, c, f, Others(low));
    AbsorbIsEight(x1, b);
    AbsorbIsEight(y1, e);
    TopTellsBottom(Mix(x1, b), Mix(y1, e));
    TopsAgree(Mix(x1, b), Mix(y1, e), Others(low));
    MixKeepsTop(x1, b);
    MixKeepsTop(y1, e);
    AbsorbIsEight(s, a);
    AbsorbIsEight(s, d);
    FirstOfBurst(s, a, d, low);
    PairIsInjective(x1, b, c, e, f);
  }

  // ---------------------------------------------------------------- bits

  function Bit(k: nat): byte
    requires k < 8
  {
    if k == 0 then 1 else if k == 1 then 2 else if k == 2 then 4 else if k == 3 then 8
    else if k == 4 then 16 else if k == 5 then 32 else if k == 6 then 64 else 128
  }

  predicate BitOf(b: byte, k: nat)
    requires k < 8
  {
    b & Bit(k) != 0
  }

  /** Two messages are the same except inside the sixteen bits from bit p on, counted as they go
      out: byte after byte, each with its lowest bit first. */
  predicate SameOutside(x: bytes, y: bytes, p: nat) {
    && |x| == |y|
    && forall j, k :: 0 <= j < |x| && 0 <= k < 8 && !(p <= 8 * j + k < p + 16) ==> BitOf(x[j], k) == BitOf(y[j], k)
  }

  lemma BitsMakeByte(a: byte, b: byte)
    requires forall k :: 0 <= k < 8 ==> BitOf(a, k) == BitOf(b, k)
    ensures a == b
  {
    assert BitOf(a, 0) == BitOf(b, 0) && BitOf(a, 1) == BitOf(b, 1) && BitOf(a, 2) == BitOf(b, 2);
    assert BitOf(a, 3) == BitOf(b, 3) && BitOf(a, 4) == BitOf(b, 4) && BitOf(a, 5) == BitOf(b, 5);
    assert BitOf(a, 6) == BitOf(b, 6) && BitOf(a, 7) == BitOf(b, 7);
  }

  lemma MaskSteps(s: nat)
    requires s < 8
    ensures IsLowMask(LowMask(s))
    ensures s > 0 ==> LowMask(s) == LowMask(s - 1) | Bit(s - 1)
    ensures Others(LowMask(s)) == (if s == 7 then 0 else Others(LowMask(s + 1))) | Bit(s)
  {
  }

  predicate IsSingle(bit: byte) {
    bit == 1 || bit == 2 || bit == 4 || bit == 8 || bit == 16 || bit == 32 || bit == 64 || bit == 128
  }

  lemma BitIsSingle(k: nat)
    requires k < 8
    ensures IsSingle(Bit(k))
  {
  }

  predicate SameBit(a: byte, b: byte, bit: byte) {
    (a & bit != 0) == (b & bit != 0)
  }

  lemma OneMoreMask(a: byte, b: byte, mask: byte, bit: byte)
    requires IsSingle(bit) && BytesAgree(a, b, mask) && SameBit(a, b, bit)
    ensures BytesAgree(a, b, mask | bit)
  {
  }

  lemma SameBitOf(a: byte, b: byte, k: nat)
    requires k < 8 && BitOf(a, k) == BitOf(b, k)
    ensures SameBit(a, b, Bit(k))
  {
    hide Bit;
  }

  lemma OneMoreBit(a: byte, b: byte, mask: byte, k: nat)
    requires k < 8 && BytesAgree(a, b, mask) && BitOf(a, k) == BitOf(b, k)
    ensures BytesAgree(a, b, mask | Bit(k))
  {
    hide *;
    BitIsSingle(k);
    SameBitOf(a, b, k);
    OneMoreMask(a, b, mask, Bit(k));
  }

  lemma NoMask(a: byte, b: byte)
    ensures BytesAgree(a, b, 0)
  {
  }

  lemma {:induction false} LowBitsAgree(a: byte, b: byte, s: nat)
    requires s < 8 && forall k :: 0 <= k < s ==> BitOf(a, k) == BitOf(b, k)
    ensures BytesAgree(a, b, LowMask(s)) && IsLowMask(LowMask(s))
  {
    hide BitOf, Bit, BytesAgree, IsLowMask;
    MaskSteps(s);
    if s == 0 {
      NoMask(a, b);
    } else {
      LowBitsAgree(a, b, s - 1);
      OneMoreBit(a, b, LowMask(s - 1), s - 1);
    }
  }

  lemma {:induction false} HighBitsAgree(a: byte, b: byte, s: nat)
    requires s < 8 && forall k :: s <= k < 8 ==> BitOf(a, k) == BitOf(b, k)
    ensures BytesAgree(a, b, Others(LowMask(s)))
    decreases 8 - s
  {
    hide *;
    MaskSteps(s);
    if s == 7 {
      NoMask(a, b);
      OneMoreBit(a, b, 0, 7);
    } else {
      HighBitsAgree(a, b, s + 1);
      OneMoreBit(a, b, Others(LowMask(s + 1)), s);
    }
  }

  lemma AbsorbThree(s: u16, a: byte, b: byte, c: byte)
    ensures AbsorbAll(s, [a, b, c]) == Absorb(Absorb(Absorb(s, a), b), c)
  {
    hide Absorb;
    assert [a, b, c][..2] == [a, b];
    AbsorbTwo(s, a, b);
  }

  /** Three bytes in the middle of two messages that leave the same state. */
  lemma BurstInMiddle(head: bytes, a: byte, b: byte, c: byte, d: byte, e: byte, f: byte, tail: bytes, low: byte)
    requires IsLowMask(low) && BytesAgree(a, d, low) && BytesAgree(c, f, Others(low))
    requires AbsorbAll(INIT, head + [a, b, c] + tail) == AbsorbAll(INIT, head + [d, e, f] + tail)
    ensures a == d && b == e && c == f
  {
    hide *;
    var s := AbsorbAll(INIT, head);
    AbsorbAllConcat(INIT, head + [a, b, c], tail);
    AbsorbAllConcat(INIT, head + [d, e, f], tail);
    AbsorbAllConcat(INIT, head, [a, b, c]);
    AbsorbAllConcat(INIT, head, [d, e, f]);
    AbsorbAllIsInjective(AbsorbAll(s, [a, b, c]), AbsorbAll(s, [d, e, f]), tail);
    AbsorbThree(s, a, b, c);
    AbsorbThree(s, d, e, f);
    BurstIsInjective(s, a, b, c, d, e, f, low);
  }

  lemma ThreeInMiddle(u: bytes, q: nat)
    requires q + 3 <= |u|
    ensures u == u[..q] + [u[q], u[q + 1], u[q + 2]] + u[q + 3..]
  {
  }

  /** Messages that are the same outside sixteen consecutive bits are the same, if they end in
      three bytes they share and leave the same state. */
  lemma SameStateSameMessage(u: bytes, v: bytes, p: nat)
    requires SameOutside(u, v, p) && p / 8 + 3 <= |u| && AbsorbAll(INIT, u) == AbsorbAll(INIT, v)
    ensures u == v
  {
    hide AbsorbAll, BitOf, LowMask, Others, BytesAgree, IsLowMask;
    var q, s := p / 8, p % 8;
    forall j | 0 <= j < |u| && (j < q || j > q + 2) ensures u[j] == v[j] {
      BitsMakeByte(u[j], v[j]);
    }
    LowBitsAgree(u[q], v[q], s);
    HighBitsAgree(u[q + 2], v[q + 2], s);
    ThreeInMiddle(u, q);
    ThreeInMiddle(v, q);
    assert u[..q] == v[..q] && u[q + 3..] == v[q + 3..];
    BurstInMiddle(u[..q], u[q], u[q + 1], u[q + 2], v[q], v[q + 1], v[q + 2], u[q + 3..], LowMask(s));
  }

  /** Any corruption confined to sixteen consecutive bits changes the checksum, wherever in a
      byte they start. */
  lemma BurstDetected(x: bytes, y: bytes, p: nat)
    requires SameOutside(x, y, p) && x != y
    ensures Fcs(x) != Fcs(y)
  {
    hide AbsorbAll, BitOf, Finish;
    var pad: bytes := [0, 0, 0];
    AbsorbAllConcat(INIT, x, pad);
    AbsorbAllConcat(INIT, y, pad);
    ComplementIsInjective(AbsorbAll(INIT, x), AbsorbAll(INIT, y));
    PaddedSame(x, y, pad, p);
    assert p / 8 < |x| by {
      if p / 8 >= |x| {
        NoBurstNoChange(x, y, p);
      }
    }
    if Fcs(x) == Fcs(y) {
      SameStateSameMessage(x + pad, y + pad, p);
    }
  }

  lemma PaddedSame(x: bytes, y: bytes, pad: bytes, p: nat)
    requires SameOutside(x, y, p)
    ensures SameOutside(x + pad, y + pad, p)
    ensures x + pad == y + pad ==> x == y
  {
    hide BitOf;
    assert (x + pad)[..|x|] == x && (y + pad)[..|y|] == y;
  }

  lemma NoBurstNoChange(x: bytes, y: bytes, p: nat)
    requires SameOutside(x, y, p) && p / 8 >= |x|
    ensures x == y
  {
    hide BitOf;
    forall j | 0 <= j < |x| ensures x[j] == y[j] {
      BitsMakeByte(x[j], y[j]);
    }
  }
}
