/** The register keeps the parity of what it absorbs, so an odd number of flipped bits shows. */
module Parity {
  import opened Bytes
  import Fcs

  function BitMask(k: nat): u16
    requires k < 16
  {
    if k < 8 then
      if k == 0 then 0x0001 else if k == 1 then 0x0002 else if k == 2 then 0x0004 else if k == 3 then 0x0008
      else if k == 4 then 0x0010 else if k == 5 then 0x0020 else if k == 6 then 0x0040 else 0x0080
    else
      if k == 8 then 0x0100 else if k == 9 then 0x0200 else if k == 10 then 0x0400 else if k == 11 then 0x0800
      else if k == 12 then 0x1000 else if k == 13 then 0x2000 else if k == 14 then 0x4000 else 0x8000
  }

  function Masked(v: u16, m: u16): u16 {
    v & m
  }

  predicate BitAt(v: u16, k: nat)
    requires k < 16
  {
    Masked(v, BitMask(k)) != 0
  }

  /** Whether an odd number of the n lowest bits are set. */
  predicate OddUpTo(v: u16, n: nat)
    requires n <= 16
  {
    if n == 0 then false else BitAt(v, n - 1) != OddUpTo(v, n - 1)
  }

  predicate Odd(v: u16) {
    OddUpTo(v, 16)
  }

  predicate IsSingle(m: u16) {
    || m == 0x0001 || m == 0x0002 || m == 0x0004 || m == 0x0008 || m == 0x0010 || m == 0x0020 || m == 0x0040
    || m == 0x0080 || m == 0x0100 || m == 0x0200 || m == 0x0400 || m == 0x0800 || m == 0x1000 || m == 0x2000
    || m == 0x4000 || m == 0x8000
  }

  lemma MaskIsSingle(k: nat)
    requires k < 16
    ensures IsSingle(BitMask(k))
  {
  }

  lemma SumUnderMask(v: u16, w: u16, m: u16)
    ensures Masked(Fcs.Xor(v, w), m) == Fcs.Xor(Masked(v, m), Masked(w, m))
  {
  }

  lemma AllOrNothing(v: u16, m: u16)
    requires IsSingle(m)
    ensures Masked(v, m) == 0 || Masked(v, m) == m
  {
  }

  lemma SumsOfMask(m: u16)
    ensures Fcs.Xor(0, 0) == 0 && Fcs.Xor(0, m) == m && Fcs.Xor(m, 0) == m && Fcs.Xor(m, m) == 0
  {
  }

  lemma BitOfSum(v: u16, w: u16, k: nat)
    requires k < 16
    ensures BitAt(Fcs.Xor(v, w), k) == (BitAt(v, k) != BitAt(w, k))
  {
    hide BitMask, Fcs.Xor, IsSingle, Masked;
    var m := BitMask(k);
    MaskIsSingle(k);
    SumUnderMask(v, w, m);
    AllOrNothing(v, m);
    AllOrNothing(w, m);
    SingleIsSet(m);
    SumsOfMask(m);
  }

  lemma SingleIsSet(m: u16)
    requires IsSingle(m)
    ensures m != 0
  {
  }

  lemma {:induction false} OddOfSumUpTo(v: u16, w: u16, n: nat)
    requires n <= 16
    ensures OddUpTo(Fcs.Xor(v, w), n) == (OddUpTo(v, n) != OddUpTo(w, n))
  {
    hide BitAt, Fcs.Xor;
    if n > 0 {
      OddOfSumUpTo(v, w, n - 1);
      BitOfSum(v, w, n - 1);
    }
  }

  lemma OddOfSum(v: u16, w: u16)
    ensures Odd(Fcs.Xor(v, w)) == (Odd(v) != Odd(w))
  {
    hide OddUpTo, Fcs.Xor;
    OddOfSumUpTo(v, w, 16);
  }

  lemma BitOfShift(v: u16, k: nat)
    requires k < 16
    ensures BitAt(v >> 1, k) == (k < 15 && BitAt(v, k + 1))
  {
  }

  lemma {:induction false} OddOfShiftUpTo(v: u16, n: nat)
    requires n <= 15
    ensures OddUpTo(v >> 1, n) == (OddUpTo(v, n + 1) != BitAt(v, 0))
  {
    hide BitAt;
    if n > 0 {
      OddOfShiftUpTo(v, n - 1);
      BitOfShift(v, n - 1);
    } else {
      assert OddUpTo(v, 0) == false;
    }
  }

  lemma OddOfShift(v: u16)
    ensures Odd(v >> 1) == (Odd(v) != BitAt(v, 0))
  {
    hide BitAt;
    OddOfShiftUpTo(v, 15);
    BitOfShift(v, 15);
  }

  /** The polynomial has three bits. */
  lemma PolynomialIsOdd()
    ensures Odd(0x8408)
  {
    hide OddUpTo;
    OddUpToSteps(0x8408);
  }

  lemma OddUpToSteps(v: u16)
    ensures OddUpTo(v, 4) == (BitAt(v, 3) != (BitAt(v, 2) != (BitAt(v, 1) != BitAt(v, 0))))
    ensures OddUpTo(v, 8) == (BitAt(v, 7) != (BitAt(v, 6) != (BitAt(v, 5) != (BitAt(v, 4) != OddUpTo(v, 4)))))
    ensures OddUpTo(v, 12) == (BitAt(v, 11) != (BitAt(v, 10) != (BitAt(v, 9) != (BitAt(v, 8) != OddUpTo(v, 8)))))
    ensures OddUpTo(v, 16) == (BitAt(v, 15) != (BitAt(v, 14) != (BitAt(v, 13) != (BitAt(v, 12) != OddUpTo(v, 12)))))
  {
    hide BitAt;
    assert OddUpTo(v, 1) == BitAt(v, 0) && OddUpTo(v, 2) == (BitAt(v, 1) != OddUpTo(v, 1));
    assert OddUpTo(v, 3) == (BitAt(v, 2) != OddUpTo(v, 2));
    assert OddUpTo(v, 5) == (BitAt(v, 4) != OddUpTo(v, 4)) && OddUpTo(v, 6) == (BitAt(v, 5) != OddUpTo(v, 5));
    assert OddUpTo(v, 7) == (BitAt(v, 6) != OddUpTo(v, 6));
    assert OddUpTo(v, 9) == (BitAt(v, 8) != OddUpTo(v, 8)) && OddUpTo(v, 10) == (BitAt(v, 9) != OddUpTo(v, 9));
    assert OddUpTo(v, 11) == (BitAt(v, 10) != OddUpTo(v, 10));
    assert OddUpTo(v, 13) == (BitAt(v, 12) != OddUpTo(v, 12)) && OddUpTo(v, 14) == (BitAt(v, 13) != OddUpTo(v, 13));
    assert OddUpTo(v, 15) == (BitAt(v, 14) != OddUpTo(v, 14));
  }

  lemma ShiftByBit(v: u16)
    ensures Fcs.Shift(v) == if BitAt(v, 0) then Fcs.Xor(v >> 1, 0x8408) else v >> 1
  {
  }

  /** A register step keeps parity. */
  lemma ShiftKeepsParity(v: u16)
    ensures Odd(Fcs.Shift(v)) == Odd(v)
  {
    hide Odd, BitAt, Fcs.Shift, Fcs.Xor;
    ShiftByBit(v);
    OddOfShift(v);
    OddOfSum(v >> 1, 0x8408);
    PolynomialIsOdd();
  }

  lemma {:induction false} ShiftsKeepParity(v: u16, n: nat)
    ensures Odd(Fcs.Shifts(v, n)) == Odd(v)
  {
    hide Odd, Fcs.Shift;
    if n > 0 {
      ShiftsKeepParity(v, n - 1);
      ShiftKeepsParity(Fcs.Shifts(v, n - 1));
    }
  }

  /** The parity of the register after a byte is that of the register before and of the byte. */
  lemma AbsorbAddsParity(s: u16, b: byte)
    ensures Odd(Fcs.Absorb(s, b)) == (Odd(s) != OddByte(b))
  {
    hide Odd, Fcs.Shifts, Fcs.Mix, Fcs.Xor;
    ShiftsKeepParity(Fcs.Mix(s, b), 8);
    MixIsSum(s, b);
    OddOfSum(s, b as u16);
  }

  lemma MixIsSum(s: u16, b: byte)
    ensures Fcs.Mix(s, b) == Fcs.Xor(s, b as u16)
  {
  }

  /** Whether a byte, or a message, has an odd number of bits set. */
  predicate OddByte(b: byte) {
    Odd(b as u16)
  }

  predicate OddMessage(data: bytes) {
    if data == [] then false else OddMessage(data[..|data| - 1]) != OddByte(data[|data| - 1])
  }

  lemma {:induction false} AbsorbAllAddsParity(s: u16, data: bytes)
    ensures Odd(Fcs.AbsorbAll(s, data)) == (Odd(s) != OddMessage(data))
  {
    hide Odd, OddByte, Fcs.Absorb;
    if data != [] {
      AbsorbAllAddsParity(s, data[..|data| - 1]);
      AbsorbAddsParity(Fcs.AbsorbAll(s, data[..|data| - 1]), data[|data| - 1]);
    }
  }

  // ---------------------------------------------------------------- flipped bits

  /** How many of the n lowest bits differ. */
  function FlipsUpTo(a: byte, b: byte, n: nat): nat
    requires n <= 8
  {
    if n == 0 then 0
    else FlipsUpTo(a, b, n - 1) + (if Fcs.BitOf(a, n - 1) != Fcs.BitOf(b, n - 1) then 1 else 0)
  }

  /** How many bits differ between two messages of one length. */
  function Flips(x: bytes, y: bytes): nat
    requires |x| == |y|
  {
    if x == [] then 0
    else Flips(x[..|x| - 1], y[..|y| - 1]) + FlipsUpTo(x[|x| - 1], y[|y| - 1], 8)
  }

  lemma BitOfByte(b: byte, k: nat)
    requires k < 16
    ensures BitAt(b as u16, k) == (k < 8 && Fcs.BitOf(b, k))
  {
  }

  lemma {:induction false} FlipsTellParity(a: byte, b: byte, n: nat)
    requires n <= 8
    ensures FlipsUpTo(a, b, n) % 2 == 1 <==> OddUpTo(a as u16, n) != OddUpTo(b as u16, n)
  {
    hide BitAt, Fcs.BitOf;
    if n > 0 {
      FlipsTellParity(a, b, n - 1);
      BitOfByte(a, n - 1);
      BitOfByte(b, n - 1);
    }
  }

  lemma {:induction false} NoHighBits(b: byte, n: nat)
    requires 8 <= n <= 16
    ensures OddUpTo(b as u16, n) == OddUpTo(b as u16, 8)
  {
    hide BitAt, Fcs.BitOf;
    if n > 8 {
      NoHighBits(b, n - 1);
      BitOfByte(b, n - 1);
    }
  }

  predicate IsOdd(n: nat) {
    n % 2 == 1
  }

  lemma OddPlus(a: nat, b: nat)
    ensures IsOdd(a + b) <==> IsOdd(a) != IsOdd(b)
  {
  }

  lemma FlipsTellByteParity(a: byte, b: byte)
    ensures IsOdd(FlipsUpTo(a, b, 8)) <==> OddByte(a) != OddByte(b)
  {
    hide OddUpTo, FlipsUpTo;
    FlipsTellParity(a, b, 8);
    NoHighBits(a, 16);
    NoHighBits(b, 16);
  }

  lemma {:induction false} FlipsTellMessageParity(x: bytes, y: bytes)
    requires |x| == |y|
    ensures IsOdd(Flips(x, y)) <==> OddMessage(x) != OddMessage(y)
  {
    hide OddByte, FlipsUpTo, IsOdd;
    if x != [] {
      var a, b := x[|x| - 1], y[|y| - 1];
      FlipsTellMessageParity(x[..|x| - 1], y[..|y| - 1]);
      FlipsTellByteParity(a, b);
      OddPlus(Flips(x[..|x| - 1], y[..|y| - 1]), FlipsUpTo(a, b, 8));
    } else {
      ZeroIsEven();
    }
  }

  lemma ZeroIsEven()
    ensures !IsOdd(0)
  {
  }

  /** Any odd number of flipped bits, wherever they are, changes the checksum. */
  lemma OddFlipsDetected(x: bytes, y: bytes)
    requires |x| == |y| && IsOdd(Flips(x, y))
    ensures Fcs.Fcs(x) != Fcs.Fcs(y)
  {
    hide Odd, OddMessage, Flips, IsOdd, Fcs.AbsorbAll, Fcs.Finish;
    FlipsTellMessageParity(x, y);
    AbsorbAllAddsParity(Fcs.INIT, x);
    AbsorbAllAddsParity(Fcs.INIT, y);
    Fcs.ComplementIsInjective(Fcs.AbsorbAll(Fcs.INIT, x), Fcs.AbsorbAll(Fcs.INIT, y));
  }
}
