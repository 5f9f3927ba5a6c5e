/**
 The 32-bit bin maps and the bit tricks that search them without a loop: `idx2bit`,
 `least_bit`, `left_bits`, `compute_bit2idx`.

 The word operations are named so that a proof about bit positions can go by induction on the
 word's halves without looking inside them.
 */
module BinMap {
  function Shr1(x: bv32): bv32 { x >> 1 }

  function Shl1(x: bv32): bv32 { x << 1 }

  predicate Odd(x: bv32) { x & 1 == 1 }

  function Or(x: bv32, y: bv32): bv32 { x | y }

  function And(x: bv32, y: bv32): bv32 { x & y }

  function Not(x: bv32): bv32 { !x }

  /** Bit `i` of the map word. */
  predicate Bit(x: bv32, i: nat)
    decreases i
  {
    if i == 0 then Odd(x) else Bit(Shr1(x), i - 1)
  }

  /** `idx2bit`. */
  function Idx2Bit(i: nat): bv32
    decreases i
  {
    if i == 0 then 1 else Shl1(Idx2Bit(i - 1))
  }

  function Mark(x: bv32, i: nat): bv32 {
    Or(x, Idx2Bit(i))
  }

  function Clear(x: bv32, i: nat): bv32 {
    And(x, Not(Idx2Bit(i)))
  }

  /** `least_bit`: the two's complement negation keeps the least set bit in common. */
  function LeastBit(x: bv32): bv32 {
    And(x, Neg(x))
  }

  function Neg(x: bv32): bv32 { -x }

  /** `left_bits`. */
  function LeftBits(x: bv32): bv32 {
    Or(Shl1(x), Neg(Shl1(x)))
  }

  /** `__builtin_ctz`, for a non-zero word. */
  function Bit2Idx(x: bv32): (i: nat)
    requires x != 0
    decreases 32, x
  {
    if Odd(x) then 0 else
      HalfSmaller(x);
      1 + Bit2Idx(Shr1(x))
  }

  lemma HalfSmaller(x: bv32)
    requires x != 0
    ensures Shr1(x) < x
    ensures !Odd(x) ==> Shr1(x) != 0
  {
  }

  lemma OrHalves(x: bv32, y: bv32)
    ensures Shr1(Or(x, y)) == Or(Shr1(x), Shr1(y))
    ensures Odd(Or(x, y)) <==> Odd(x) || Odd(y)
  {
  }

  lemma AndHalves(x: bv32, y: bv32)
    ensures Shr1(And(x, y)) == And(Shr1(x), Shr1(y))
    ensures Odd(And(x, y)) <==> Odd(x) && Odd(y)
  {
  }

  lemma ZeroHalves()
    ensures Shr1(0) == 0 && !Odd(0)
  {
  }

  lemma {:induction false} BitOfZero(i: nat)
    ensures !Bit(0, i)
    decreases i
  {
    ZeroHalves();
    if i > 0 {
      BitOfZero(i - 1);
    }
  }

  lemma {:induction false} BitOr(x: bv32, y: bv32, i: nat)
    ensures Bit(Or(x, y), i) <==> Bit(x, i) || Bit(y, i)
    decreases i
  {
    hide Shr1, Odd, Or;
    OrHalves(x, y);
    if i > 0 {
      BitOr(Shr1(x), Shr1(y), i - 1);
    }
  }

  lemma {:induction false} BitAnd(x: bv32, y: bv32, i: nat)
    ensures Bit(And(x, y), i) <==> Bit(x, i) && Bit(y, i)
    decreases i
  {
    hide Shr1, Odd, And;
    AndHalves(x, y);
    if i > 0 {
      BitAnd(Shr1(x), Shr1(y), i - 1);
    }
  }

  /* Doubling loses the top bit only: the 31 bits below it are counted off. */

  lemma DoubleHalves(x: bv32)
    ensures !Odd(Shl1(x))
    ensures Shr1(Shl1(x)) == And(x, 0x7FFF_FFFF)
  {
  }

  /** How many low bits of `m` are set before the first clear one. */
  function Ones(m: bv32): nat
    decreases m
  {
    if Odd(m) then
      OddHalf(m);
      1 + Ones(Shr1(m))
    else 0
  }

  lemma OddHalf(m: bv32)
    requires Odd(m)
    ensures Shr1(m) < m
  {
  }

  lemma {:induction false} OnesAreSet(m: bv32, i: nat)
    requires i < Ones(m)
    ensures Bit(m, i)
    decreases i
  {
    if i > 0 {
      OnesAreSet(Shr1(m), i - 1);
    }
  }

  lemma OnesOfNibble(m: bv32)
    requires m & 0xF == 0xF
    ensures Ones(m) == 4 + Ones(m >> 4)
  {
    NibbleHalves(m);
    var m1 := Shr1(m);
    var m2 := Shr1(m1);
    var m3 := Shr1(m2);
    assert Ones(m2) == 2 + Ones(Shr1(m3)) by { assert Ones(m3) == 1 + Ones(Shr1(m3)); }
    assert Ones(m1) == 1 + Ones(m2);
  }

  lemma NibbleHalves(m: bv32)
    requires m & 0xF == 0xF
    ensures Odd(m) && Odd(Shr1(m)) && Odd(Shr1(Shr1(m))) && Odd(Shr1(Shr1(Shr1(m))))
    ensures Shr1(Shr1(Shr1(Shr1(m)))) == m >> 4
  {
  }

  lemma Ones31()
    ensures Ones(0x7FFF_FFFF) == 31
  {
    OnesOfNibble(0x7FFF_FFFF);
    OnesOfNibble(0x7FF_FFFF);
    OnesOfNibble(0x7F_FFFF);
    OnesOfNibble(0x7_FFFF);
    OnesOfNibble(0x7FFF);
    OnesOfNibble(0x7FF);
    OnesOfNibble(0x7F);
    assert Ones(7) == 3 by {
      assert Ones(0) == 0;
      assert Ones(1) == 1;
      assert Ones(3) == 2;
    }
  }

  lemma BitDouble(x: bv32, i: nat)
    requires i < 32
    ensures Bit(Shl1(x), i) <==> i > 0 && Bit(x, i - 1)
  {
    DoubleHalves(x);
    if i > 0 {
      BitAnd(x, 0x7FFF_FFFF, i - 1);
      Ones31();
      OnesAreSet(0x7FFF_FFFF, i - 1);
    }
  }

  lemma AllOnes(i: nat)
    requires i < 32
    ensures Bit(0xFFFF_FFFF, i)
  {
    assert Ones(0xFFFF_FFFF) == 32 by {
      OnesOfNibble(0xFFFF_FFFF);
      assert Ones(0xFFF_FFFF) == 28 by {
        OnesOfNibble(0xFFF_FFFF);
        OnesOfNibble(0xFF_FFFF);
        OnesOfNibble(0xF_FFFF);
        OnesOfNibble(0xFFFF);
        OnesOfNibble(0xFFF);
        OnesOfNibble(0xFF);
        OnesOfNibble(0xF);
        assert Ones(0) == 0;
      }
    }
    OnesAreSet(0xFFFF_FFFF, i);
  }

  lemma BitNot(x: bv32, i: nat)
    requires i < 32
    ensures Bit(Not(x), i) <==> !Bit(x, i)
  {
    hide Not;
    Complement(x);
    AllOnes(i);
    BitOr(x, Not(x), i);
    BitAnd(x, Not(x), i);
    BitOfZero(i);
  }

  lemma Complement(x: bv32)
    ensures Or(x, Not(x)) == 0xFFFF_FFFF && And(x, Not(x)) == 0
  {
  }

  lemma {:induction false} BitOfIdx(i: nat, j: nat)
    requires i < 32 && j < 32
    ensures Bit(Idx2Bit(i), j) <==> i == j
    decreases i
  {
    if i == 0 {
      OneHalves();
      if j > 0 {
        BitOfZero(j - 1);
      }
    } else {
      BitDouble(Idx2Bit(i - 1), j);
      if j > 0 {
        BitOfIdx(i - 1, j - 1);
      }
    }
  }

  lemma OneHalves()
    ensures Odd(1) && Shr1(1) == 0
  {
  }

  /** Marking sets one bit. */
  lemma MarkBits(x: bv32, i: nat, j: nat)
    requires i < 32 && j < 32
    ensures Bit(Mark(x, i), j) <==> i == j || Bit(x, j)
  {
    BitOr(x, Idx2Bit(i), j);
    BitOfIdx(i, j);
  }

  /** Clearing resets one bit. */
  lemma ClearBits(x: bv32, i: nat, j: nat)
    requires i < 32 && j < 32
    ensures Bit(Clear(x, i), j) <==> i != j && Bit(x, j)
  {
    BitAnd(x, Not(Idx2Bit(i)), j);
    BitNot(Idx2Bit(i), j);
    BitOfIdx(i, j);
  }

  /* ------------------------------ searching a map ------------------------------ */

  /** Nothing is above bit 31. */
  lemma {:induction false} BitRange(x: bv32, i: nat)
    requires Bit(x, i)
    ensures i < 32
  {
    SizeBound(x);
    BitBelowSize(x, i);
  }

  function BitLength(x: bv32): nat
    decreases x
  {
    if x == 0 then 0 else
      HalfSmaller(x);
      1 + BitLength(Shr1(x))
  }

  lemma {:induction false} BitBelowSize(x: bv32, i: nat)
    requires Bit(x, i)
    ensures i < BitLength(x)
    decreases i
  {
    if x == 0 {
      BitOfZero(i);
    } else if i > 0 {
      BitBelowSize(Shr1(x), i - 1);
    }
  }

  function Drop4(x: bv32): bv32 { x >> 4 }

  lemma FourHalves(x: bv32)
    ensures Shr1(Shr1(Shr1(Shr1(x)))) == Drop4(x)
  {
  }

  lemma SizeStep(x: bv32)
    ensures BitLength(x) <= 1 + BitLength(Shr1(x))
  {
  }

  lemma SizeOfNibble(x: bv32)
    ensures BitLength(x) <= 4 + BitLength(Drop4(x))
  {
    hide Shr1, Drop4, BitLength;
    FourHalves(x);
    SizeStep(x);
    SizeStep(Shr1(x));
    SizeStep(Shr1(Shr1(x)));
    SizeStep(Shr1(Shr1(Shr1(x))));
  }

  lemma SizeBound(x: bv32)
    ensures BitLength(x) <= 32
  {
    EightNibbles(x);
    assert BitLength(0) == 0;
    hide Drop4, BitLength;
    var x4 := Drop4(x);
    var x8 := Drop4(x4);
    var x12 := Drop4(x8);
    var x16 := Drop4(x12);
    SizeOfNibble(x);
    SizeOfNibble(x4);
    SizeOfNibble(x8);
    SizeOfNibble(x12);
    SizeOfNibble(x16);
    SizeOfNibble(Drop4(x16));
    SizeOfNibble(Drop4(Drop4(x16)));
    SizeOfNibble(Drop4(Drop4(Drop4(x16))));
  }

  lemma EightNibbles(x: bv32)
    ensures Drop4(Drop4(Drop4(Drop4(Drop4(Drop4(Drop4(Drop4(x)))))))) == 0
  {
  }

  /** `compute_bit2idx` finds the least set bit. */
  lemma {:induction false} LeastSetBit(x: bv32)
    requires x != 0
    ensures Bit(x, Bit2Idx(x)) && Bit2Idx(x) < 32
    ensures forall j: nat :: j < Bit2Idx(x) ==> !Bit(x, j)
    decreases x
  {
    hide Shr1, Odd;
    HalfSmaller(x);
    if !Odd(x) {
      LeastSetBit(Shr1(x));
      forall j: nat | j < Bit2Idx(x)
        ensures !Bit(x, j)
      {
        assert j > 0 ==> !Bit(Shr1(x), j - 1);
      }
    }
    BitRange(x, Bit2Idx(x));
  }

  lemma {:induction false} LeastBitIsolates(x: bv32)
    requires x != 0
    ensures LeastBit(x) != 0 && Bit2Idx(LeastBit(x)) == Bit2Idx(x)
    decreases x
  {
    hide Shr1, Odd, LeastBit;
    HalfSmaller(x);
    LeastBitHalves(x);
    if !Odd(x) {
      LeastBitIsolates(Shr1(x));
    }
  }

  lemma LeastBitHalves(x: bv32)
    requires x != 0
    ensures LeastBit(x) != 0
    ensures Odd(LeastBit(x)) <==> Odd(x)
    ensures !Odd(x) ==> Shr1(LeastBit(x)) == LeastBit(Shr1(x))
  {
  }

  /** A word is zero exactly when no bit is set. */
  lemma ZeroIffNoBit(x: bv32)
    ensures x == 0 <==> forall i: nat :: i < 32 ==> !Bit(x, i)
  {
    if x == 0 {
      forall i: nat | i < 32
        ensures !Bit(x, i)
      {
        BitOfZero(i);
      }
    } else {
      LeastSetBit(x);
    }
  }

  /** `left_bits(idx2bit(i))` is the mask of the bits above `i`. */
  lemma {:induction false} LeftBitsMask(i: nat, j: nat)
    requires i < 32 && j < 32
    ensures Bit(LeftBits(Idx2Bit(i)), j) <==> j > i
    decreases i
  {
    if i == 0 {
      LeftOfOne();
      BitDouble(0xFFFF_FFFF, j);
      if j > 0 {
        AllOnes(j - 1);
      }
    } else {
      LeftBitsDouble(Idx2Bit(i - 1));
      BitDouble(LeftBits(Idx2Bit(i - 1)), j);
      if j > 0 {
        LeftBitsMask(i - 1, j - 1);
      }
    }
  }

  lemma LeftOfOne()
    ensures LeftBits(1) == Shl1(0xFFFF_FFFF)
  {
  }

  lemma LeftBitsDouble(x: bv32)
    ensures LeftBits(Shl1(x)) == Shl1(LeftBits(x))
  {
  }

  /** `x >> n` and `x << n`. */
  function Shr(x: bv32, n: nat): bv32
    decreases n
  {
    if n == 0 then x else Shr(Shr1(x), n - 1)
  }

  function Shl(x: bv32, n: nat): bv32
    decreases n
  {
    if n == 0 then x else Shl1(Shl(x, n - 1))
  }

  lemma {:induction false} ShrBits(x: bv32, n: nat, i: nat)
    ensures Bit(Shr(x, n), i) <==> Bit(x, n + i)
    decreases n
  {
    if n > 0 {
      ShrBits(Shr1(x), n - 1, i);
    }
  }

  lemma {:induction false} ShrZero(n: nat)
    ensures Shr(0, n) == 0
    decreases n
  {
    ZeroHalves();
    if n > 0 {
      ShrZero(n - 1);
    }
  }

  lemma {:induction false} ShlBits(x: bv32, n: nat, i: nat)
    requires i < 32
    ensures Bit(Shl(x, n), i) <==> i >= n && Bit(x, i - n)
    decreases n
  {
    if n > 0 {
      BitDouble(Shl(x, n - 1), i);
      if i > 0 {
        ShlBits(x, n - 1, i - 1);
      }
    }
  }
}
