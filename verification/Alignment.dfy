/** Powers of two as alignments: the test for one, the search for the next one, and aligned spots. */
module Alignment {
  import opened PowersOfTwo
  import opened Requests

  ghost predicate IsPower(a: nat) {
    exists k: nat :: a == Pow2(k)
  }

  /** `a & (a - 1)`: the lowest set bit is cleared. */
  function ClearLowest(a: nat): nat {
    if a == 0 then 0 else if a % 2 == 1 then a - 1 else 2 * ClearLowest(a / 2)
  }

  /** The test `(a & (a - 1)) != 0` tells the powers of two. */
  lemma {:induction false} PowerTest(a: nat)
    requires a > 0
    ensures ClearLowest(a) == 0 <==> IsPower(a)
  {
    if a == 1 {
      assert Pow2(0) == 1;
    } else if a % 2 == 1 {
      forall k: nat
        ensures a != Pow2(k)
      {
        OddPower(k);
      }
    } else {
      PowerTest(a / 2);
      if IsPower(a / 2) {
        var k: nat :| a / 2 == Pow2(k);
        assert a == Pow2(k + 1);
      }
      if IsPower(a) {
        var k: nat :| a == Pow2(k);
        assert a / 2 == Pow2(k - 1);
      }
    }
  }

  lemma OddPower(k: nat)
    ensures Pow2(k) % 2 == 1 ==> k == 0
  {
  }

  /** The values the rounding loop of `internal_memalign` goes through, on 64-bit words. */
  function Doubled(k: nat): nat {
    if k == 0 then 32 else (2 * Doubled(k - 1)) % WORD
  }

  lemma {:induction false} DoubledIs(k: nat)
    ensures Doubled(k) == if k <= 58 then Pow2(k + 5) else 0
    ensures Doubled(k) <= 0x8000_0000_0000_0000
  {
    hide Pow2;
    if k == 0 {
      Power5();
    } else {
      DoubledIs(k - 1);
      PowerBounds(k);
      DoubledStep(k, Doubled(k - 1));
    }
  }

  lemma DoubledStep(k: nat, v: nat)
    requires k > 0 && v == if k <= 59 then Pow2(k + 4) else 0
    ensures (2 * v) % WORD == if k <= 58 then Pow2(k + 5) else 0
  {
    hide Pow2;
    PowerBounds(k);
    if k <= 58 {
      RoundStep(k + 4, Pow2(k + 5));
    }
  }

  lemma PowerBounds(k: nat)
    requires k > 0
    ensures k <= 58 ==> Pow2(k + 4) < Pow2(k + 5) <= 0x8000_0000_0000_0000
    ensures Pow2(63) == 0x8000_0000_0000_0000
  {
    Word64();
    if k <= 58 {
      Pow2Mono(k + 5, 63);
    }
  }

  /** The loop `while (a < alignment) a <<= 1` ends exactly for alignments up to 2^63. */
  lemma RoundingEnds(alignment: nat)
    requires alignment < WORD
    ensures (exists k: nat :: Doubled(k) >= alignment) <==> alignment <= 0x8000_0000_0000_0000
  {
    if alignment <= 0x8000_0000_0000_0000 {
      DoubledIs(58);
      Word64();
    } else {
      forall k: nat
        ensures Doubled(k) < alignment
      {
        DoubledIs(k);
      }
    }
  }

  /** `a` is what an alignment is rounded to: the least power of two that is at least that and 32. */
  ghost predicate RoundedTo(alignment: nat, a: nat) {
    && IsPower(a) && a % 32 == 0 && alignment <= a && 32 <= a
    && forall k: nat :: Pow2(k) >= alignment && Pow2(k) >= 32 ==> a <= Pow2(k)
  }

  /** The beginning of `internal_memalign`. */
  method RoundAlignment(alignment: nat) returns (a: nat)
    requires alignment <= 0x8000_0000_0000_0000
    ensures RoundedTo(alignment, a) && a <= 0x8000_0000_0000_0000
  {
    hide Pow2;
    Power5();
    a := if alignment < 32 then 32 else alignment;
    PowerTest(a);
    if ClearLowest(a) != 0 {
      a := 32;
      ghost var k := 5;
      while a < alignment
        invariant 5 <= k <= 63 && a == Pow2(k)
        invariant k == 5 || Pow2(k - 1) < alignment
        decreases 63 - k
      {
        RoundStep(k, alignment);
        a := (2 * a) % WORD;
        k := k + 1;
      }
      LeastPower(alignment, k);
      PowerBy32(k);
      BelowPower63(k);
    } else {
      ghost var k: nat :| a == Pow2(k);
      PowerBy32(k);
    }
  }

  lemma Power5()
    ensures Pow2(5) == 32
  {
  }

  lemma RoundStep(k: nat, alignment: nat)
    requires k <= 63 && Pow2(k) < alignment <= 0x8000_0000_0000_0000
    ensures k < 63 && (2 * Pow2(k)) % WORD == Pow2(k + 1)
  {
    Word64();
    if k < 63 {
      Pow2Mono(k + 1, 63);
    }
  }

  lemma BelowPower63(k: nat)
    requires k <= 63
    ensures Pow2(k) <= 0x8000_0000_0000_0000
  {
    Word64();
    Pow2Mono(k, 63);
  }

  lemma PowerBy32(k: nat)
    requires Pow2(k) >= 32 || k >= 5
    ensures Pow2(k) % 32 == 0 && Pow2(k) >= 32
  {
    assert Pow2(5) == 32;
    if k < 5 {
      Pow2Mono(k, 4);
    } else {
      Pow2Add(5, k - 5);
    }
  }

  lemma LeastPower(alignment: nat, k: nat)
    requires k >= 5 && (k == 5 || Pow2(k - 1) < alignment)
    ensures forall j: nat :: Pow2(j) >= alignment && Pow2(j) >= 32 ==> Pow2(k) <= Pow2(j)
  {
    assert Pow2(5) == 32;
    forall j: nat | Pow2(j) >= alignment && Pow2(j) >= 32
      ensures Pow2(k) <= Pow2(j)
    {
      if k <= j {
        Pow2Mono(k, j);
      } else {
        Pow2Mono(j, k - 1);
      }
    }
  }

  /** `(x + (a - 1)) & -a` for a power of two. */
  function NextMultiple(x: nat, a: nat): nat
    requires a > 0
  {
    x + a - 1 - (x + a - 1) % a
  }

  /** Where an aligned payload can start behind `mem`, counted from the payload itself. */
  lemma NextMultipleOk(mem: nat, a: nat)
    requires a >= 32 && a % 32 == 0 && mem % 16 == 0 && mem % a != 0
    ensures mem < NextMultiple(mem, a) < mem + a && NextMultiple(mem, a) % a == 0 && (NextMultiple(mem, a) + a) % a == 0
    ensures NextMultiple(mem, a) % 16 == 0
  {
    var q, r := mem / a, mem % a;
    assert a * (q + 1) == a * q + a;
    DivUnique(mem + a - 1, a, q + 1, r - 1);
    MultipleOf(a, q + 1);
    MultipleOf(a, q + 2);
  }

  lemma MultipleOf(a: nat, q: nat)
    requires a > 0 && a % 32 == 0
    ensures (a * q) % a == 0 && (a * q) % 16 == 0 && a * (q + 1) == a * q + a
  {
    DivUnique(a * q, a, q, 0);
    var m := a / 32;
    assert a * q == 32 * (m * q) by {
      Double(m, q);
      assert a * q == (32 * m) * q;
    }
  }

  predicate MemAligned(p: int, a: nat)
    requires a > 0
  {
    (p + 16) % a == 0
  }

  /** It is the memory behind the chunk header that is aligned. */
  lemma AlignedIs(p: int, a: nat)
    requires a > 0 && MemAligned(p, a)
    ensures (p + 16) % a == 0
  {
  }

  /** Where the aligned chunk starts in the chunk at `p`, with room for a chunk before it. */
  function AlignedSpot(p: nat, a: nat): int
    requires a > 0
  {
    var br := NextMultiple(p + 16, a) - 16;
    if br - p >= 32 then br else br + a
  }

  lemma AlignedSpotOk(p: nat, a: nat)
    requires a >= 32 && a % 32 == 0 && p % 16 == 0 && !MemAligned(p, a)
    ensures p + 32 <= AlignedSpot(p, a) <= p + a + 16
    ensures AlignedSpot(p, a) % 16 == 0 && MemAligned(AlignedSpot(p, a), a)
  {
    hide NextMultiple, MemAligned;
    SpotAligned(p, a);
    By32By16(a);
    By16Sum(NextMultiple(p + 16, a) - 16, a);
  }

  lemma By32By16(a: nat)
    requires a % 32 == 0
    ensures a % 16 == 0
  {
  }

  lemma By16Sum(x: int, a: nat)
    requires x % 16 == 0 && a % 16 == 0
    ensures (x + a) % 16 == 0
  {
  }

  lemma SpotAligned(p: nat, a: nat)
    requires a >= 32 && a % 32 == 0 && p % 16 == 0 && !MemAligned(p, a)
    ensures var br := NextMultiple(p + 16, a) - 16;
      p < br < p + a && br % 16 == 0 && MemAligned(br, a) && MemAligned(br + a, a)
  {
    hide NextMultiple;
    NextMultipleOk(p + 16, a);
  }
}
