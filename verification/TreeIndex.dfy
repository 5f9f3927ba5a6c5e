/** The tree-bin index of a chunk size: `compute_tree_index` and the macros beside it. */
module TreeIndex {
  import opened PowersOfTwo

  const NTREEBINS: nat := 32

  /** Position of the most significant set bit: 31 minus `__builtin_clz`. */
  function TopBit(x: nat): (k: nat)
    requires x > 0
    ensures Pow2(k) <= x < Pow2(k + 1)
  {
    if x == 1 then 0 else 1 + TopBit(x / 2)
  }

  /** `compute_tree_index` in its GNUC form: the shifted size is truncated to 32 bits first. */
  function ComputeTreeIndex(s: nat): (i: nat)
    ensures i < NTREEBINS
  {
    var x := (s / 256) % 0x1_0000_0000;
    if x == 0 then 0
    else if x > 0xFFFF then NTREEBINS - 1
    else
      var k := TopBit(x);
      TopBitBelow(x);
      2 * k + (s / Pow2(k + 7)) % 2
  }

  lemma TopBitBelow(x: nat)
    requires 0 < x <= 0xFFFF
    ensures TopBit(x) <= 15
  {
    if TopBit(x) >= 16 {
      assert Pow2(8) == 256;
      Pow2Add(8, 8);
      Pow2Mono(16, TopBit(x));
      assert false;
    }
  }

  /** `minsize_for_tree_index`; the two or-ed terms occupy different bits. */
  function MinSize(i: nat): (r: nat)
    requires i < NTREEBINS
  {
    Pow2(i / 2 + 8) + if i % 2 == 1 then Pow2(i / 2 + 7) else 0
  }

  /** The size range a bin resolves: sizes `BinLo(i)` up to `BinLo(i) + Pow2(BinWidth(i))`. */
  function BinWidth(i: nat): (w: nat)
    requires i < NTREEBINS
  {
    if i == NTREEBINS - 1 then 64 else i / 2 + 7
  }

  function BinLo(i: nat): (lo: nat)
    requires i < NTREEBINS
  {
    if i == NTREEBINS - 1 then 0 else MinSize(i)
  }

  /** `leftshift_for_tree_index`. */
  function LeftShift(i: nat): (r: nat)
    requires i < NTREEBINS
  {
    if i == NTREEBINS - 1 then 0 else 63 - (i / 2 + 6)
  }

  predicate InBin(s: nat, i: nat)
    requires i < NTREEBINS
  {
    MinSize(i) <= s && (i == NTREEBINS - 1 || s < MinSize(i + 1))
  }

  lemma MinSizeSucc(i: nat)
    requires i < NTREEBINS - 1
    ensures MinSize(i + 1) == MinSize(i) + Pow2(i / 2 + 7)
  {
    if i % 2 == 0 {
      assert (i + 1) / 2 == i / 2;
    } else {
      assert (i + 1) / 2 == i / 2 + 1;
      assert (i + 1) % 2 == 0;
    }
  }

  lemma {:induction false} MinSizeMono(i: nat, j: nat)
    requires i <= j < NTREEBINS
    ensures MinSize(i) <= MinSize(j)
    ensures i < j ==> MinSize(i) < MinSize(j)
    decreases j
  {
    if i < j {
      MinSizeMono(i, j - 1);
      MinSizeSucc(j - 1);
    }
  }

  /** The bin named by the top bit `k + 8` of a size and the bit below it. */
  lemma BinOfLeadingBits(s: nat, k: nat, p: nat)
    requires k <= 15 && p == Pow2(k + 7) && 2 * p <= s < 4 * p
    ensures InBin(s, if s < 3 * p then 2 * k else 2 * k + 1)
  {
    hide MinSize, Pow2;
    MinSizeAround(k);
    var i := if s < 3 * p then 2 * k else 2 * k + 1;
    assert i + 1 == if s < 3 * p then 2 * k + 1 else 2 * k + 2;
  }

  lemma IndexByLeadingBits(s: nat, k: nat)
    requires s / 256 > 0 && k == TopBit(s / 256) && k <= 15
    ensures 2 * k + (s / Pow2(k + 7)) % 2 < NTREEBINS
    ensures InBin(s, 2 * k + (s / Pow2(k + 7)) % 2)
  {
    var p := Pow2(k + 7);
    TopBitScaled(s, k, p);
    SecondBit(s, p);
    BinOfLeadingBits(s, k, p);
  }

  lemma TopBitScaled(s: nat, k: nat, p: nat)
    requires s / 256 > 0 && k == TopBit(s / 256) && p == Pow2(k + 7)
    ensures 2 * p <= s < 4 * p
  {
    ScaleBy256(k);
    assert Pow2(k + 8) == 2 * p && Pow2(k + 9) == 4 * p;
  }

  lemma MinSizeAround(k: nat)
    requires k <= 15
    ensures MinSize(2 * k) == 2 * Pow2(k + 7) && MinSize(2 * k + 1) == 3 * Pow2(k + 7)
    ensures k < 15 ==> MinSize(2 * k + 2) == 4 * Pow2(k + 7)
  {
    assert (2 * k + 1) / 2 == k && (2 * k + 2) / 2 == k + 1;
  }

  lemma SecondBit(s: nat, p: nat)
    requires p > 0 && 2 * p <= s < 4 * p
    ensures s / p == if s < 3 * p then 2 else 3
    ensures (s / p) % 2 == if s < 3 * p then 0 else 1
  {
    DivUnique(s, p, if s < 3 * p then 2 else 3, if s < 3 * p then s - 2 * p else s - 3 * p);
  }

  /** The tree index partitions the sizes below 2^40. */
  lemma IndexPartitions(s: nat)
    requires 256 <= s < 0x100_0000_0000
    ensures InBin(s, ComputeTreeIndex(s))
  {
    var x := s / 256;
    assert x % 0x1_0000_0000 == x;
    if x > 0xFFFF {
      LastBinMin();
    } else {
      TopBitBelow(x);
      IndexByLeadingBits(s, TopBit(x));
    }
  }

  /** A size lies in one bin only. */
  lemma InBinUnique(s: nat, i: nat, j: nat)
    requires i < NTREEBINS && j < NTREEBINS && InBin(s, i) && InBin(s, j)
    ensures i == j
  {
    if i < j {
      MinSizeMono(i + 1, j);
    } else if j < i {
      MinSizeMono(j + 1, i);
    }
  }

  /** The index is monotone in the size. */
  lemma IndexMonotone(s: nat, t: nat)
    requires 256 <= s <= t < 0x100_0000_0000
    ensures ComputeTreeIndex(s) <= ComputeTreeIndex(t)
  {
    IndexPartitions(s);
    IndexPartitions(t);
    var i, j := ComputeTreeIndex(s), ComputeTreeIndex(t);
    if j < i {
      MinSizeMono(j + 1, i);
    }
  }

  /** What the 32-bit truncation costs: the exact sizes for which the index is right. */
  lemma IndexExact(s: nat)
    requires 256 <= s < 0x1_0000_0000_0000_0000
    ensures InBin(s, ComputeTreeIndex(s))
      <==> s < 0x100_0000_0000 || (s / 256) % 0x1_0000_0000 >= 0xC000
  {
    var x := (s / 256) % 0x1_0000_0000;
    LastBinMin();
    if s < 0x100_0000_0000 {
      IndexPartitions(s);
    } else if x == 0 {
      assert MinSize(1) == 384 by { MinSizeSucc(0); assert Pow2(7) == 128 && Pow2(8) == 256; }
    } else if x <= 0xFFFF {
      var i := ComputeTreeIndex(s);
      WrappedIndex(s, x);
      if i < NTREEBINS - 1 {
        MinSizeMono(i + 1, NTREEBINS - 1);
      }
    }
  }

  /** Past 2^40 the index comes from the low bits alone; it reaches 31 only from 0xC000 up. */
  lemma WrappedIndex(s: nat, x: nat)
    requires x == (s / 256) % 0x1_0000_0000 && 0 < x <= 0xFFFF
    ensures ComputeTreeIndex(s) == 31 <==> x >= 0xC000
  {
    var k := TopBit(x);
    TopBitBelow(x);
    assert Pow2(15) == 0x8000 && Pow2(22) == 0x40_0000 by { LastBinMin(); }
    if k == 15 {
      Bit22(s, x);
    } else {
      Pow2Mono(k + 1, 15);
    }
  }

  lemma Bit22(s: nat, x: nat)
    requires x == (s / 256) % 0x1_0000_0000 && 0x8000 <= x <= 0xFFFF
    ensures (s / 0x40_0000) % 2 == if x >= 0xC000 then 1 else 0
  {
    DivTwice(s, 256, 0x4000);
    BitUnderTruncation(s / 256, x, (s / 256) / 0x1_0000_0000);
  }

  lemma BitUnderTruncation(y: nat, x: nat, q: nat)
    requires y == 0x1_0000_0000 * q + x && 0x8000 <= x <= 0xFFFF
    ensures (y / 0x4000) % 2 == if x >= 0xC000 then 1 else 0
  {
    var b := if x >= 0xC000 then 1 else 0;
    var d := 0x4_0000 * q + 2 + b;
    DivUnique(y, 0x4000, d, x - 0x8000 - 0x4000 * b);
    DivUnique(d, 2, 0x2_0000 * q + 1, b);
  }

  /** A size for which the claim fails: the truncated index sends 2^40 to the smallest bin. */
  lemma IndexWrapsAt40Bits()
    ensures ComputeTreeIndex(0x100_0000_0000) == 0
    ensures !InBin(0x100_0000_0000, 0)
  {
    var y := 0x100_0000_0000 / 256;
    assert y == 0x1_0000_0000;
    assert y % 0x1_0000_0000 == 0;
    MinSizeAround(0);
    assert Pow2(7) == 128;
  }

  /* ------------------------------ the branch-free version ------------------------------ */

  /** `((y - c) >> 16) & b` on 32-bit words, for a single bit `b`: set when `y - c` wraps around. */
  function Borrow(y: nat, c: nat, b: nat): (r: nat)
    requires b > 0
    ensures r <= b
  {
    var d := (y + 0x1_0000_0000 - c % 0x1_0000_0000) % 0x1_0000_0000;
    if ((d / 0x1_0000) / b) % 2 == 1 then b else 0
  }

  function ShiftedLeft(x: nat, n: nat): nat {
    x * Pow2(n)
  }

  /** The position of the top bit of `0 < x <= 0xFFFF`, by shifts alone. */
  function ShiftTopBit(x: nat): nat {
    var n0 := Borrow(x, 0x100, 8);
    var y0 := ShiftedLeft(x, n0);
    var k1 := Borrow(y0, 0x1000, 4);
    var y1 := ShiftedLeft(y0, k1);
    var k2 := Borrow(y1, 0x4000, 2);
    var y2 := ShiftedLeft(y1, k2);
    14 - (n0 + k1 + k2) + y2 / 0x8000
  }

  /** `compute_tree_index` in its portable form, which does not truncate the shifted size. */
  function ShiftTreeIndex(s: nat): nat {
    var x := s / 256;
    if x == 0 then 0
    else if x > 0xFFFF then NTREEBINS - 1
    else
      var k := ShiftTopBit(x);
      2 * k + (s / Pow2(k + 7)) % 2
  }

  lemma BorrowIs(y: nat, c: nat, b: nat)
    requires y <= 0xFFFF && c <= 0x4000 && b in {2, 4, 8}
    ensures Borrow(y, c, b) == if y < c then b else 0
  {
  }

  lemma TopBitUnique(x: nat, k: nat)
    requires Pow2(k) <= x < Pow2(k + 1)
    ensures x > 0 && TopBit(x) == k
  {
    var j := TopBit(x);
    if j < k {
      Pow2Mono(j + 1, k);
    } else if k < j {
      Pow2Mono(k + 1, j);
    }
  }

  lemma ShiftTopBitOk(x: nat)
    requires 0 < x <= 0xFFFF
    ensures ShiftTopBit(x) == TopBit(x)
  {
    hide Borrow, Pow2, TopBit, ShiftedLeft;
    SmallShifts(x);
    var n0 := if x < 0x100 then 8 else 0;
    BorrowIs(x, 0x100, 8);
    var y0 := ShiftedLeft(x, n0);
    SmallShifts(y0);
    var k1 := if y0 < 0x1000 then 4 else 0;
    BorrowIs(y0, 0x1000, 4);
    var y1 := ShiftedLeft(y0, k1);
    SmallShifts(y1);
    var k2 := if y1 < 0x4000 then 2 else 0;
    BorrowIs(y1, 0x4000, 2);
    var y2 := ShiftedLeft(y1, k2);
    ShiftedTwice(x, n0, k1);
    ShiftedTwice(x, n0 + k1, k2);
    TopByShift(x, n0 + k1 + k2, y2);
  }

  lemma SmallShifts(x: nat)
    ensures ShiftedLeft(x, 0) == x && ShiftedLeft(x, 2) == 4 * x
    ensures ShiftedLeft(x, 4) == 16 * x && ShiftedLeft(x, 8) == 256 * x
  {
    assert Pow2(0) == 1 && Pow2(2) == 4 && Pow2(4) == 16 && Pow2(8) == 256;
  }

  lemma ShiftedTwice(x: nat, a: nat, b: nat)
    ensures ShiftedLeft(ShiftedLeft(x, a), b) == ShiftedLeft(x, a + b)
  {
    Pow2Add(a, b);
    MulThree(x, Pow2(a), Pow2(b));
  }

  lemma MulThree(x: nat, p: nat, q: nat)
    ensures (x * p) * q == x * (p * q)
  {
  }

  lemma Cancel(x: nat, y: nat, p: nat)
    requires x * p < y * p
    ensures x < y
  {
    if y <= x {
      MulMono(p, y, x);
    }
  }

  lemma TopByShift(x: nat, n: nat, y: nat)
    requires n <= 14 && y == ShiftedLeft(x, n) && 0x4000 <= y < 0x1_0000
    ensures x > 0 && TopBit(x) == 14 - n + y / 0x8000
  {
    hide Pow2, TopBit, ShiftedLeft;
    var b := y / 0x8000;
    Power14();
    ShiftBounds(x, n, 14 - n + b, y);
    TopBitUnique(x, 14 - n + b);
  }

  /** Shifting left moves the top bit with the number. */
  lemma ShiftBounds(x: nat, n: nat, k: nat, y: nat)
    requires y == ShiftedLeft(x, n) && Pow2(k + n) <= y < Pow2(k + 1 + n)
    ensures Pow2(k) <= x < Pow2(k + 1) && x > 0
  {
    hide Pow2;
    Pow2Add(k, n);
    Pow2Add(k + 1, n);
    PowerPositive(n);
    PowerPositive(k);
    Cancel(x, Pow2(k + 1), Pow2(n));
    CancelLeast(Pow2(k), x, Pow2(n));
  }

  lemma PowerPositive(n: nat)
    ensures Pow2(n) > 0
  {
  }

  lemma CancelLeast(m: nat, x: nat, p: nat)
    requires p > 0 && m * p <= x * p
    ensures m <= x
  {
    if x < m {
      MulMono(p, x + 1, m);
      Distribute(p, x);
    }
  }

  lemma Distribute(p: nat, x: nat)
    ensures p * (x + 1) == x * p + p
  {
  }

  lemma Power14()
    ensures Pow2(14) == 0x4000 && Pow2(15) == 0x8000 && Pow2(16) == 0x1_0000
  {
    LastBinMin();
    assert Pow2(15) == 2 * Pow2(14) && Pow2(16) == 2 * Pow2(15);
  }

  /** The portable form finds the right bin for every size, */
  lemma ShiftIndexPartitions(s: nat)
    requires 256 <= s
    ensures ShiftTreeIndex(s) < NTREEBINS && InBin(s, ShiftTreeIndex(s))
  {
    hide ShiftTopBit, TopBit, Pow2;
    var x := s / 256;
    if x > 0xFFFF {
      LastBinMin();
    } else {
      ShiftTopBitOk(x);
      TopBitBelow(x);
      IndexByLeadingBits(s, TopBit(x));
    }
  }

  /** and so agrees with the count-leading-zeros form exactly where that one is right. */
  lemma ShiftIndexAgrees(s: nat)
    requires 256 <= s < 0x1_0000_0000_0000_0000
    ensures ShiftTreeIndex(s) == ComputeTreeIndex(s)
      <==> s < 0x100_0000_0000 || (s / 256) % 0x1_0000_0000 >= 0xC000
  {
    ShiftIndexPartitions(s);
    IndexExact(s);
    if InBin(s, ComputeTreeIndex(s)) {
      InBinUnique(s, ComputeTreeIndex(s), ShiftTreeIndex(s));
    }
  }

  lemma LastBinMin()
    ensures MinSize(31) == 0xC0_0000
    ensures Pow2(15) == 0x8000 && Pow2(22) == 0x40_0000
  {
    assert Pow2(7) == 128 && Pow2(8) == 256;
    Pow2Add(8, 7);
    Pow2Add(15, 7);
    assert Pow2(23) == 2 * Pow2(22);
  }

  lemma ScaleBy256(k: nat)
    ensures Pow2(k + 8) == 256 * Pow2(k) && Pow2(k + 9) == 512 * Pow2(k)
  {
    Pow2Add(k, 8);
    Pow2Add(k, 9);
    assert Pow2(8) == 256 && Pow2(9) == 512;
  }
}
