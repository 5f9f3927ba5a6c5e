/**
 Best fit in a bitwise trie: what the bit-guided descent of `tmalloc_large` and the
 leftmost-child walk of `tmalloc_small` look for, and the facts that let them skip subtrees.
 */
module TrieSearch {
  import opened PowersOfTwo
  import opened FreeLinks
  import opened SizeTrie

  /** Larger than any size; the unsigned start value `-nb` of `rsize` stands for it. */
  const NONE: nat := 0x1_0000_0000_0000_0000

  function Min(a: nat, b: nat): nat {
    if a <= b then a else b
  }

  /** The least size that is at least `nb`, or `NONE`. */
  ghost function Best(t: Tree, nb: nat): nat {
    match t
    case Leaf => NONE
    case Node(s, _, l, r) => Min(if s >= nb then s else NONE, Min(Best(l, nb), Best(r, nb)))
  }

  /** `leftmost_child`. */
  ghost function Leftmost(t: Tree): Tree
    requires t.Node?
  {
    if t.left.Node? then t.left else t.right
  }

  /** `Best` is what its name says. */
  lemma {:induction false} BestIsLeast(t: Tree, nb: nat)
    requires forall s :: s in Sizes(t) ==> s < NONE
    ensures forall s :: s in Sizes(t) && s >= nb ==> Best(t, nb) <= s
    ensures Best(t, nb) <= NONE
    ensures Best(t, nb) < NONE ==> Best(t, nb) >= nb && Best(t, nb) in Sizes(t)
  {
    if t.Node? {
      assert Sizes(t.left) <= Sizes(t) && Sizes(t.right) <= Sizes(t);
      BestIsLeast(t.left, nb);
      BestIsLeast(t.right, nb);
    }
  }

  lemma {:induction false} BestNone(t: Tree, nb: nat)
    requires forall s :: s in Sizes(t) ==> s < nb
    ensures Best(t, nb) == NONE
  {
    if t.Node? {
      assert Sizes(t.left) <= Sizes(t) && Sizes(t.right) <= Sizes(t);
      BestNone(t.left, nb);
      BestNone(t.right, nb);
    }
  }

  lemma {:induction false} BestAtLeast(t: Tree, nb: nat, b: nat)
    requires b <= NONE && forall s :: s in Sizes(t) ==> s >= b
    ensures Best(t, nb) >= b
  {
    if t.Node? {
      assert Sizes(t.left) <= Sizes(t) && Sizes(t.right) <= Sizes(t);
      BestAtLeast(t.left, nb, b);
      BestAtLeast(t.right, nb, b);
    }
  }

  /** A non-empty subtree of sizes that all fit offers one of them. */
  lemma BestBelow(t: Tree, nb: nat, b: nat)
    requires t.Node? && forall s :: s in Sizes(t) ==> nb <= s < b
    requires b <= NONE
    ensures nb <= Best(t, nb) < b
  {
    assert t.size in Sizes(t);
    BestIsLeast(t, nb);
    BestAtLeast(t, nb, nb);
  }

  /** Where every size fits, the least one is at the node or below its leftmost child. */
  lemma LeftmostBest(t: Tree, lo: nat, w: nat, sz: map<int, nat>, nb: nat)
    requires t.Node? && WF(t, lo, w, sz) && lo + Pow2(w) <= NONE
    requires forall s :: s in Sizes(t) ==> s >= nb
    ensures Best(t, nb) == Min(t.size, Best(Leftmost(t), nb))
  {
    hide Addrs, RingWF;
    assert Sizes(t.left) <= Sizes(t) && Sizes(t.right) <= Sizes(t);
    if w > 0 && t.left.Node? && t.right.Node? {
      WFRange(t.left, lo, w - 1, sz);
      WFRange(t.right, lo + Half(w), w - 1, sz);
      BestBelow(t.left, nb, lo + Half(w));
      BestAtLeast(t.right, nb, lo + Half(w));
    } else {
      assert Best(Leaf, nb) == NONE;
    }
  }

  /** Going right at a set bit of `nb` drops only sizes that are too small. */
  lemma DropLeft(t: Tree, lo: nat, w: nat, sz: map<int, nat>, nb: nat)
    requires t.Node? && w > 0 && WF(t, lo, w, sz) && nb >= lo + Half(w)
    ensures Best(t.left, nb) == NONE
  {
    WFRange(t.left, lo, w - 1, sz);
    BestNone(t.left, nb);
  }

  /** Going left at a clear bit: everything to the right fits, and beats what was set aside. */
  lemma SetAsideRight(t: Tree, lo: nat, w: nat, sz: map<int, nat>, nb: nat, aside: Tree)
    requires t.Node? && w > 0 && WF(t, lo, w, sz) && nb < lo + Half(w) && lo + Pow2(w) <= NONE
    requires forall s :: s in Sizes(aside) ==> s >= lo + Pow2(w)
    requires t.right.Node?
    ensures Min(Best(t.right, nb), Best(aside, nb)) == Best(t.right, nb)
    ensures forall s :: s in Sizes(t.right) ==> s >= lo + Half(w) && s >= nb
  {
    WFRange(t.right, lo + Half(w), w - 1, sz);
    BestBelow(t.right, nb, lo + Pow2(w));
    BestAtLeast(aside, nb, lo + Pow2(w));
  }

  /* ----------------------- the bits that steer the descent ----------------------- */

  /**
   `K = S << leftshift` has lost the bits above the range: it is the offset of `s` in its
   range, moved up until the range's top bit is the word's top bit.
   */
  ghost predicate Steers(k: nat, s: nat, lo: nat, w: nat) {
    w <= 64 && lo <= s < lo + Pow2(w) && k == (s - lo) * Pow2(64 - w)
  }

  /** `(K >> 63) & 1` picks the half, `K <<= 1` goes on with the next bit. */
  lemma SteerStep(k: nat, s: nat, lo: nat, w: nat)
    requires w > 0 && Steers(k, s, lo, w)
    ensures k < NONE
    ensures k >= 0x8000_0000_0000_0000 <==> s >= lo + Half(w)
    ensures Steers((2 * k) % NONE, s, if s >= lo + Half(w) then lo + Half(w) else lo, w - 1)
  {
    var h, p := Half(w), Pow2(64 - w);
    assert h * p == 0x8000_0000_0000_0000 by {
      Pow2Add(w - 1, 64 - w);
      Word64();
    }
    assert Pow2(65 - w) == 2 * p;
    SteerOffset(k, s - lo, h, p);
  }

  lemma SteerOffset(k: nat, d: nat, h: nat, p: nat)
    requires p > 0 && h * p == 0x8000_0000_0000_0000 && d < 2 * h && k == d * p
    ensures k < NONE
    ensures k >= 0x8000_0000_0000_0000 <==> d >= h
    ensures (2 * k) % NONE == (if d >= h then d - h else d) * (2 * p)
  {
    if d >= h {
      var e := d - h;
      SteerBound(e, h, p);
      assert d * p == e * p + h * p;
      assert e * (2 * p) == 2 * (e * p);
    } else {
      SteerBound(d, h, p);
      assert d * (2 * p) == 2 * (d * p);
    }
  }

  lemma SteerBound(d: nat, h: nat, p: nat)
    requires d < h && p > 0
    ensures 0 <= d * p < h * p
  {
    MulMono(p, d + 1, h);
    assert (d + 1) * p == d * p + p;
  }
}
