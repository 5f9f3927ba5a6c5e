/**
 The two walks of the best-fit search, step by step: the bit-guided descent to the requested
 size, with the deepest untaken right subtree set aside, and the walk to the leftmost leaf.
 */
module TrieWalk {
  import opened PowersOfTwo
  import opened TreeIndex
  import opened BinMap
  import opened FreeLinks
  import opened SizeTrie
  import opened TrieSearch
  import opened Bins

  /** `a - b` on `size_t`. */
  function Sub64(a: nat, b: nat): nat
    requires a < NONE && b < NONE
  {
    if a >= b then a - b else a + NONE - b
  }

  /** Pointer `p` is at subtree `t` of bin `idx`, which resolves sizes from `lo` on. */
  datatype Cursor = Cursor(tree: Tree, par: int, idx: nat, lo: nat, w: nat)

  ghost predicate Points(l: Links, p: int, u: Cursor, sz: map<int, nat>) {
    && u.idx < NTREEBINS && u.lo + Pow2(u.w) <= NONE
    && Rep(l, p, u.tree, u.par, u.idx)
    && WF(u.tree, u.lo, u.w, sz)
    && (forall a :: a in Addrs(u.tree) ==> a > 0 && a in sz && !IsSmall(sz[a]))
  }

  ghost function Below(p: int, u: Cursor, right: bool): Cursor
    requires u.tree.Node?
  {
    if u.w == 0 then Cursor(Leaf, p, u.idx, u.lo, 0)
    else if right then Cursor(u.tree.right, p, u.idx, u.lo + Half(u.w), u.w - 1)
    else Cursor(u.tree.left, p, u.idx, u.lo, u.w - 1)
  }

  lemma PointsBelow(l: Links, p: int, u: Cursor, sz: map<int, nat>)
    requires p != 0 && Points(l, p, u, sz)
    ensures u.tree.Node? && p in Addrs(u.tree) && p in sz && p > 0 && sz[p] == u.tree.size
    ensures u.lo <= sz[p] < u.lo + Pow2(u.w)
    ensures Points(l, Get(l.child0, p), Below(p, u, false), sz) && Points(l, Get(l.child1, p), Below(p, u, true), sz)
    ensures Below(p, u, false).tree == u.tree.left && Below(p, u, true).tree == u.tree.right
    ensures Sizes(u.tree.left) <= Sizes(u.tree) && Sizes(u.tree.right) <= Sizes(u.tree) && u.tree.size in Sizes(u.tree)
    ensures sz[p] < NONE
  {
    assert p in u.tree.ring;
    if u.w > 0 {
      assert Pow2(u.w) == 2 * Half(u.w);
    }
  }

  /** Where the walk goes from `p`, and why nothing better is missed. */
  lemma WalkStep(l: Links, p: int, u: Cursor, sz: map<int, nat>, nb: nat)
    requires p != 0 && Points(l, p, u, sz)
    ensures u.tree.Node? && p in sz && !IsSmall(sz[p]) && sz[p] < NONE && p > 0
    ensures var left := Get(l.child0, p) != 0;
      var u' := Below(p, u, !left);
      && Points(l, if left then Get(l.child0, p) else Get(l.child1, p), u', sz)
      && u'.tree < u.tree
      && Sizes(u'.tree) <= Sizes(u.tree)
      && ((forall s :: s in Sizes(u.tree) ==> s >= nb) ==>
          sz[p] >= nb && Best(u.tree, nb) == Min(sz[p], Best(u'.tree, nb)))
  {
    PointsBelow(l, p, u, sz);
    RepRoot(l, Get(l.child0, p), u.tree.left, p, u.idx);
    if forall s :: s in Sizes(u.tree) ==> s >= nb {
      LeftmostBest(u.tree, u.lo, u.w, sz, nb);
    }
    hide Points, WF;
  }

  lemma BestBounds(l: Links, p: int, u: Cursor, sz: map<int, nat>, nb: nat)
    requires Points(l, p, u, sz) && nb < NONE
    ensures nb <= Best(u.tree, nb) <= NONE
  {
    WFRange(u.tree, u.lo, u.w, sz);
    BestIsLeast(u.tree, nb);
  }

  lemma LeafBest(l: Links, u: Cursor, sz: map<int, nat>, nb: nat)
    requires Points(l, 0, u, sz)
    ensures u.tree.Leaf? && Best(u.tree, nb) == NONE
  {
  }

  /** An exact fit is at hand; or every size fits; or the request is beyond all sizes. */
  ghost predicate Settled(t: Tree, nb: nat, rsize: nat) {
    || rsize == 0
    || (if nb < SIZE_BOUND then forall s :: s in Sizes(t) ==> s >= nb else forall s :: s in Sizes(t) ==> s < nb)
  }

  /** The leftmost walk stays settled, and keeps away from sizes that are too small. */
  lemma WalkSettled(l: Links, p: int, u: Cursor, sz: map<int, nat>, nb: nat, rsize: nat)
    requires p != 0 && Points(l, p, u, sz) && Settled(u.tree, nb, rsize)
    ensures u.tree.Node? && p in sz
    ensures Settled(Below(p, u, Get(l.child0, p) == 0).tree, nb, rsize)
    ensures rsize != 0 && nb >= SIZE_BOUND ==>
      && sz[p] < nb
      && Best(u.tree, nb) == NONE && Best(Below(p, u, Get(l.child0, p) == 0).tree, nb) == NONE
  {
    hide Points;
    PointsBelow(l, p, u, sz);
    if rsize != 0 && nb >= SIZE_BOUND {
      BestNone(u.tree, nb);
      BestNone(Below(p, u, Get(l.child0, p) == 0).tree, nb);
    }
  }

  lemma {:induction false} SizesBelow(t: Tree, lo: nat, w: nat, sz: map<int, nat>, bound: nat)
    requires WF(t, lo, w, sz) && forall a :: a in Addrs(t) && a in sz ==> sz[a] < bound
    ensures forall s :: s in Sizes(t) ==> s < bound
    decreases t
  {
    hide Addrs, WF, Half;
    if t.Node? {
      NodeParts(t, lo, w, sz);
      var h := t.ring[0];
      assert h in Addrs(t) && h in sz && sz[h] < bound;
      if w > 0 {
        SizesBelow(t.left, lo, w - 1, sz, bound);
        SizesBelow(t.right, lo + Half(w), w - 1, sz, bound);
      } else {
        assert Sizes(t.left) == {} && Sizes(t.right) == {};
      }
      assert t.size < bound;
      assert Sizes(t) == {t.size} + Sizes(t.left) + Sizes(t.right);
    }
  }

  /** The head of a node's ring has the node's size; the subtrees' chunks are the node's. */
  lemma NodeParts(t: Tree, lo: nat, w: nat, sz: map<int, nat>)
    requires t.Node? && WF(t, lo, w, sz)
    ensures t.ring != [] && t.ring[0] in Addrs(t) && t.ring[0] in sz && sz[t.ring[0]] == t.size
    ensures Addrs(t.left) <= Addrs(t) && Addrs(t.right) <= Addrs(t)
    ensures w == 0 ==> t.left.Leaf? && t.right.Leaf?
    ensures w > 0 ==> WF(t.left, lo, w - 1, sz) && WF(t.right, lo + Half(w), w - 1, sz)
  {
    assert NodeWF(t, lo, w, sz);
    assert RingWF(t.ring, t.size, sz);
    assert t.ring[0] in t.ring;
    assert t.ring[0] in Members(t.ring);
  }

  /** Chunk sizes stay below this bound; a larger request cannot be met from a bin. */
  const SIZE_BOUND: nat := 0x100_0000_0000

  /**
   The descent of `tmalloc_large`: at `p` in subtree `u`, with `r` in subtree `a` set aside.
   A request beyond all chunk sizes is not steered by meaningful bits, but nothing fits it.
   */
  ghost predicate Descends(l: Links, sz: map<int, nat>, nb: nat, p: int, u: Cursor, r: int, a: Cursor, k: nat) {
    && Points(l, p, u, sz) && Points(l, r, a, sz) && k < NONE
    && (nb < SIZE_BOUND ==>
        && Steers(k, nb, u.lo, u.w)
        && forall s :: s in Sizes(a.tree) ==> s >= u.lo + Pow2(u.w) && s >= nb)
    && (nb >= SIZE_BOUND ==>
        forall s :: (s in Sizes(u.tree) || s in Sizes(a.tree)) ==> s < nb)
  }

  /** The best size at a node itself. */
  function Own(s: nat, nb: nat): nat {
    if s >= nb then s else NONE
  }

  lemma DescendStep(l: Links, sz: map<int, nat>, nb: nat, p: int, u: Cursor, r: int, a: Cursor, k: nat)
    requires p != 0 && Descends(l, sz, nb, p, u, r, a, k) && p in sz && sz[p] != nb
    ensures var right := k >= 0x8000_0000_0000_0000;
      var p', rt := Child(l, p, right), Get(l.child1, p);
      var u' := Below(p, u, right);
      var (r', a') := if rt != 0 && rt != p' then (rt, Below(p, u, true)) else (r, a);
      && u.tree.Node? && u'.tree < u.tree
      && Descends(l, sz, nb, p', u', r', a', (2 * k) % NONE)
      && Min(Best(u.tree, nb), Best(a.tree, nb)) == Min(Own(sz[p], nb), Min(Best(u'.tree, nb), Best(a'.tree, nb)))
  {
    PointsBelow(l, p, u, sz);
    RepRoot(l, Get(l.child0, p), u.tree.left, p, u.idx);
    RepRoot(l, Get(l.child1, p), u.tree.right, p, u.idx);
    if nb < SIZE_BOUND {
      DescendFits(l, sz, nb, p, u, r, a, k);
    } else {
      BestNone(u.tree.left, nb);
      BestNone(u.tree.right, nb);
      BestNone(a.tree, nb);
    }
  }

  lemma DescendStart(l: Links, sz: map<int, nat>, nb: nat, p: int, u: Cursor, k: nat)
    requires p != 0 && Points(l, p, u, sz) && k < NONE && nb < NONE
    requires nb < SIZE_BOUND ==> Steers(k, nb, u.lo, u.w)
    requires nb >= SIZE_BOUND ==> forall s :: s in Sizes(u.tree) ==> s < nb
    ensures var a := Cursor(Leaf, 0, u.idx, 0, 0);
      && Descends(l, sz, nb, p, u, 0, a, k)
      && Found(NONE - nb, nb, u.tree, a.tree, u.tree)
  {
    BestBounds(l, p, u, sz, nb);
    assert Pow2(0) == 1;
  }

  /** What the loop may rely on at a node. */
  lemma DescendAt(l: Links, sz: map<int, nat>, nb: nat, p: int, u: Cursor, r: int, a: Cursor, k: nat)
    requires p != 0 && nb < NONE && Descends(l, sz, nb, p, u, r, a, k)
    ensures u.tree.Node? && p in sz && sz[p] < NONE && !IsSmall(sz[p]) && p > 0
    ensures Points(l, p, u, sz) && Best(u.tree, nb) >= nb && Best(a.tree, nb) >= nb
    ensures sz[p] == nb ==> Best(u.tree, nb) == nb
  {
    PointsBelow(l, p, u, sz);
    BestBounds(l, p, u, sz, nb);
    BestBounds(l, r, a, sz, nb);
  }

  lemma DescendEnd(l: Links, sz: map<int, nat>, nb: nat, u: Cursor, r: int, a: Cursor, k: nat, rsize: nat)
    requires nb < NONE && Descends(l, sz, nb, 0, u, r, a, k)
    ensures Points(l, r, a, sz) && Settled(a.tree, nb, rsize)
    ensures Min(Best(u.tree, nb), Best(a.tree, nb)) == Best(a.tree, nb)
  {
    LeafBest(l, u, sz, nb);
    BestBounds(l, r, a, sz, nb);
  }

  lemma DescendFits(l: Links, sz: map<int, nat>, nb: nat, p: int, u: Cursor, r: int, a: Cursor, k: nat)
    requires nb < SIZE_BOUND && p != 0 && Descends(l, sz, nb, p, u, r, a, k) && p in sz && sz[p] != nb
    requires u.tree.Node?
    ensures var right := k >= 0x8000_0000_0000_0000;
      var p', rt := Child(l, p, right), Get(l.child1, p);
      var u' := Below(p, u, right);
      var (r', a') := if rt != 0 && rt != p' then (rt, Below(p, u, true)) else (r, a);
      && Descends(l, sz, nb, p', u', r', a', (2 * k) % NONE)
      && Min(Best(u.tree, nb), Best(a.tree, nb)) == Min(Own(sz[p], nb), Min(Best(u'.tree, nb), Best(a'.tree, nb)))
  {
    hide Points, WF, Rep, Best, Steers;
    DescendsSteers(l, sz, nb, p, u, r, a, k);
    if k >= 0x8000_0000_0000_0000 {
      DescendRight(l, sz, nb, p, u, r, a, k);
    } else {
      DescendLeft(l, sz, nb, p, u, r, a, k);
    }
  }

  lemma DescendsSteers(l: Links, sz: map<int, nat>, nb: nat, p: int, u: Cursor, r: int, a: Cursor, k: nat)
    requires nb < SIZE_BOUND && p != 0 && Descends(l, sz, nb, p, u, r, a, k) && p in sz && sz[p] != nb
    ensures u.w > 0 && Pow2(u.w) == 2 * Half(u.w) && (k >= 0x8000_0000_0000_0000 <==> nb >= u.lo + Half(u.w))
    ensures Steers((2 * k) % NONE, nb, if nb >= u.lo + Half(u.w) then u.lo + Half(u.w) else u.lo, u.w - 1)
    ensures WF(u.tree, u.lo, u.w, sz) && sz[p] == u.tree.size
  {
    hide Points, WF, Steers, Sizes, Addrs, Half, Pow2, Rep;
    SteersAt(l, sz, nb, p, u, r, a, k);
    PointsBelow(l, p, u, sz);
    WidthLeft(u, sz[p], nb);
    SteerStep(k, nb, u.lo, u.w);
  }

  lemma SteersAt(l: Links, sz: map<int, nat>, nb: nat, p: int, u: Cursor, r: int, a: Cursor, k: nat)
    requires nb < SIZE_BOUND && Descends(l, sz, nb, p, u, r, a, k)
    ensures Points(l, p, u, sz) && WF(u.tree, u.lo, u.w, sz)
    ensures Steers(k, nb, u.lo, u.w) && u.lo <= nb < u.lo + Pow2(u.w)
  {
    hide WF, Rep;
  }

  lemma DescendRight(l: Links, sz: map<int, nat>, nb: nat, p: int, u: Cursor, r: int, a: Cursor, k: nat)
    requires nb < SIZE_BOUND && p != 0 && Descends(l, sz, nb, p, u, r, a, k) && p in sz && sz[p] != nb && u.tree.Node?
    requires k >= 0x8000_0000_0000_0000
    ensures var p', u' := Get(l.child1, p), Below(p, u, true);
      && Descends(l, sz, nb, p', u', r, a, (2 * k) % NONE)
      && Min(Best(u.tree, nb), Best(a.tree, nb)) == Min(Own(sz[p], nb), Min(Best(u'.tree, nb), Best(a.tree, nb)))
  {
    hide Points, WF, Rep, Steers, Half;
    DescendsSteers(l, sz, nb, p, u, r, a, k);
    PointsBelow(l, p, u, sz);
    DropLeft(u.tree, u.lo, u.w, sz, nb);
  }

  lemma DescendLeft(l: Links, sz: map<int, nat>, nb: nat, p: int, u: Cursor, r: int, a: Cursor, k: nat)
    requires nb < SIZE_BOUND && p != 0 && Descends(l, sz, nb, p, u, r, a, k) && p in sz && sz[p] != nb && u.tree.Node?
    requires k < 0x8000_0000_0000_0000
    ensures var p', rt, u' := Get(l.child0, p), Get(l.child1, p), Below(p, u, false);
      var (r', a') := if rt != 0 && rt != p' then (rt, Below(p, u, true)) else (r, a);
      && Descends(l, sz, nb, p', u', r', a', (2 * k) % NONE)
      && Min(Best(u.tree, nb), Best(a.tree, nb)) == Min(Own(sz[p], nb), Min(Best(u'.tree, nb), Best(a'.tree, nb)))
  {
    hide Points, WF, Rep, Steers, Half, Best;
    DescendsSteers(l, sz, nb, p, u, r, a, k);
    PointsBelow(l, p, u, sz);
    GoLeft(l, sz, nb, p, u, a);
  }

  /** Two sizes of a range that resolves one size are equal. */
  lemma WidthLeft(u: Cursor, s: nat, nb: nat)
    requires u.lo <= s < u.lo + Pow2(u.w) && u.lo <= nb < u.lo + Pow2(u.w) && s != nb
    ensures u.w > 0 && Pow2(u.w) == 2 * Half(u.w)
  {
  }

  /** Going left: the right subtree, if there is one, replaces what was set aside. */
  lemma GoLeft(l: Links, sz: map<int, nat>, nb: nat, p: int, u: Cursor, a: Cursor)
    requires p != 0 && Points(l, p, u, sz) && u.tree.Node? && u.w > 0 && nb < u.lo + Half(u.w)
    requires forall s :: s in Sizes(a.tree) ==> s >= u.lo + Pow2(u.w) && s >= nb
    requires sz[p] == u.tree.size
    ensures var p', rt := Get(l.child0, p), Get(l.child1, p);
      var a' := if rt != 0 && rt != p' then Below(p, u, true) else a;
      && (rt != 0 ==> rt != p')
      && (forall s :: s in Sizes(a'.tree) ==> s >= u.lo + Half(u.w) && s >= nb)
      && Min(Best(u.tree, nb), Best(a.tree, nb)) == Min(Own(sz[p], nb), Min(Best(u.tree.left, nb), Best(a'.tree, nb)))
  {
    PointsBelow(l, p, u, sz);
    RepRoot(l, Get(l.child0, p), u.tree.left, p, u.idx);
    RepRoot(l, Get(l.child1, p), u.tree.right, p, u.idx);
    WFDisjoint(u.tree, u.lo, u.w, sz);
    if u.tree.right.Node? {
      SetAsideRight(u.tree, u.lo, u.w, sz, nb, a.tree);
    } else {
      assert Best(u.tree.right, nb) == NONE;
    }
  }

  /* -------------------------------- over all bins -------------------------------- */

  /** The bin's trie, as a place to start from. */
  ghost function BinCursor(c: Contents, i: nat): Cursor
    requires i < NTREEBINS && |c.trees| == NTREEBINS
  {
    Cursor(c.trees[i], TreeBinAt(i), i, BinLo(i), BinWidth(i))
  }

  lemma BinPoints(b: BinState, c: Contents, i: nat)
    requires BinsOk(b, c) && i < NTREEBINS
    ensures Points(b.links, b.treebins[i], BinCursor(c, i), c.sz)
    ensures forall s :: s in Sizes(c.trees[i]) ==> s < SIZE_BOUND
    ensures Bit(b.treemap, i) <==> b.treebins[i] != 0
    ensures Bit(b.treemap, i) <==> c.trees[i].Node?
  {
    SizesOfBins(b, c, i);
    assert TreeBinOk(b.links, b.treebins[i], c.trees[i], Bit(b.treemap, i), i, c.sz);
    SizesBelow(c.trees[i], BinLo(i), BinWidth(i), c.sz, SIZE_BOUND);
    RepRoot(b.links, b.treebins[i], c.trees[i], TreeBinAt(i), i);
    BinTop(i);
  }

  lemma BinTop(i: nat)
    requires i < NTREEBINS
    ensures BinLo(i) + Pow2(BinWidth(i)) <= NONE
    ensures i < NTREEBINS - 1 ==> BinLo(i) + Pow2(BinWidth(i)) == MinSize(i + 1)
  {
    Word64();
    if i < NTREEBINS - 1 {
      MinSizeSucc(i);
      MinSizeMono(i + 1, NTREEBINS - 1);
      LastBinMin();
    }
  }

  /** A chunk that fits is no smaller than its bin's best. */
  lemma BestOfBin(b: BinState, c: Contents, a: int, nb: nat)
    requires BinsOk(b, c) && a in c.sz && !IsSmall(c.sz[a]) && c.sz[a] >= nb
    ensures Best(c.trees[ComputeTreeIndex(c.sz[a])], nb) <= c.sz[a]
  {
    var i := ComputeTreeIndex(c.sz[a]);
    assert Binned(c, a);
    assert TreeBinOk(b.links, b.treebins[i], c.trees[i], Bit(b.treemap, i), i, c.sz);
    BinPoints(b, c, i);
    WFRange(c.trees[i], BinLo(i), BinWidth(i), c.sz);
    BestIsLeast(c.trees[i], nb);
  }

  /** No large chunk that fits is smaller than `best`. */
  ghost predicate BestFit(sz: map<int, nat>, nb: nat, best: nat) {
    forall a :: a in sz && !IsSmall(sz[a]) && sz[a] >= nb ==> best <= sz[a]
  }

  /** The first bin from the request's own on that offers a fit offers the best one. */
  lemma FirstBinIsBest(b: BinState, c: Contents, nb: nat, k: nat)
    requires BinsOk(b, c) && 256 <= nb < SIZE_BOUND && ComputeTreeIndex(nb) <= k < NTREEBINS
    requires forall j: nat :: ComputeTreeIndex(nb) <= j < k ==> Best(c.trees[j], nb) == NONE
    requires Best(c.trees[k], nb) < NONE || k == NTREEBINS - 1
    ensures BestFit(c.sz, nb, Best(c.trees[k], nb))
  {
    hide BinsOk, ComputeTreeIndex, Best, IsSmall;
    BinCount(b, c);
    forall a | a in c.sz && !IsSmall(c.sz[a]) && c.sz[a] >= nb
      ensures Best(c.trees[k], nb) <= c.sz[a]
    {
      var j := ComputeTreeIndex(c.sz[a]);
      BestOfBin(b, c, a, nb);
      LargeSize(c.sz[a]);
      IndexMonotone(nb, c.sz[a]);
      if j > k {
        BinsInOrder(b, c, a, nb, k);
      }
    }
  }

  lemma BinsInOrder(b: BinState, c: Contents, a: int, nb: nat, k: nat)
    requires BinsOk(b, c) && a in c.sz && !IsSmall(c.sz[a]) && k < ComputeTreeIndex(c.sz[a])
    requires Best(c.trees[k], nb) < NONE
    ensures Best(c.trees[k], nb) <= c.sz[a]
  {
    var s := c.sz[a];
    assert 256 <= s < SIZE_BOUND;
    assert WF(c.trees[k], BinLo(k), BinWidth(k), c.sz) by {
      assert TreeBinOk(b.links, b.treebins[k], c.trees[k], Bit(b.treemap, k), k, c.sz);
    }
    hide BinsOk, WF, ComputeTreeIndex, IsSmall, BinLo, BinWidth, MinSize, Best;
    BinPoints(b, c, k);
    WFRange(c.trees[k], BinLo(k), BinWidth(k), c.sz);
    BestIsLeast(c.trees[k], nb);
    LowerBinBelow(k, s);
  }

  /** A bin ends at or before the sizes of all later bins. */
  lemma LowerBinBelow(k: nat, s: nat)
    requires 256 <= s < SIZE_BOUND && k < ComputeTreeIndex(s)
    ensures k < NTREEBINS && BinLo(k) + Pow2(BinWidth(k)) <= s
  {
    hide ComputeTreeIndex, BinLo, BinWidth, MinSize;
    BinTop(k);
    IndexPartitions(s);
    MinSizeMono(k + 1, ComputeTreeIndex(s));
  }

  /** With nothing in any bin that fits, there is nothing that fits. */
  lemma NoFit(b: BinState, c: Contents, nb: nat)
    requires BinsOk(b, c) && 256 <= nb < SIZE_BOUND
    requires forall j: nat :: ComputeTreeIndex(nb) <= j < NTREEBINS ==> Best(c.trees[j], nb) == NONE
    ensures BestFit(c.sz, nb, NONE)
  {
    FirstBinIsBest(b, c, nb, NTREEBINS - 1);
  }

  /** A request beyond the size bound. */
  lemma TooLarge(b: BinState, c: Contents, nb: nat)
    requires BinsOk(b, c) && nb >= SIZE_BOUND
    ensures BestFit(c.sz, nb, NONE)
    ensures forall i: nat :: i < NTREEBINS ==> Best(c.trees[i], nb) == NONE
  {
    forall i: nat | i < NTREEBINS
      ensures Best(c.trees[i], nb) == NONE
    {
      BinPoints(b, c, i);
      BestNone(c.trees[i], nb);
    }
  }

  /** The bits start out aligned with the range of the request's bin. */
  lemma SteerStart(nb: nat)
    requires 256 <= nb < SIZE_BOUND
    ensures var i := ComputeTreeIndex(nb);
      Steers((nb * Pow2(LeftShift(i))) % NONE, nb, BinLo(i), BinWidth(i))
  {
    hide ComputeTreeIndex;
    var i := ComputeTreeIndex(nb);
    IndexPartitions(nb);
    if i == NTREEBINS - 1 {
      SteerLast(nb);
    } else {
      SteerOthers(nb, i);
    }
  }

  /** The last bin resolves all sizes, by all 64 bits. */
  lemma SteerLast(nb: nat)
    requires nb < NONE
    ensures Steers((nb * Pow2(LeftShift(31))) % NONE, nb, BinLo(31), BinWidth(31))
  {
    Word64();
    assert Pow2(0) == 1;
  }

  lemma SteerOthers(nb: nat, i: nat)
    requires i < NTREEBINS - 1 && InBin(nb, i)
    ensures Steers((nb * Pow2(LeftShift(i))) % NONE, nb, BinLo(i), BinWidth(i))
  {
    hide MinSize, BinLo, BinWidth, LeftShift, Pow2;
    var w, s := BinWidth(i), LeftShift(i);
    var m := if i % 2 == 1 then 3 else 2;
    BinShape(i, m);
    MinSizeSucc(i);
    Pow2Add(w, s);
    Word64();
    PowPositive(s);
    Shifted(nb, BinLo(i), Pow2(w), Pow2(s), m);
  }

  lemma PowPositive(s: nat)
    ensures Pow2(s) > 0
  {
  }

  /** A bin starts at two or three times its width. */
  lemma BinShape(i: nat, m: nat)
    requires i < NTREEBINS - 1 && m == if i % 2 == 1 then 3 else 2
    ensures BinWidth(i) + LeftShift(i) == 64 && BinWidth(i) == i / 2 + 7
    ensures BinLo(i) == MinSize(i) == m * Pow2(BinWidth(i))
  {
    assert Pow2(BinWidth(i) + 1) == 2 * Pow2(BinWidth(i));
  }

  lemma Shifted(nb: nat, lo: nat, h: nat, p: nat, m: nat)
    requires p > 0 && h * p == NONE && lo == m * h && lo <= nb < lo + h
    ensures (nb * p) % NONE == (nb - lo) * p
  {
    SteerBound(nb - lo, h, p);
    assert nb * p == (nb - lo) * p + lo * p;
    assert lo * p == m * (h * p);
    DivUnique(nb * p, NONE, m, (nb - lo) * p);
  }

  /* ------------------------------ the next bin to look in ------------------------------ */

  /** `least_bit` and `compute_bit2idx` find the first marked bin. */
  lemma LeastIndex(x: bv32)
    requires x != 0
    ensures LeastBit(x) != 0
    ensures var i := Bit2Idx(LeastBit(x));
      i < 32 && Bit(x, i) && forall j: nat :: j < i ==> !Bit(x, j)
  {
    LeastBitIsolates(x);
    LeastSetBit(x);
  }

  /** The marked bins behind bin `idx`. */
  lemma BitsBehind(marks: bv32, idx: nat, j: nat)
    requires idx < 32 && j < 32
    ensures Bit(And(LeftBits(Idx2Bit(idx)), marks), j) <==> j > idx && Bit(marks, j)
  {
    BitAnd(LeftBits(Idx2Bit(idx)), marks, j);
    LeftBitsMask(idx, j);
  }

  lemma EmptyBin(b: BinState, c: Contents, j: nat, nb: nat)
    requires BinsOk(b, c) && j < NTREEBINS && !Bit(b.treemap, j)
    ensures Best(c.trees[j], nb) == NONE
  {
    BinPoints(b, c, j);
  }

  /** Every chunk of a bin behind the request's own fits. */
  lemma BinBehindFits(b: BinState, c: Contents, nb: nat, i: nat)
    requires BinsOk(b, c) && 256 <= nb < SIZE_BOUND && ComputeTreeIndex(nb) < i < NTREEBINS && Bit(b.treemap, i)
    ensures c.trees[i].Node? && (forall s :: s in Sizes(c.trees[i]) ==> s >= nb)
    ensures Best(c.trees[i], nb) < NONE
  {
    hide MinSize, BinsOk, ComputeTreeIndex, Bit, Best, Sizes, BinLo, BinWidth, Points, Rep, WF;
    BinCount(b, c);
    BinSizesFrom(b, c, i);
    SizeBelowBin(nb, i);
    BinPoints(b, c, i);
    BestBelow(c.trees[i], nb, SIZE_BOUND);
  }

  lemma SizeBelowBin(nb: nat, i: nat)
    requires 256 <= nb < SIZE_BOUND && ComputeTreeIndex(nb) < i < NTREEBINS
    ensures nb < MinSize(i)
  {
    hide MinSize, ComputeTreeIndex;
    IndexPartitions(nb);
    MinSizeMono(ComputeTreeIndex(nb) + 1, i);
  }

  lemma BinCount(b: BinState, c: Contents)
    requires BinsOk(b, c)
    ensures |c.trees| == NTREEBINS && |b.treebins| == NTREEBINS
    ensures forall a :: a in c.sz ==> c.sz[a] < SIZE_BOUND
  {
  }

  lemma LargeSize(s: nat)
    ensures !IsSmall(s) <==> s >= 256
  {
  }

  /** The chunks of a bin are no smaller than the bin's minimum. */
  lemma BinSizesFrom(b: BinState, c: Contents, i: nat)
    requires BinsOk(b, c) && i < NTREEBINS
    ensures forall s :: s in Sizes(c.trees[i]) ==> s >= MinSize(i)
  {
    hide MinSize, BinLo, BinWidth, WF, Rep, Addrs;
    var t := c.trees[i];
    assert TreeBinOk(b.links, b.treebins[i], t, Bit(b.treemap, i), i, c.sz);
    SizesAbove(t, BinLo(i), BinWidth(i), c.sz, MinSize(i));
  }

  lemma {:induction false} SizesAbove(t: Tree, lo: nat, w: nat, sz: map<int, nat>, bound: nat)
    requires WF(t, lo, w, sz) && forall a :: a in Addrs(t) && a in sz ==> sz[a] >= bound
    ensures forall s :: s in Sizes(t) ==> s >= bound
    decreases t
  {
    if t.Node? {
      FirstOfRing(t, lo, w, sz);
      assert Addrs(t.left) <= Addrs(t) && Addrs(t.right) <= Addrs(t);
      if w > 0 {
        SizesAbove(t.left, lo, w - 1, sz, bound);
        SizesAbove(t.right, lo + Half(w), w - 1, sz, bound);
      }
    }
  }

  lemma FirstOfRing(t: Tree, lo: nat, w: nat, sz: map<int, nat>)
    requires t.Node? && WF(t, lo, w, sz)
    ensures t.ring != [] && t.ring[0] in Addrs(t) && t.ring[0] in sz && sz[t.ring[0]] == t.size
  {
    assert t.ring[0] in t.ring;
  }

  /** When the request's own bin has nothing, the next marked bin has the best fit. */
  lemma NextBin(b: BinState, c: Contents, nb: nat)
    requires BinsOk(b, c) && 256 <= nb < SIZE_BOUND
    requires Best(c.trees[ComputeTreeIndex(nb)], nb) == NONE
    ensures var left := And(LeftBits(Idx2Bit(ComputeTreeIndex(nb))), b.treemap);
      && (left == 0 ==> BestFit(c.sz, nb, NONE))
      && (left != 0 ==>
          && LeastBit(left) != 0
          && var i := Bit2Idx(LeastBit(left));
            && i < NTREEBINS && c.trees[i].Node? && (forall s :: s in Sizes(c.trees[i]) ==> s >= nb)
            && BestFit(c.sz, nb, Best(c.trees[i], nb)))
  {
    var idx := ComputeTreeIndex(nb);
    var left := And(LeftBits(Idx2Bit(idx)), b.treemap);
    var k := NTREEBINS;
    ZeroIffNoBit(left);
    if left != 0 {
      LeastIndex(left);
      k := Bit2Idx(LeastBit(left));
      BitsBehind(b.treemap, idx, k);
      BinBehindFits(b, c, nb, k);
    }
    assert |c.trees| == NTREEBINS;
    hide BinsOk, Best, Bit, LeastBit, And, LeftBits, ComputeTreeIndex;
    forall j: nat | idx <= j < k
      ensures Best(c.trees[j], nb) == NONE
    {
      if j > idx {
        assert !Bit(left, j);
        BitsBehind(b.treemap, idx, j);
        EmptyBin(b, c, j, nb);
      }
    }
    if left != 0 {
      FirstBinIsBest(b, c, nb, k);
    } else {
      NoFit(b, c, nb);
    }
  }

  lemma {:induction false} BestAllFit(t: Tree, nb: nat, nb': nat)
    requires forall s :: s in Sizes(t) ==> s >= nb && s >= nb'
    ensures Best(t, nb) == Best(t, nb')
  {
    if t.Node? {
      assert Sizes(t.left) <= Sizes(t) && Sizes(t.right) <= Sizes(t) && t.size in Sizes(t);
      BestAllFit(t.left, nb, nb');
      BestAllFit(t.right, nb, nb');
    }
  }

  /** For a small request the first marked bin holds the smallest of all large chunks. */
  lemma FirstBinSmallest(b: BinState, c: Contents, nb: nat)
    requires BinsOk(b, c) && nb < 256 && b.treemap != 0
    ensures LeastBit(b.treemap) != 0
    ensures var i := Bit2Idx(LeastBit(b.treemap));
      && i < NTREEBINS && c.trees[i].Node? && (forall s :: s in Sizes(c.trees[i]) ==> s >= 256)
      && BestFit(c.sz, nb, Best(c.trees[i], nb))
  {
    LeastIndex(b.treemap);
    var i := Bit2Idx(LeastBit(b.treemap));
    var t := c.trees[i];
    SmallestBinFits(b, c, i);
    assert |c.trees| == NTREEBINS && ComputeTreeIndex(256) == 0 by { IndexOf256(); }
    hide BinsOk, Best, ComputeTreeIndex, LeastBit;
    forall j: nat | j < i
      ensures Best(c.trees[j], 256) == NONE
    {
      EmptyBin(b, c, j, 256);
    }
    BestAllFit(t, nb, 256);
    BestBelow(t, 256, SIZE_BOUND);
    FirstBinIsBest(b, c, 256, i);
  }

  lemma IndexOf256()
    ensures ComputeTreeIndex(256) == 0
  {
    IndexPartitions(256);
    MinSizeSucc(0);
    assert Pow2(7) == 128 && Pow2(8) == 256;
    InBinUnique(256, 0, ComputeTreeIndex(256));
  }

  lemma SmallestBinFits(b: BinState, c: Contents, i: nat)
    requires BinsOk(b, c) && i < NTREEBINS && Bit(b.treemap, i)
    ensures c.trees[i].Node? && forall s :: s in Sizes(c.trees[i]) ==> 256 <= s < SIZE_BOUND
  {
    var t := c.trees[i];
    SizesOfBins(b, c, i);
    assert WF(t, BinLo(i), BinWidth(i), c.sz) by {
      assert TreeBinOk(b.links, b.treebins[i], t, Bit(b.treemap, i), i, c.sz);
    }
    hide BinsOk, WF, BinLo, BinWidth;
    BinPoints(b, c, i);
    SizesAbove(t, BinLo(i), BinWidth(i), c.sz, 256);
  }

  lemma FindStart(b: BinState, c: Contents, nb: nat)
    requires BinsOk(b, c) && 256 <= nb < NONE
    ensures var i := ComputeTreeIndex(nb);
      && Points(b.links, b.treebins[i], BinCursor(c, i), c.sz)
      && (nb < SIZE_BOUND ==> Steers((nb * Pow2(LeftShift(i))) % NONE, nb, BinLo(i), BinWidth(i)))
      && (nb >= SIZE_BOUND ==> forall s :: s in Sizes(c.trees[i]) ==> s < nb)
  {
    hide Points, Steers;
    BinPoints(b, c, ComputeTreeIndex(nb));
    if nb < SIZE_BOUND {
      SteerStart(nb);
    }
  }

  /** The request's own bin has the best fit if it has any: a candidate, or a subtree that fits. */
  lemma FindHere(b: BinState, c: Contents, nb: nat, p: int, u: Cursor, rsize: nat)
    requires BinsOk(b, c) && 256 <= nb && Points(b.links, p, u, c.sz) && Settled(u.tree, nb, rsize)
    requires Min(rsize + nb, Best(u.tree, nb)) == Best(c.trees[ComputeTreeIndex(nb)], nb)
    requires p != 0 || rsize + nb < NONE
    ensures BestFit(c.sz, nb, Best(c.trees[ComputeTreeIndex(nb)], nb))
  {
    hide BinsOk, Best, ComputeTreeIndex, BestFit;
    if nb < SIZE_BOUND {
      if rsize != 0 && p != 0 {
        SettledBest(b.links, p, u, c.sz, nb, rsize);
      }
      hide Points, Settled;
      FirstBinIsBest(b, c, nb, ComputeTreeIndex(nb));
    } else {
      TooLarge(b, c, nb);
    }
  }

  /** `if (trem < rsize) rsize = trem`: a size below `nb` wraps around to a remainder too large. */
  lemma TakeBetter(rsize: nat, s: nat, nb: nat)
    requires s < NONE && nb < NONE && rsize + nb <= NONE
    ensures var trem := Sub64(s, nb);
      && (trem < rsize ==> s == trem + nb)
      && forall rest: nat ::
        Min(rsize + nb, Min(Own(s, nb), rest)) == Min((if trem < rsize then trem else rsize) + nb, rest)
  {
  }

  /** What was found, the subtree at hand and the one set aside have the best fit of `top` between them. */
  ghost predicate Found(rsize: nat, nb: nat, u: Tree, a: Tree, top: Tree) {
    Min(rsize + nb, Min(Best(u, nb), Best(a, nb))) == Best(top, nb)
  }

  lemma FoundStep(rsize: nat, s: nat, nb: nat, u: Tree, a: Tree, u': Tree, a': Tree, top: Tree)
    requires s < NONE && nb < NONE && rsize + nb <= NONE && Found(rsize, nb, u, a, top)
    requires Min(Best(u, nb), Best(a, nb)) == Min(Own(s, nb), Min(Best(u', nb), Best(a', nb)))
    ensures Found(if Sub64(s, nb) < rsize then Sub64(s, nb) else rsize, nb, u', a', top)
  {
    hide Best, Sub64, Own, Min;
    TakeBetter(rsize, s, nb);
  }

  /** A chunk of exactly the size asked for: nothing is better. */
  lemma FoundExact(rsize: nat, nb: nat, u: Tree, a: Tree, top: Tree)
    requires Found(rsize, nb, u, a, top) && Best(u, nb) == nb && Best(a, nb) >= nb
    ensures Min(0 + nb, Best(u, nb)) == Best(top, nb) && Settled(u, nb, 0)
  {
    hide Best;
  }

  lemma FoundEnd(rsize: nat, nb: nat, u: Tree, a: Tree, top: Tree)
    requires Found(rsize, nb, u, a, top) && Min(Best(u, nb), Best(a, nb)) == Best(a, nb)
    ensures Min(rsize + nb, Best(a, nb)) == Best(top, nb)
  {
  }

  lemma NotExact(rsize: nat, s: nat, nb: nat)
    requires s < NONE && nb < NONE && 0 < rsize
    ensures s == nb ==> Sub64(s, nb) == 0 < rsize
  {
  }

  lemma Remainder(rsize: nat, s: nat, nb: nat)
    requires s < NONE && nb < NONE && rsize + nb <= NONE && Sub64(s, nb) < rsize
    ensures s == Sub64(s, nb) + nb && (Sub64(s, nb) == 0 ==> s == nb)
  {
    TakeBetter(rsize, s, nb);
  }

  /** Otherwise the next marked bin has it, and if there is none, nothing fits. */
  lemma FindBehind(b: BinState, c: Contents, nb: nat)
    requires BinsOk(b, c) && 256 <= nb < NONE
    requires Best(c.trees[ComputeTreeIndex(nb)], nb) == NONE
    ensures var left := And(LeftBits(Idx2Bit(ComputeTreeIndex(nb))), b.treemap);
      && (left == 0 ==> BestFit(c.sz, nb, NONE))
      && (left != 0 ==>
          && LeastBit(left) != 0
          && var i := Bit2Idx(LeastBit(left));
            && i < NTREEBINS && Points(b.links, b.treebins[i], BinCursor(c, i), c.sz)
            && (forall rsize: nat :: Settled(c.trees[i], nb, rsize))
            && Best(c.trees[i], nb) <= NONE && BestFit(c.sz, nb, Best(c.trees[i], nb)))
  {
    hide Points, BestFit, Best;
    var left := And(LeftBits(Idx2Bit(ComputeTreeIndex(nb))), b.treemap);
    if nb < SIZE_BOUND {
      NextBin(b, c, nb);
    } else {
      TooLarge(b, c, nb);
    }
    if left != 0 {
      LeastIndex(left);
      BinPoints(b, c, Bit2Idx(LeastBit(left)));
      BestBounds(b.links, b.treebins[Bit2Idx(LeastBit(left))], BinCursor(c, Bit2Idx(LeastBit(left))), c.sz, nb);
    }
  }

  /** Nowhere to look. */
  lemma NoCursor(l: Links, sz: map<int, nat>, nb: nat)
    ensures var u := Cursor(Leaf, 0, 0, 0, 0);
      Points(l, 0, u, sz) && Best(u.tree, nb) == NONE && forall rsize: nat :: Settled(u.tree, nb, rsize)
  {
    assert Pow2(0) == 1;
  }

  lemma SettledBest(l: Links, p: int, u: Cursor, sz: map<int, nat>, nb: nat, rsize: nat)
    requires p != 0 && Points(l, p, u, sz) && Settled(u.tree, nb, rsize) && rsize != 0 && nb < SIZE_BOUND
    ensures Best(u.tree, nb) < NONE
  {
    PointsBelow(l, p, u, sz);
    WFRange(u.tree, u.lo, u.w, sz);
    BestBelow(u.tree, nb, NONE);
  }
}
