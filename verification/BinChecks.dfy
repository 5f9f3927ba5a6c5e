/**
 Why the run-time checks on bin links always pass: the chunks that the links of a binned chunk
 lead to are binned chunks again, and the links lead back.
 */
module BinChecks {
  import opened PowersOfTwo
  import opened TreeIndex
  import opened BinMap
  import opened FreeLinks
  import opened SizeTrie
  import opened TrieRemove
  import opened TrieSearch
  import opened Bins
  import opened TreeBins
  import opened TrieWalk

  /* ---------------------------------- small bins ---------------------------------- */

  lemma SmallNeighbours(b: BinState, c: Contents, p: int)
    requires BinsOk(b, c) && p in c.sz && IsSmall(c.sz[p])
    ensures var l, h := b.links, SmallBinAt(SmallIndex(c.sz[p]));
      var f, k := Get(l.fd, p), Get(l.bk, p);
      && (f == h || (f in c.sz && f > 0 && Get(l.bk, f) == p))
      && (k == h || (k in c.sz && k > 0 && Get(l.fd, k) == p))
      && (f == k ==> f == h)
  {
    var i := SmallIndex(c.sz[p]);
    assert Binned(c, p);
    assert SmallBinOk(b.links, c.small[i], Bit(b.smallmap, i), i, c.sz);
    hide BinsOk, IsSmall, Binned;
    UnlinkSmallRing(b.links, c.small[i], p, i);
    RingOfSmall(b.links, c.small[i], p, SmallBinAt(i));
  }

  lemma RingOfSmall(l: Links, list: seq<int>, p: int, h: int)
    requires p in list && IsRing(l.fd, l.bk, [h] + list)
    ensures Get(l.bk, Get(l.fd, p)) == p && Get(l.fd, Get(l.bk, p)) == p
    ensures list == [p] ==> Get(l.fd, p) == h
  {
    var u := [h] + list;
    var k := IndexOf(list, p) + 1;
    assert u[k] == p;
    RingNeighbours(l.fd, l.bk, u, k);
    RingNeighbours(l.fd, l.bk, u, if k + 1 < |u| then k + 1 else 0);
    RingNeighbours(l.fd, l.bk, u, k - 1);
  }

  /** The first chunk of a marked bin. */
  lemma FirstSmall(b: BinState, c: Contents, i: nat)
    requires BinsOk(b, c) && i < NSMALLBINS && Bit(b.smallmap, i)
    ensures var p := Get(b.links.fd, SmallBinAt(i));
      && p in c.sz && c.sz[p] == 8 * i && IsSmall(c.sz[p]) && p > 0
      && Get(b.links.bk, p) == SmallBinAt(i)
      && (Get(b.links.fd, p) == SmallBinAt(i) || Get(b.links.fd, p) in c.sz)
      && Get(b.links.bk, Get(b.links.fd, p)) == p
      && |c.small| == NSMALLBINS && c.small[i] != [] && c.small[i][0] == p
  {
    assert SmallBinOk(b.links, c.small[i], Bit(b.smallmap, i), i, c.sz);
    hide BinsOk;
    var u := [SmallBinAt(i)] + c.small[i];
    RingNeighbours(b.links.fd, b.links.bk, u, 0);
    RingNeighbours(b.links.fd, b.links.bk, u, 1);
    RingNeighbours(b.links.fd, b.links.bk, u, if |u| > 2 then 2 else 0);
    assert u[1] in c.small[i];
    assert |u| > 2 ==> u[2] in c.small[i];
  }

  /** A small size that is in use has a marked bin, and an unmarked bin holds nothing. */
  lemma UnmarkedIsEmpty(b: BinState, c: Contents, a: int)
    requires BinsOk(b, c) && a in c.sz && IsSmall(c.sz[a])
    ensures Bit(b.smallmap, SmallIndex(c.sz[a]))
  {
    var i := SmallIndex(c.sz[a]);
    assert Binned(c, a);
    assert SmallBinOk(b.links, c.small[i], Bit(b.smallmap, i), i, c.sz);
  }

  /** `smallbits`, the small map from bin `idx` on: its two low bits. */
  lemma LowTwoBits(marks: bv32, idx: nat)
    ensures And(Shr(marks, idx), 3) != 0 <==> Bit(marks, idx) || Bit(marks, idx + 1)
    ensures Odd(Shr(marks, idx)) <==> Bit(marks, idx)
  {
    hide Shr, And, Shr1, Odd;
    var x := Shr(marks, idx);
    ShrBits(marks, idx, 0);
    ShrBits(marks, idx, 1);
    LowTwo(x);
    assert Bit(x, 0) <==> Odd(x);
    assert Bit(x, 1) <==> Odd(Shr1(x)) by {
      assert Bit(x, 1) <==> Bit(Shr1(x), 0);
    }
  }

  lemma AndZero(x: bv32, y: bv32)
    requires And(x, y) != 0
    ensures x != 0
  {
  }

  lemma LowTwo(x: bv32)
    ensures And(x, 3) != 0 <==> Odd(x) || Odd(Shr1(x))
  {
  }

  /** The next marked small bin, when neither of the first two is. */
  lemma NextSmallBin(marks: bv32, idx: nat)
    requires idx < 32 && Shr(marks, idx) != 0 && !Bit(marks, idx) && !Bit(marks, idx + 1)
    ensures var left := And(Shl(Shr(marks, idx), idx), LeftBits(Idx2Bit(idx)));
      && left != 0 && LeastBit(left) != 0
      && var i := Bit2Idx(LeastBit(left));
        idx < i < 32 && Bit(marks, i) && forall j: nat :: idx < j < i ==> !Bit(marks, j)
  {
    hide Shr, Shl, LeftBits, Idx2Bit, And, LeastBit, Bit;
    var low := Shr(marks, idx);
    var up, mask := Shl(low, idx), LeftBits(Idx2Bit(idx));
    var left := And(up, mask);
    LeastSetBit(low);
    var k := Bit2Idx(low);
    ShrBits(marks, idx, k);
    BitRange(marks, idx + k);
    assert k != 0;
    SmallBitsBehind(marks, idx, idx + k);
    BitNotZero(left, idx + k);
    LeastIndex(left);
    SmallBitsBehind(marks, idx, Bit2Idx(LeastBit(left)));
    forall j: nat | idx < j < Bit2Idx(LeastBit(left))
      ensures !Bit(marks, j)
    {
      SmallBitsBehind(marks, idx, j);
    }
  }

  /** A small bin is marked exactly if it holds a chunk. */
  lemma MarkedHolds(b: BinState, c: Contents, i: nat)
    requires BinsOk(b, c) && i < NSMALLBINS
    ensures |c.small| == NSMALLBINS && (Bit(b.smallmap, i) <==> c.small[i] != [])
  {
    assert SmallBinOk(b.links, c.small[i], Bit(b.smallmap, i), i, c.sz);
  }

  /** The first marked small bin from that of `nb` on has the smallest binned chunks with `nb` bytes. */
  lemma FirstMarkedLeast(b: BinState, c: Contents, nb: nat, i: nat)
    requires BinsOk(b, c) && SmallIndex(nb) <= i < NSMALLBINS
    requires forall j: nat :: SmallIndex(nb) <= j < i ==> !Bit(b.smallmap, j)
    ensures forall a :: a in c.sz && nb <= c.sz[a] ==> 8 * i <= c.sz[a]
  {
    hide BinsOk, Bit;
    forall a | a in c.sz && nb <= c.sz[a]
      ensures 8 * i <= c.sz[a]
    {
      if IsSmall(c.sz[a]) {
        UnmarkedIsEmpty(b, c, a);
      }
    }
  }

  /** With no small bin in use from that of `nb` on, only large chunks have `nb` bytes. */
  lemma NoSmallFits(b: BinState, c: Contents, nb: nat)
    requires BinsOk(b, c) && Shr(b.smallmap, SmallIndex(nb)) == 0
    ensures forall a :: a in c.sz && IsSmall(c.sz[a]) ==> c.sz[a] < nb
  {
    hide BinsOk, Bit, Shr;
    forall a | a in c.sz && IsSmall(c.sz[a])
      ensures c.sz[a] < nb
    {
      var i, idx := SmallIndex(c.sz[a]), SmallIndex(nb);
      UnmarkedIsEmpty(b, c, a);
      if i >= idx {
        ShrBits(b.smallmap, idx, i - idx);
        BitOfZero(i - idx);
      }
    }
  }

  lemma BitNotZero(x: bv32, i: nat)
    requires Bit(x, i)
    ensures x != 0
  {
    BitOfZero(i);
  }

  lemma SmallBitsBehind(marks: bv32, idx: nat, j: nat)
    requires idx < 32 && j < 32
    ensures Bit(And(Shl(Shr(marks, idx), idx), LeftBits(Idx2Bit(idx))), j) <==> j > idx && Bit(marks, j)
  {
    BitAnd(Shl(Shr(marks, idx), idx), LeftBits(Idx2Bit(idx)), j);
    LeftBitsMask(idx, j);
    ShlBits(Shr(marks, idx), idx, j);
    if j > idx {
      ShrBits(marks, idx, j - idx);
    }
  }

  /** With no small bin from `nb` on and no tree bin in use, nothing that is binned has `nb` bytes. */
  lemma NothingBinned(b: BinState, c: Contents, nb: nat)
    requires BinsOk(b, c) && Shr(b.smallmap, SmallIndex(nb)) == 0 && b.treemap == 0
    ensures forall a :: a in c.sz ==> c.sz[a] < nb
  {
    hide BinsOk, Bit, Shr;
    NoLargeBinned(b, c);
    NoSmallFits(b, c, nb);
  }

  lemma LargeIsMarked(b: BinState, c: Contents, a: int)
    requires BinsOk(b, c) && a in c.sz && !IsSmall(c.sz[a])
    ensures Bit(b.treemap, ComputeTreeIndex(c.sz[a])) && b.treemap != 0
  {
    var i := ComputeTreeIndex(c.sz[a]);
    assert Binned(c, a);
    assert TreeBinOk(b.links, b.treebins[i], c.trees[i], Bit(b.treemap, i), i, c.sz);
    BitNotZero(b.treemap, i);
  }

  /** With no tree bin in use there are no large chunks, so all that is binned is small. */
  lemma NoLargeBinned(b: BinState, c: Contents)
    requires BinsOk(b, c) && b.treemap == 0
    ensures forall a :: a in c.sz ==> IsSmall(c.sz[a])
  {
    forall a | a in c.sz
      ensures IsSmall(c.sz[a])
    {
      if !IsSmall(c.sz[a]) {
        LargeIsMarked(b, c, a);
      }
    }
  }

  /* ----------------------------------- tree bins ----------------------------------- */

  /** One step of the insertion's descent: the bit steers to the half the size lies in. */
  lemma InsertStep(l: Links, p: int, u: Cursor, sz: map<int, nat>, s: nat, x: int, k: nat)
    requires p != 0 && Points(l, p, u, sz) && Steers(k, s, u.lo, u.w) && p in sz && sz[p] != s
    ensures var right := k >= 0x8000_0000_0000_0000;
      var c := Child(l, p, right);
      && u.tree.Node? && u.w > 0
      && (c == 0 ==> InsertLinks(l, p, u.tree, u.lo, u.w, s, x) == Hang(l, p, right, x))
      && (c != 0 ==>
          && Points(l, c, Below(p, u, right), sz) && Below(p, u, right).tree.Node?
          && Below(p, u, right).tree < u.tree
          && Steers((2 * k) % NONE, s, Below(p, u, right).lo, u.w - 1)
          && InsertLinks(l, p, u.tree, u.lo, u.w, s, x) ==
             InsertLinks(l, c, Below(p, u, right).tree, Below(p, u, right).lo, u.w - 1, s, x))
  {
    hide Points, Steers, Hang, InsertLinks, Rep, Child, Half, Pow2, Sizes;
    SteersRange(k, s, u.lo, u.w);
    PointsBelow(l, p, u, sz);
    WidthLeft(u, sz[p], s);
    SteerStep(k, s, u.lo, u.w);
    InsertTurn(l, p, u, sz, s, x, k >= 0x8000_0000_0000_0000);
  }

  lemma SteersRange(k: nat, s: nat, lo: nat, w: nat)
    requires Steers(k, s, lo, w)
    ensures lo <= s < lo + Pow2(w)
  {
  }

  lemma InsertTurn(l: Links, p: int, u: Cursor, sz: map<int, nat>, s: nat, x: int, right: bool)
    requires p != 0 && Points(l, p, u, sz) && u.tree.Node? && u.w > 0 && u.tree.size != s
    requires right <==> s >= u.lo + Half(u.w)
    ensures var c := Child(l, p, right);
      && (c == 0 ==> InsertLinks(l, p, u.tree, u.lo, u.w, s, x) == Hang(l, p, right, x))
      && (c != 0 ==>
          && Points(l, c, Below(p, u, right), sz) && Below(p, u, right).tree.Node?
          && Below(p, u, right).tree < u.tree
          && InsertLinks(l, p, u.tree, u.lo, u.w, s, x) ==
             InsertLinks(l, c, Below(p, u, right).tree, Below(p, u, right).lo, u.w - 1, s, x))
  {
    hide WF, InsertLinks, Hang, IsSmall, IsRing, Chained;
    PointsBelow(l, p, u, sz);
    var t := if right then u.tree.right else u.tree.left;
    assert Rep(l, Child(l, p, right), t, p, u.idx);
    RepRoot(l, Child(l, p, right), t, p, u.idx);
    assert Child(l, p, right) == if right then Get(l.child1, p) else Get(l.child0, p);
    hide Points, Hang, Rep, InsertLinks, Child;
    InsertUnfold(l, p, u.tree, u.lo, u.w, s, x, right);
  }

  /** A node of the chunk's size: its ring takes the chunk. */
  lemma InsertStop(l: Links, p: int, u: Cursor, sz: map<int, nat>, s: nat, x: int)
    requires p != 0 && Points(l, p, u, sz) && p in sz && sz[p] == s && u.tree.Node?
    ensures Get(l.fd, p) in sz && Get(l.fd, p) > 0
    ensures var m := RingInsert(l, p, x);
      InsertLinks(l, p, u.tree, u.lo, u.w, s, x) == m.(parent := m.parent[x := 0])
  {
    PointsBelow(l, p, u, sz);
    RingNeighbours(l.fd, l.bk, u.tree.ring, 0);
    assert Get(l.fd, p) in u.tree.ring;
  }

  /** The insertion starts at the root, with the new chunk's own words prepared. */
  lemma InsertStart(b: BinState, c: Contents, x: int, s: nat)
    requires BinsOk(b, c) && x > 0 && x !in c.sz && !IsSmall(s) && s < SIZE_BOUND
    ensures var i := ComputeTreeIndex(s);
      && Points(Prepare(b.links, x, i), b.treebins[i], BinCursor(c, i), c.sz)
      && Steers((s * Pow2(LeftShift(i))) % NONE, s, BinLo(i), BinWidth(i))
      && (Bit(b.treemap, i) <==> c.trees[i].Node?) && (Bit(b.treemap, i) <==> b.treebins[i] != 0)
  {
    var i := ComputeTreeIndex(s);
    SteerStart(s);
    BinPoints(b, c, i);
    PrepareFrame(b.links, x, i);
    var l := Prepare(b.links, x, i);
    hide Prepare;
    RepFrame(b.links, l, b.treebins[i], c.trees[i], TreeBinAt(i), i);
    hide Rep, WF, BinsOk;
  }

  /** Where a chunk's node hangs: below the bin's root slot, or below another chunk of the trie. */
  ghost predicate Hangs(l: Links, n: Tree, par: int, idx: int, p: int, top: int, addrs: set<int>) {
    && n.Node? && |n.ring| > 0 && Rep(l, n.ring[0], n, par, idx) && AllDisjoint(n) && Addrs(n) <= addrs
    && (if n.ring[0] == p then par == top else par in addrs)
    && par !in Addrs(n)
  }

  lemma {:induction false} NodeRep(
    l: Links, p: int, t: Tree, par: int, idx: int, lo: nat, w: nat, sz: map<int, nat>, x: int) returns (par': int)
    requires Rep(l, p, t, par, idx) && WF(t, lo, w, sz) && x in Addrs(t) && x in sz && par !in Addrs(t)
    ensures Hangs(l, NodeOf(t, lo, w, sz[x]), par', idx, p, par, Addrs(t))
    ensures x in NodeOf(t, lo, w, sz[x]).ring
    decreases t
  {
    hide Rep, WF, Disjoint, AllDisjoint, Addrs, NodeOf, Hangs, Half;
    LeafHasNone(t, x);
    Locate(t, lo, w, sz, x);
    WFAllDisjoint(t, lo, w, sz);
    if x in t.ring {
      par' := par;
      NodeHere(l, p, t, par, idx, lo, w, sz, x);
    } else {
      var right := sz[x] >= lo + Half(w);
      var c, s := Child(l, p, right), if right then t.right else t.left;
      var lo' := if right then lo + Half(w) else lo;
      NodeDown(l, p, t, par, idx, lo, w, sz, x, right);
      par' := NodeRep(l, c, s, p, idx, lo', w - 1, sz, x);
      NodeRepAbove(l, p, t, par, idx, right, NodeOf(t, lo, w, sz[x]), par');
    }
  }

  lemma NodeHere(l: Links, p: int, t: Tree, par: int, idx: int, lo: nat, w: nat, sz: map<int, nat>, x: int)
    requires t.Node? && Rep(l, p, t, par, idx) && AllDisjoint(t) && par !in Addrs(t)
    requires x in sz && x in t.ring && sz[x] == t.size
    ensures NodeOf(t, lo, w, sz[x]) == t && Hangs(l, t, par, idx, p, par, Addrs(t))
  {
    hide IsRing, Chained, AllDisjoint, Addrs;
  }

  lemma NodeDown(
    l: Links, p: int, t: Tree, par: int, idx: int, lo: nat, w: nat, sz: map<int, nat>, x: int, right: bool)
    requires t.Node? && Rep(l, p, t, par, idx) && WF(t, lo, w, sz) && AllDisjoint(t) && x in sz && w > 0
    requires sz[x] != t.size && (right <==> sz[x] >= lo + Half(w))
    ensures var s, lo' := if right then t.right else t.left, if right then lo + Half(w) else lo;
      && p !in Addrs(s) && Rep(l, Child(l, p, right), s, p, idx) && WF(s, lo', w - 1, sz) && s < t && Disjoint(t)
      && NodeOf(t, lo, w, sz[x]) == NodeOf(s, lo', w - 1, sz[x])
  {
    hide IsRing, Chained, Half;
    assert p in t.ring;
  }

  lemma NodeRepAbove(l: Links, p: int, t: Tree, par: int, idx: int, right: bool, n: Tree, par': int)
    requires t.Node? && Rep(l, p, t, par, idx) && Disjoint(t) && par !in Addrs(t)
    requires var s := if right then t.right else t.left;
      Hangs(l, n, par', idx, Child(l, p, right), p, Addrs(s))
    ensures Hangs(l, n, par', idx, p, par, Addrs(t))
  {
    assert p in t.ring && n.ring[0] in n.ring;
    assert n.ring[0] in Addrs(n);
  }

  /** Everything `unlink_large_chunk` finds at a chunk `x` of the node `n`, before it writes. */
  ghost predicate Unlinkable(l: Links, n: Tree, x: int, idx: int, par: int, sz: map<int, nat>) {
    && n.Node? && |n.ring| > 0 && x in n.ring && Rep(l, n.ring[0], n, par, idx) && AllDisjoint(n)
    && (forall a :: a in Addrs(n) ==> a in sz && a > 0)
    && par !in Addrs(n)
  }

  lemma UnlinkStart(b: BinState, c: Contents, x: int) returns (par: int)
    requires BinsOk(b, c) && x in c.sz && !IsSmall(c.sz[x])
    ensures var i := ComputeTreeIndex(c.sz[x]);
      var n := NodeOf(c.trees[i], BinLo(i), BinWidth(i), c.sz[x]);
      && Unlinkable(b.links, n, x, i, par, c.sz)
      && (if n.ring[0] == b.treebins[i] then par == TreeBinAt(i) else par in c.sz)
  {
    var i := ComputeTreeIndex(c.sz[x]);
    assert Binned(c, x);
    SizesOfBins(b, c, i);
    assert TreeBinOk(b.links, b.treebins[i], c.trees[i], Bit(b.treemap, i), i, c.sz);
    hide BinsOk, IsSmall, ComputeTreeIndex, BinLo, BinWidth;
    par := NodeRep(b.links, b.treebins[i], c.trees[i], TreeBinAt(i), i, BinLo(i), BinWidth(i), c.sz, x);
    hide Rep, WF, NodeOf, Addrs, AllDisjoint;
  }

  /** The ring links of a chunk that is not alone. */
  lemma UnlinkRingChecks(l: Links, n: Tree, x: int, idx: int, par: int, sz: map<int, nat>)
    requires Unlinkable(l, n, x, idx, par, sz)
    ensures var f, r := Get(l.fd, x), Get(l.bk, x);
      && f in sz && f > 0 && r in sz && r > 0 && Get(l.bk, f) == x && Get(l.fd, r) == x
    ensures Get(l.bk, x) != x <==> |n.ring| > 1
    ensures Get(l.parent, x) == if x == n.ring[0] then par else 0
    ensures Get(l.index, x) == idx
    ensures |n.ring| == 1 ==> n.ring == [x]
  {
    var k := IndexOf(n.ring, x);
    var m := |n.ring|;
    RingNeighbours(l.fd, l.bk, n.ring, k);
    RingNeighbours(l.fd, l.bk, n.ring, if k + 1 < m then k + 1 else 0);
    RingNeighbours(l.fd, l.bk, n.ring, if k > 0 then k - 1 else m - 1);
    assert forall a :: a in n.ring ==> a in Addrs(n);
    assert Get(l.fd, x) in n.ring && Get(l.bk, x) in n.ring;
  }

  /** The children of the node's head. */
  lemma HeadChildren(l: Links, n: Tree, x: int, idx: int, par: int, sz: map<int, nat>, right: bool)
    requires Unlinkable(l, n, x, idx, par, sz) && x == n.ring[0]
    ensures var c, s := Child(l, x, right), if right then n.right else n.left;
      && (c != 0 <==> s.Node?) && (c != 0 ==> c in sz && c > 0 && c != x && Below1(l, c, s, x, idx, sz))
  {
    assert x in n.ring;
    var c, s := Child(l, x, right), if right then n.right else n.left;
    RepRoot(l, c, s, x, idx);
  }

  /** A non-empty subtree on the way to the rightmost leaf. */
  ghost predicate Below1(l: Links, c: int, s: Tree, par: int, idx: int, sz: map<int, nat>) {
    && s.Node? && Rep(l, c, s, par, idx) && forall a :: a in Addrs(s) ==> a in sz && a > 0
  }

  lemma LeafStep(l: Links, c: int, s: Tree, p: int, side: bool, idx: int, sz: map<int, nat>)
    requires Below1(l, c, s, p, idx, sz)
    ensures c in sz && c > 0
    ensures Get(l.child1, c) != 0 <==> s.right.Node?
    ensures Get(l.child0, c) != 0 <==> s.left.Node?
    ensures s.right.Node? ==>
      && Below1(l, Get(l.child1, c), s.right, c, idx, sz)
      && RightLeaf(l, c, s, p, side) == RightLeaf(l, Get(l.child1, c), s.right, c, true)
    ensures s.right.Leaf? && s.left.Node? ==>
      && Below1(l, Get(l.child0, c), s.left, c, idx, sz)
      && RightLeaf(l, c, s, p, side) == RightLeaf(l, Get(l.child0, c), s.left, c, false)
    ensures s.right.Leaf? && s.left.Leaf? ==> RightLeaf(l, c, s, p, side) == (c, p, side)
  {
    assert c in s.ring && c in Addrs(s);
    RepRoot(l, Get(l.child0, c), s.left, c, idx);
    RepRoot(l, Get(l.child1, c), s.right, c, idx);
    assert forall a :: a in Addrs(s.left) || a in Addrs(s.right) ==> a in Addrs(s);
  }

  lemma {:induction false} RightLeafInside(l: Links, c: int, s: Tree, p: int, side: bool, idx: int, sz: map<int, nat>)
    requires Below1(l, c, s, p, idx, sz)
    ensures RightLeaf(l, c, s, p, side).0 in Addrs(s)
    decreases s
  {
    LeafStep(l, c, s, p, side, idx, sz);
    assert c in s.ring;
    if s.right.Node? {
      RightLeafInside(l, Get(l.child1, c), s.right, c, true, idx, sz);
    } else if s.left.Node? {
      RightLeafInside(l, Get(l.child0, c), s.left, c, false, idx, sz);
    }
  }

  /** What `x` points to once the replacement `r` is found. */
  ghost predicate Spliced(l: Links, m: Links, x: int, r: int) {
    && Get(m.index, x) == Get(l.index, x)
    && Get(m.child0, x) in {0, Get(l.child0, x)} && Get(m.child1, x) in {0, Get(l.child1, x)}
    && r != x
  }

  lemma SpliceKeeps(l: Links, n: Tree, x: int, idx: int, par: int, sz: map<int, nat>)
    requires Unlinkable(l, n, x, idx, par, sz) && x == n.ring[0]
    ensures var (m, r) := SpliceOut(l, x, n);
      Spliced(l, m, x, r)
  {
    UnlinkRingChecks(l, n, x, idx, par, sz);
    HeadChildren(l, n, x, idx, par, sz, true);
    HeadChildren(l, n, x, idx, par, sz, false);
    assert x in n.ring && x != 0 && x in Addrs(n);
    if |n.ring| == 1 {
      if n.right.Node? {
        RightLeafInside(l, Get(l.child1, x), n.right, x, true, idx, sz);
      } else if n.left.Node? {
        RightLeafInside(l, Get(l.child0, x), n.left, x, false, idx, sz);
      }
    }
  }

  /** What relinking relies on after the first part of `unlink_large_chunk`. */
  lemma RelinkReady(l: Links, n: Tree, x: int, i: nat, par: int, sz: map<int, nat>, root: int)
    requires i < NTREEBINS && Unlinkable(l, n, x, i, par, sz)
    requires if n.ring[0] == root then par == TreeBinAt(i) else par in sz
    ensures n.Node?
    ensures var xp, (m, r) := Get(l.parent, x), SpliceOut(l, x, n);
      xp != 0 ==>
        && xp != x && r != x && (x != root ==> xp in sz) && Get(m.index, x) == i
        && (Get(m.child0, x) == 0 || Get(m.child0, x) in sz) && (Get(m.child1, x) == 0 || Get(m.child1, x) in sz)
  {
    UnlinkRingChecks(l, n, x, i, par, sz);
    if Get(l.parent, x) != 0 {
      SpliceKeeps(l, n, x, i, par, sz);
      HeadChildren(l, n, x, i, par, sz, true);
      HeadChildren(l, n, x, i, par, sz, false);
      assert x in Addrs(n);
      hide Unlinkable, SpliceOut, Below1;
    }
  }

  /** With nothing binned, the bins are intact whatever the links hold. */
  lemma EmptyBinsOk(b: BinState, c: Contents, m: Links)
    requires BinsOk(b, c) && c.sz == map[]
    ensures BinsOk(b.(links := m), c)
  {
    forall i: nat | i < 32
      ensures SmallBinOk(m, c.small[i], Bit(b.smallmap, i), i, c.sz)
      ensures TreeBinOk(m, b.treebins[i], c.trees[i], Bit(b.treemap, i), i, c.sz)
    {
      assert SmallBinOk(b.links, c.small[i], Bit(b.smallmap, i), i, c.sz);
      assert TreeBinOk(b.links, b.treebins[i], c.trees[i], Bit(b.treemap, i), i, c.sz);
      SizesOfBins(b, c, i);
      if c.small[i] != [] {
        assert c.small[i][0] in c.small[i];
      }
      RepRoot(b.links, b.treebins[i], c.trees[i], TreeBinAt(i), i);
    }
  }

  /** The bins of a zeroed `malloc_state`. */
  lemma ZeroBinsOk(l: Links)
    ensures BinsOk(
      BinState(l, seq(NTREEBINS, i => 0), 0, 0),
      Contents(seq(NSMALLBINS, i => []), seq(NTREEBINS, i => Leaf), map[]))
  {
    forall i: nat | i < 32
      ensures !Bit(0, i)
    {
      BitOfZero(i);
    }
  }
}
