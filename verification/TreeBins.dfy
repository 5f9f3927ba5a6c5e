/** Inserting into and unlinking from the tree bins: the tries in their place among all bins. */
module TreeBins {
  import opened PowersOfTwo
  import opened TreeIndex
  import opened BinMap
  import opened FreeLinks
  import opened SizeTrie
  import opened TrieRemove
  import opened TrieSearch
  import opened Bins

  /** `insert_large_chunk`; `t` is the trie the chunk's bin holds. */
  ghost function InsertLarge(b: BinState, x: int, s: nat, t: Tree): BinState
    requires |b.treebins| == NTREEBINS
  {
    var i := ComputeTreeIndex(s);
    var l := Prepare(b.links, x, i);
    if !Bit(b.treemap, i) || t.Leaf? then
      BinState(PlantRoot(l, x, i), b.treebins[i := x], b.smallmap, Mark(b.treemap, i))
    else b.(links := InsertLinks(l, b.treebins[i], t, BinLo(i), BinWidth(i), s, x))
  }

  /** `*H = X; X->parent = (tchunkptr)H; X->fd = X->bk = X`. */
  function PlantRoot(l: Links, x: int, i: nat): Links {
    l.(parent := l.parent[x := TreeBinAt(i)], fd := l.fd[x := x], bk := l.bk[x := x])
  }

  ghost function InsertLargeContents(c: Contents, x: int, s: nat): Contents
    requires |c.trees| == NTREEBINS
  {
    var i := ComputeTreeIndex(s);
    c.(trees := c.trees[i := InsertTree(c.trees[i], BinLo(i), BinWidth(i), s, x)], sz := c.sz[x := s])
  }

  /** `unlink_large_chunk`, with the bin's root slot and map bit. */
  ghost function UnlinkLarge(b: BinState, x: int, s: nat, t: Tree): BinState
    requires |b.treebins| == NTREEBINS && NodeOf(t, BinLo(ComputeTreeIndex(s)), BinWidth(ComputeTreeIndex(s)), s).Node?
  {
    var i := ComputeTreeIndex(s);
    var atRoot := Get(b.links.parent, x) != 0 && x == b.treebins[i];
    var (m, r) := UnlinkLinks(b.links, x, NodeOf(t, BinLo(i), BinWidth(i), s), atRoot);
    if atRoot then
      BinState(m, b.treebins[i := r], b.smallmap, if r == 0 then Clear(b.treemap, i) else b.treemap)
    else b.(links := m)
  }

  ghost function UnlinkLargeContents(c: Contents, x: int): Contents
    requires |c.trees| == NTREEBINS && x in c.sz
  {
    var i := ComputeTreeIndex(c.sz[x]);
    c.(trees := c.trees[i := RemoveTree(c.trees[i], BinLo(i), BinWidth(i), c.sz[x], x)], sz := c.sz - {x})
  }

  /** A size lies in the range its bin resolves. */
  lemma InRange(s: nat)
    requires !IsSmall(s) && s < 0x100_0000_0000
    ensures var i := ComputeTreeIndex(s);
      InBin(s, i) && BinLo(i) <= s < BinLo(i) + Pow2(BinWidth(i))
  {
    hide ComputeTreeIndex, MinSize, Pow2;
    IndexPartitions(s);
    var i := ComputeTreeIndex(s);
    if i < NTREEBINS - 1 {
      MinSizeSucc(i);
    } else {
      Word64();
    }
  }

  /* ------------------------- what a tree operation leaves alone ------------------------- */

  /** Only the chunks of bin `i` and `x` change words. */
  ghost predicate OnlyTree(l: Links, m: Links, c: Contents, i: nat, x: int)
    requires i < |c.trees|
  {
    forall a :: a > 0 || (exists j: nat :: j < 32 && a == SmallBinAt(j)) ==>
      a != x && a !in Addrs(c.trees[i]) ==> Same(l, m, a)
  }

  lemma SmallBinsKept(b: BinState, m: Links, c: Contents, i: nat, x: int, j: nat, sz': map<int, nat>)
    requires BinsOk(b, c) && i < 32 && j < 32 && OnlyTree(b.links, m, c, i, x) && x > 0
    requires x !in c.small[j] && forall a :: a in c.sz && a != x ==> a in sz' && sz'[a] == c.sz[a]
    ensures SmallBinOk(m, c.small[j], Bit(b.smallmap, j), j, sz')
  {
    SizesOfBins(b, c, i);
    SizesOfBins(b, c, j);
    assert SmallBinOk(b.links, c.small[j], Bit(b.smallmap, j), j, c.sz);
    forall a | a in c.small[j] || a == SmallBinAt(j)
      ensures Same(b.links, m, a)
    {
      assert a !in Addrs(c.trees[i]);
    }
    hide SmallBinOk, BinsOk;
    SmallBinFrame(b.links, m, c.small[j], Bit(b.smallmap, j), j, c.sz, sz');
  }

  lemma OtherTreeBins(b: BinState, m: Links, c: Contents, i: nat, x: int, j: nat, sz': map<int, nat>)
    requires BinsOk(b, c) && i < 32 && j < 32 && i != j && OnlyTree(b.links, m, c, i, x)
    requires x !in Addrs(c.trees[j]) && forall a :: a in c.sz && a != x ==> a in sz' && sz'[a] == c.sz[a]
    ensures TreeBinOk(m, b.treebins[j], c.trees[j], Bit(b.treemap, j), j, sz')
  {
    SizesOfBins(b, c, i);
    SizesOfBins(b, c, j);
    assert TreeBinOk(b.links, b.treebins[j], c.trees[j], Bit(b.treemap, j), j, c.sz);
    hide TreeBinOk, BinsOk;
    forall a | a in Addrs(c.trees[j])
      ensures Same(b.links, m, a)
    {
      assert a !in Addrs(c.trees[i]) && a > 0;
    }
    TreeBinFrame(b.links, m, b.treebins[j], c.trees[j], Bit(b.treemap, j), j, c.sz, sz');
  }

  /* ---------------------------------- insertion ---------------------------------- */

  lemma PrepareFrame(l: Links, x: int, i: int)
    ensures forall a :: a != x ==> Same(l, Prepare(l, x, i), a)
    ensures Prepared(Prepare(l, x, i), x, i)
  {
  }

  /** The bin that receives the chunk. */
  lemma InsertedTreeBin(b: BinState, t: Tree, x: int, s: nat, sz: map<int, nat>)
    requires !IsSmall(s) && s < 0x100_0000_0000 && x > 0 && x !in sz && |b.treebins| == NTREEBINS
    requires var i := ComputeTreeIndex(s);
      TreeBinOk(b.links, b.treebins[i], t, Bit(b.treemap, i), i, sz)
    ensures var i, b' := ComputeTreeIndex(s), InsertLarge(b, x, s, t);
      TreeBinOk(b'.links, b'.treebins[i], InsertTree(t, BinLo(i), BinWidth(i), s, x), Bit(b'.treemap, i), i, sz[x := s])
  {
    hide WF, Rep, Addrs, Sizes, InsertLinks, Bit, Mark, ComputeTreeIndex, BinLo, BinWidth, Pow2, Same;
    var i := ComputeTreeIndex(s);
    var lo, w := BinLo(i), BinWidth(i);
    InRange(s);
    WFRange(t, lo, w, sz);
    InsertTreeWF(t, lo, w, sz, s, x);
    InsertTreeMembers(t, lo, w, sz, s, x);
    PrepareFrame(b.links, x, i);
    var l := Prepare(b.links, x, i);
    MarkBits(b.treemap, i, i);
    if t.Leaf? {
      SingletonRep(PlantRoot(l, x, i), x, s, TreeBinAt(i), i);
    } else {
      RepFrame(b.links, l, b.treebins[i], t, TreeBinAt(i), i);
      InsertRep(l, b.treebins[i], t, TreeBinAt(i), i, lo, w, sz, s, x);
    }
  }

  lemma InsertLargeFrame(b: BinState, t: Tree, x: int, s: nat, sz: map<int, nat>)
    requires |b.treebins| == NTREEBINS && x !in Addrs(t)
    requires var i := ComputeTreeIndex(s);
      TreeBinOk(b.links, b.treebins[i], t, Bit(b.treemap, i), i, sz)
    ensures forall a :: a != x && a !in Addrs(t) ==> Same(b.links, InsertLarge(b, x, s, t).links, a)
  {
    var i := ComputeTreeIndex(s);
    var l := Prepare(b.links, x, i);
    PrepareFrame(b.links, x, i);
    if t.Node? {
      RepFrame(b.links, l, b.treebins[i], t, TreeBinAt(i), i);
      forall a | a != x && a !in Addrs(t)
        ensures Same(l, InsertLarge(b, x, s, t).links, a)
      {
        InsertLinksFrame(l, b.treebins[i], t, TreeBinAt(i), i, BinLo(i), BinWidth(i), s, x, a);
      }
    }
  }

  lemma InsertLargeOk(b: BinState, c: Contents, x: int, s: nat)
    requires BinsOk(b, c) && x > 0 && x !in c.sz && !IsSmall(s) && s < 0x100_0000_0000
    ensures BinsOk(InsertLarge(b, x, s, c.trees[ComputeTreeIndex(s)]), InsertLargeContents(c, x, s))
  {
    hide SmallBinOk, TreeBinOk, InsertLarge, InsertTree, BinLo, BinWidth, ComputeTreeIndex, IsSmall, Bit, Addrs;
    var i := ComputeTreeIndex(s);
    var b', c' := InsertLarge(b, x, s, c.trees[i]), InsertLargeContents(c, x, s);
    InsertLargeMembers(b, c, x, s);
    forall j: nat | j < 32
      ensures SmallBinOk(b'.links, c'.small[j], Bit(b'.smallmap, j), j, c'.sz)
      ensures TreeBinOk(b'.links, b'.treebins[j], c'.trees[j], Bit(b'.treemap, j), j, c'.sz)
    {
      AfterInsertLarge(b, b', c, c', x, s, i, j);
    }
    forall a | a in c'.sz
      ensures Binned(c', a)
    {
      assert a != x ==> Binned(c, a);
    }
  }

  /** The chunk joins the trie of its bin, and no other. */
  lemma InsertLargeMembers(b: BinState, c: Contents, x: int, s: nat)
    requires BinsOk(b, c) && x > 0 && x !in c.sz && !IsSmall(s) && s < 0x100_0000_0000
    ensures var i, c' := ComputeTreeIndex(s), InsertLargeContents(c, x, s);
      && |InsertLarge(b, x, s, c.trees[i]).treebins| == 32
      && Addrs(c'.trees[i]) == Addrs(c.trees[i]) + {x}
      && forall j: nat :: j < 32 && j != i ==> c'.trees[j] == c.trees[j]
  {
    hide InsertTree, InsertLinks, SmallBinOk, ComputeTreeIndex, Rep, WF;
    var i := ComputeTreeIndex(s);
    InRange(s);
    assert TreeBinOk(b.links, b.treebins[i], c.trees[i], Bit(b.treemap, i), i, c.sz);
    InsertTreeMembers(c.trees[i], BinLo(i), BinWidth(i), c.sz, s, x);
  }

  lemma InsertLargeTouches(b: BinState, x: int, s: nat, t: Tree, j: nat)
    requires |b.treebins| == 32 && j < 32
    ensures var b' := InsertLarge(b, x, s, t);
      && b'.smallmap == b.smallmap && |b'.treebins| == 32
      && (j != ComputeTreeIndex(s) ==>
          b'.treebins[j] == b.treebins[j] && (Bit(b'.treemap, j) <==> Bit(b.treemap, j)))
  {
    MarkBits(b.treemap, ComputeTreeIndex(s), j);
  }

  lemma AfterInsertLarge(b: BinState, b': BinState, c: Contents, c': Contents, x: int, s: nat, i: nat, j: nat)
    requires BinsOk(b, c) && x > 0 && x !in c.sz && !IsSmall(s) && s < 0x100_0000_0000 && j < 32
    requires i == ComputeTreeIndex(s) && |b'.treebins| == 32 && |c'.trees| == 32 && c'.small == c.small
    requires b' == InsertLarge(b, x, s, c.trees[i]) && c' == InsertLargeContents(c, x, s)
    ensures SmallBinOk(b'.links, c'.small[j], Bit(b'.smallmap, j), j, c'.sz)
    ensures TreeBinOk(b'.links, b'.treebins[j], c'.trees[j], Bit(b'.treemap, j), j, c'.sz)
  {
    hide BinsOk, SmallBinOk, TreeBinOk, InsertTree, Bit, InsertLarge, ComputeTreeIndex, IsSmall, Same, Addrs;
    BinsAt(b, c, i);
    SizesOfBins(b, c, i);
    SizesOfBins(b, c, j);
    InsertedTreeBin(b, c.trees[i], x, s, c.sz);
    InsertLargeFrame(b, c.trees[i], x, s, c.sz);
    InsertLargeTouches(b, x, s, c.trees[i], j);
    AfterTreeOp(b, b', c, c', x, i, j);
  }

  lemma AfterTreeOp(b: BinState, b': BinState, c: Contents, c': Contents, x: int, i: nat, j: nat)
    requires BinsOk(b, c) && i < 32 && j < 32 && x > 0 && OnlyTree(b.links, b'.links, c, i, x)
    requires c'.small == c.small && |c'.trees| == 32 && |b'.treebins| == 32 && b'.smallmap == b.smallmap
    requires j != i ==>
      c'.trees[j] == c.trees[j] && b'.treebins[j] == b.treebins[j] && Bit(b'.treemap, j) == Bit(b.treemap, j)
    requires TreeBinOk(b'.links, b'.treebins[i], c'.trees[i], Bit(b'.treemap, i), i, c'.sz)
    requires forall a :: a in c.sz && a != x ==> a in c'.sz && c'.sz[a] == c.sz[a]
    requires x !in c.small[j] && (j != i ==> x !in Addrs(c.trees[j]))
    ensures SmallBinOk(b'.links, c'.small[j], Bit(b'.smallmap, j), j, c'.sz)
    ensures TreeBinOk(b'.links, b'.treebins[j], c'.trees[j], Bit(b'.treemap, j), j, c'.sz)
  {
    SmallBinsKept(b, b'.links, c, i, x, j, c'.sz);
    if j != i {
      OtherTreeBins(b, b'.links, c, i, x, j, c'.sz);
    }
  }

  /* ----------------------------------- removal ----------------------------------- */

  /** What `unlink_large_chunk` does to the bin it works on. */
  ghost predicate TreeUnlinked(b: BinState, b': BinState, t: Tree, t': Tree, x: int, i: nat, sz: map<int, nat>)
    requires i < 32 && |b.treebins| == NTREEBINS
  {
    && b'.smallmap == b.smallmap && |b'.treebins| == NTREEBINS
    && TreeBinOk(b'.links, b'.treebins[i], t', Bit(b'.treemap, i), i, sz - {x})
    && (forall j: nat :: j < 32 && j != i ==> b'.treebins[j] == b.treebins[j])
    && (b'.treemap == b.treemap || b'.treemap == Clear(b.treemap, i))
    && (forall a :: a != TreeBinAt(i) && a !in Addrs(t) ==> Same(b.links, b'.links, a))
  }

  /** The trie without the chunk is still the trie of bin `i`. */
  lemma RemovedTree(t: Tree, x: int, i: nat, sz: map<int, nat>)
    requires i < 32 && WF(t, BinLo(i), BinWidth(i), sz) && x in Addrs(t) && x in sz
    ensures var t' := RemoveTree(t, BinLo(i), BinWidth(i), sz[x], x);
      && WF(t', BinLo(i), BinWidth(i), sz - {x})
      && Addrs(t') == Addrs(t) - {x}
    ensures forall a :: a in Addrs(t) ==> a in sz && a > 0
    ensures t.Node? && NodeOf(t, BinLo(i), BinWidth(i), sz[x]).Node?
  {
    WFRange(t, BinLo(i), BinWidth(i), sz);
    NodeOfOk(t, BinLo(i), BinWidth(i), sz, x);
    RemoveTreeOk(t, BinLo(i), BinWidth(i), sz, x);
    WFFrame(RemoveTree(t, BinLo(i), BinWidth(i), sz[x], x), BinLo(i), BinWidth(i), sz, sz - {x});
  }

  lemma UnlinkedTreeBin(b: BinState, t: Tree, x: int, i: nat, sz: map<int, nat>)
    requires i < 32 && |b.treebins| == NTREEBINS && TreeBinOk(b.links, b.treebins[i], t, Bit(b.treemap, i), i, sz)
    requires x in Addrs(t) && x in sz && ComputeTreeIndex(sz[x]) == i
    ensures NodeOf(t, BinLo(i), BinWidth(i), sz[x]).Node?
    ensures TreeUnlinked(b, UnlinkLarge(b, x, sz[x], t), t, RemoveTree(t, BinLo(i), BinWidth(i), sz[x], x), x, i, sz)
  {
    hide RemoveTree, NodeOf, WF, Rep, UnlinkLinks, Bit, Clear, Addrs, ComputeTreeIndex, BinLo, BinWidth;
    RemovedTree(t, x, i, sz);
    var root, t' := b.treebins[i], RemoveTree(t, BinLo(i), BinWidth(i), sz[x], x);
    HeadHasParent(b.links, root, t, TreeBinAt(i), i);
    RepRoot(b.links, root, t, TreeBinAt(i), i);
    var (m, r) := UnlinkLinks(b.links, x, NodeOf(t, BinLo(i), BinWidth(i), sz[x]), x == root);
    UnlinkRep(b.links, root, t, TreeBinAt(i), i, BinLo(i), BinWidth(i), sz, x, x == root);
    RepRoot(m, if x == root then r else root, t', TreeBinAt(i), i);
    ClearBits(b.treemap, i, i);
  }

  lemma HeadHasParent(l: Links, p: int, t: Tree, par: int, idx: int)
    requires t.Node? && Rep(l, p, t, par, idx)
    ensures Get(l.parent, p) == par
  {
  }

  lemma UnlinkLargeOk(b: BinState, c: Contents, x: int)
    requires BinsOk(b, c) && x in c.sz && !IsSmall(c.sz[x])
    ensures var i := ComputeTreeIndex(c.sz[x]);
      && NodeOf(c.trees[i], BinLo(i), BinWidth(i), c.sz[x]).Node?
      && BinsOk(UnlinkLarge(b, x, c.sz[x], c.trees[i]), UnlinkLargeContents(c, x))
  {
    hide SmallBinOk, TreeBinOk, UnlinkLarge, RemoveTree, TreeUnlinked, NodeOf, BinLo, BinWidth, ComputeTreeIndex;
    hide IsSmall;
    hide Bit, Addrs;
    var i := ComputeTreeIndex(c.sz[x]);
    UnlinkLargeBin(b, c, x);
    var b', c' := UnlinkLarge(b, x, c.sz[x], c.trees[i]), UnlinkLargeContents(c, x);
    forall j: nat | j < 32
      ensures SmallBinOk(b'.links, c'.small[j], Bit(b'.smallmap, j), j, c'.sz)
      ensures TreeBinOk(b'.links, b'.treebins[j], c'.trees[j], Bit(b'.treemap, j), j, c'.sz)
    {
      AfterUnlinkLarge(b, b', c, x, i, j);
    }
    forall a | a in c'.sz
      ensures Binned(c', a)
    {
      assert Binned(c, a);
    }
  }

  /** The bin of the chunk, and the trie in it. */
  lemma UnlinkLargeBin(b: BinState, c: Contents, x: int)
    requires BinsOk(b, c) && x in c.sz && !IsSmall(c.sz[x])
    ensures var i, c' := ComputeTreeIndex(c.sz[x]), UnlinkLargeContents(c, x);
      && i < 32 && x in Addrs(c.trees[i]) && NodeOf(c.trees[i], BinLo(i), BinWidth(i), c.sz[x]).Node?
      && Addrs(c'.trees[i]) == Addrs(c.trees[i]) - {x}
      && |UnlinkLarge(b, x, c.sz[x], c.trees[i]).treebins| == 32
      && TreeUnlinked(b, UnlinkLarge(b, x, c.sz[x], c.trees[i]), c.trees[i], c'.trees[i], x, i, c.sz)
  {
    hide RemoveTree, NodeOf, UnlinkLinks, Bit, SmallBinOk, BinLo, BinWidth, ComputeTreeIndex, IsSmall;
    var i := ComputeTreeIndex(c.sz[x]);
    assert Binned(c, x);
    assert TreeBinOk(b.links, b.treebins[i], c.trees[i], Bit(b.treemap, i), i, c.sz);
    UnlinkedTreeBin(b, c.trees[i], x, i, c.sz);
    RemovedTree(c.trees[i], x, i, c.sz);
  }

  lemma AfterUnlinkLarge(b: BinState, b': BinState, c: Contents, x: int, i: nat, j: nat)
    requires BinsOk(b, c) && x in c.sz && !IsSmall(c.sz[x]) && i == ComputeTreeIndex(c.sz[x]) && i < 32 && j < 32
    requires x in Addrs(c.trees[i])
    requires TreeUnlinked(b, b', c.trees[i], UnlinkLargeContents(c, x).trees[i], x, i, c.sz)
    ensures var c' := UnlinkLargeContents(c, x);
      && SmallBinOk(b'.links, c'.small[j], Bit(b'.smallmap, j), j, c'.sz)
      && TreeBinOk(b'.links, b'.treebins[j], c'.trees[j], Bit(b'.treemap, j), j, c'.sz)
  {
    hide BinsOk, SmallBinOk, TreeBinOk, RemoveTree, Clear, Bit, ComputeTreeIndex;
    BinsAt(b, c, i);
    SizesOfBins(b, c, i);
    SizesOfBins(b, c, j);
    ClearBits(b.treemap, i, j);
    AfterTreeOp(b, b', c, UnlinkLargeContents(c, x), x, i, j);
  }
}
