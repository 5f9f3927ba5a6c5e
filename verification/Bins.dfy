/**
 The 32 small bins and 32 tree bins of a `malloc_state`, their invariant, and how inserting and
 unlinking one chunk changes them.

 The header of small bin `i` is treated as a chunk, like in the program; headers and root slots
 live in the `malloc_state` and get the negative addresses `SmallBinAt(i)` and `TreeBinAt(i)`.
 */
module Bins {
  import opened PowersOfTwo
  import opened TreeIndex
  import opened BinMap
  import opened FreeLinks
  import opened SizeTrie
  import opened TrieRemove
  import opened TrieSearch

  const NSMALLBINS: nat := 32

  datatype BinState = BinState(links: Links, treebins: seq<int>, smallmap: bv32, treemap: bv32)

  /** What the words denote: the small lists, the tries, and every binned chunk with its size. */
  datatype Contents = Contents(small: seq<seq<int>>, trees: seq<Tree>, sz: map<int, nat>)

  function SmallBinAt(i: nat): int { -1 - i }

  function TreeBinAt(i: nat): int { -101 - i }

  predicate IsSmall(s: nat) { s / 8 < NSMALLBINS }

  function SmallIndex(s: nat): nat { s / 8 }

  ghost predicate SmallBinOk(l: Links, s: seq<int>, marked: bool, i: nat, sz: map<int, nat>) {
    && NoDup(s)
    && (forall a :: a in s ==> a > 0 && a in sz && sz[a] == 8 * i)
    && (marked <==> s != [])
    && (marked ==> IsRing(l.fd, l.bk, [SmallBinAt(i)] + s))
  }

  ghost predicate TreeBinOk(l: Links, root: int, t: Tree, marked: bool, i: nat, sz: map<int, nat>)
    requires i < NTREEBINS
  {
    && Rep(l, root, t, TreeBinAt(i), i)
    && WF(t, BinLo(i), BinWidth(i), sz)
    && (forall a :: a in Addrs(t) && a in sz ==> InBin(sz[a], i))
    && (marked <==> t.Node?)
  }

  /** A chunk is in the bin of its size. */
  ghost predicate Binned(c: Contents, a: int)
    requires |c.small| == NSMALLBINS && |c.trees| == NTREEBINS && a in c.sz
  {
    if IsSmall(c.sz[a]) then a in c.small[SmallIndex(c.sz[a])]
    else a in Addrs(c.trees[ComputeTreeIndex(c.sz[a])])
  }

  ghost predicate BinsOk(b: BinState, c: Contents) {
    && |b.treebins| == NTREEBINS && |c.small| == NSMALLBINS && |c.trees| == NTREEBINS
    && (forall i: nat :: i < NSMALLBINS ==> SmallBinOk(b.links, c.small[i], Bit(b.smallmap, i), i, c.sz))
    && (forall i: nat :: i < NTREEBINS ==> TreeBinOk(b.links, b.treebins[i], c.trees[i], Bit(b.treemap, i), i, c.sz))
    && (forall a :: a in c.sz ==> a > 0 && c.sz[a] < 0x100_0000_0000 && Binned(c, a))
  }

  /* --------------------------------- small bins --------------------------------- */

  /** `insert_small_chunk`. */
  function InsertSmall(b: BinState, p: int, s: nat): BinState {
    var i := SmallIndex(s);
    var h := SmallBinAt(i);
    var f := if Bit(b.smallmap, i) then Get(b.links.fd, h) else h;
    var fd := b.links.fd[h := p];
    var bk := b.links.bk[f := p];
    b.(links := b.links.(fd := fd[p := f], bk := bk[p := h]),
      smallmap := if Bit(b.smallmap, i) then b.smallmap else Mark(b.smallmap, i))
  }

  /** `unlink_small_chunk`; the header of a bin that becomes empty keeps its old links. */
  function UnlinkSmall(b: BinState, p: int, s: nat): BinState {
    var i := SmallIndex(s);
    if Get(b.links.bk, p) == Get(b.links.fd, p) then b.(smallmap := Clear(b.smallmap, i))
    else b.(links := RingRemove(b.links, p))
  }

  lemma SmallBinFrame(l: Links, m: Links, s: seq<int>, marked: bool, i: nat, sz: map<int, nat>, sz': map<int, nat>)
    requires SmallBinOk(l, s, marked, i, sz)
    requires forall a :: a in s || a == SmallBinAt(i) ==> Get(l.fd, a) == Get(m.fd, a) && Get(l.bk, a) == Get(m.bk, a)
    requires forall a :: a in s ==> a in sz' && sz'[a] == sz[a]
    ensures SmallBinOk(m, s, marked, i, sz')
  {
    if marked {
      RingFrame(l, m, [SmallBinAt(i)] + s);
    }
  }

  lemma TreeBinFrame(
    l: Links, m: Links, root: int, t: Tree, marked: bool, i: nat, sz: map<int, nat>, sz': map<int, nat>)
    requires i < NTREEBINS && TreeBinOk(l, root, t, marked, i, sz)
    requires forall a :: a in Addrs(t) ==> Same(l, m, a)
    requires forall a :: a in Addrs(t) && a in sz ==> a in sz' && sz'[a] == sz[a]
    ensures TreeBinOk(m, root, t, marked, i, sz')
  {
    WFRange(t, BinLo(i), BinWidth(i), sz);
    RepFrame(l, m, root, t, TreeBinAt(i), i);
    WFFrame(t, BinLo(i), BinWidth(i), sz, sz');
  }

  lemma BinsAt(b: BinState, c: Contents, i: nat)
    requires BinsOk(b, c) && i < 32
    ensures |b.treebins| == 32 && |c.small| == 32 && |c.trees| == 32
    ensures SmallBinOk(b.links, c.small[i], Bit(b.smallmap, i), i, c.sz)
    ensures TreeBinOk(b.links, b.treebins[i], c.trees[i], Bit(b.treemap, i), i, c.sz)
  {
    hide SmallBinOk, TreeBinOk;
  }

  /** Chunks of a bin have that bin's sizes. */
  lemma SizesOfBins(b: BinState, c: Contents, i: nat)
    requires BinsOk(b, c) && i < 32
    ensures forall a :: a in c.small[i] ==> a in c.sz && c.sz[a] == 8 * i && a > 0
    ensures forall a :: a in Addrs(c.trees[i]) ==>
      a in c.sz && a > 0 && !IsSmall(c.sz[a]) && ComputeTreeIndex(c.sz[a]) == i
  {
    assert SmallBinOk(b.links, c.small[i], Bit(b.smallmap, i), i, c.sz);
    assert TreeBinOk(b.links, b.treebins[i], c.trees[i], Bit(b.treemap, i), i, c.sz);
    TreeSizes(b, c, i);
  }

  lemma TreeSizes(b: BinState, c: Contents, i: nat)
    requires BinsOk(b, c) && i < 32
    ensures forall a :: a in Addrs(c.trees[i]) ==>
      a in c.sz && a > 0 && !IsSmall(c.sz[a]) && ComputeTreeIndex(c.sz[a]) == i
  {
    assert TreeBinOk(b.links, b.treebins[i], c.trees[i], Bit(b.treemap, i), i, c.sz);
    WFRange(c.trees[i], BinLo(i), BinWidth(i), c.sz);
    forall a | a in Addrs(c.trees[i])
      ensures !IsSmall(c.sz[a]) && ComputeTreeIndex(c.sz[a]) == i
    {
      BinDecides(c.sz[a], i);
    }
  }

  lemma BinDecides(s: nat, i: nat)
    requires i < NTREEBINS && InBin(s, i) && s < 0x100_0000_0000
    ensures !IsSmall(s) && ComputeTreeIndex(s) == i
  {
    MinSizeMono(0, i);
    assert MinSize(0) == 256 by { assert Pow2(8) == 256; }
    IndexPartitions(s);
    InBinUnique(s, i, ComputeTreeIndex(s));
  }

  /* --------------------- inserting into and unlinking from a small bin --------------------- */

  ghost function InsertSmallContents(c: Contents, p: int, s: nat): Contents
    requires |c.small| == NSMALLBINS && IsSmall(s)
  {
    var i := SmallIndex(s);
    c.(small := c.small[i := [p] + c.small[i]], sz := c.sz[p := s])
  }

  /** The words an operation on small bin `i` and chunk `p` may write. */
  ghost predicate OnlySmall(l: Links, m: Links, c: Contents, i: nat, p: int)
    requires i < |c.small|
  {
    && m.parent == l.parent && m.index == l.index && m.child0 == l.child0 && m.child1 == l.child1
    && forall a :: a != p && a != SmallBinAt(i) && a !in c.small[i] ==>
      Get(l.fd, a) == Get(m.fd, a) && Get(l.bk, a) == Get(m.bk, a)
  }

  /** Such an operation leaves the other bins as they are. */
  lemma OtherSmallBins(b: BinState, m: Links, c: Contents, i: nat, p: int, j: nat, sz': map<int, nat>)
    requires BinsOk(b, c) && i < 32 && j < 32 && i != j && OnlySmall(b.links, m, c, i, p)
    requires p !in c.small[j] && forall a :: a in c.sz && a != p ==> a in sz' && sz'[a] == c.sz[a]
    requires p > 0
    ensures SmallBinOk(m, c.small[j], Bit(b.smallmap, j), j, sz')
  {
    hide SmallBinOk, TreeBinOk, BinsOk, Bit, ComputeTreeIndex, IsSmall;
    BinsAt(b, c, j);
    SizesOfBins(b, c, i);
    SizesOfBins(b, c, j);
    SmallBinFrame(b.links, m, c.small[j], Bit(b.smallmap, j), j, c.sz, sz');
  }

  lemma TreeBinsKept(b: BinState, m: Links, c: Contents, i: nat, p: int, j: nat, sz': map<int, nat>)
    requires BinsOk(b, c) && i < 32 && j < 32 && OnlySmall(b.links, m, c, i, p)
    requires p !in Addrs(c.trees[j]) && forall a :: a in c.sz && a != p ==> a in sz' && sz'[a] == c.sz[a]
    ensures TreeBinOk(m, b.treebins[j], c.trees[j], Bit(b.treemap, j), j, sz')
  {
    SizesOfBins(b, c, i);
    SizesOfBins(b, c, j);
    assert TreeBinOk(b.links, b.treebins[j], c.trees[j], Bit(b.treemap, j), j, c.sz);
    hide TreeBinOk, BinsOk;
    forall a | a in Addrs(c.trees[j])
      ensures Same(b.links, m, a)
    {
      assert a != p && a != SmallBinAt(i) && a !in c.small[i];
    }
    TreeBinFrame(b.links, m, b.treebins[j], c.trees[j], Bit(b.treemap, j), j, c.sz, sz');
  }

  lemma InsertSmallWords(b: BinState, c: Contents, p: int, s: nat)
    requires BinsOk(b, c) && p > 0 && p !in c.sz && IsSmall(s)
    ensures var m, i := InsertSmall(b, p, s).links, SmallIndex(s);
      && OnlySmall(b.links, m, c, i, p)
      && IsRing(m.fd, m.bk, [SmallBinAt(i), p] + c.small[i])
  {
    hide InsertSmall, SmallBinOk, TreeBinOk, IsRing, Binned;
    var i := SmallIndex(s);
    assert SmallBinOk(b.links, c.small[i], Bit(b.smallmap, i), i, c.sz);
    InsertWordsAt(b, c.small[i], p, s, c.sz);
  }

  /** One small bin alone. */
  lemma InsertWordsAt(b: BinState, list: seq<int>, p: int, s: nat, sz: map<int, nat>)
    requires p > 0 && p !in sz && IsSmall(s)
    requires SmallBinOk(b.links, list, Bit(b.smallmap, SmallIndex(s)), SmallIndex(s), sz)
    ensures var m, h := InsertSmall(b, p, s).links, SmallBinAt(SmallIndex(s));
      && m.parent == b.links.parent && m.index == b.links.index
      && m.child0 == b.links.child0 && m.child1 == b.links.child1
      && (forall a :: a != p && a != h && a !in list ==>
            Get(b.links.fd, a) == Get(m.fd, a) && Get(b.links.bk, a) == Get(m.bk, a))
      && IsRing(m.fd, m.bk, [h, p] + list)
  {
    hide Bit, Mark;
    var i := SmallIndex(s);
    SameSmallLinks(b, p, s);
    if list == [] {
      assert [SmallBinAt(i), p] + list == [SmallBinAt(i), p];
    } else {
      InsertBehindHeader(b, list, p, i);
      hide NoDup, IsRing;
    }
  }

  lemma SameSmallLinks(b: BinState, p: int, s: nat)
    requires IsSmall(s)
    ensures InsertSmall(b, p, s).links == InsertSmall(b, p, 8 * SmallIndex(s)).links && SmallIndex(s) < NSMALLBINS
  {
    hide Bit, Mark, SmallBinAt;
    assert SmallIndex(8 * SmallIndex(s)) == SmallIndex(s);
  }

  lemma NoDupCons(h: int, list: seq<int>)
    requires NoDup(list) && h !in list
    ensures NoDup([h] + list)
  {
  }

  lemma InsertBehindHeader(b: BinState, list: seq<int>, p: int, i: nat)
    requires list != [] && Bit(b.smallmap, i) && i < NSMALLBINS
    requires NoDup(list) && p !in list && p > 0 && forall a :: a in list ==> a > 0
    requires IsRing(b.links.fd, b.links.bk, [SmallBinAt(i)] + list)
    ensures var m := InsertSmall(b, p, 8 * i).links;
      && IsRing(m.fd, m.bk, [SmallBinAt(i), p] + list)
      && m == RingInsert(b.links, SmallBinAt(i), p)
      && Get(b.links.fd, SmallBinAt(i)) in list
  {
    hide IsRing, NoDup, Bit, Mark;
    var u := [SmallBinAt(i)] + list;
    NoDupCons(SmallBinAt(i), list);
    RingInsertOk(b.links, u, p);
    assert [u[0], p] + u[1..] == [SmallBinAt(i), p] + list;
    RingNeighbours(b.links.fd, b.links.bk, u, 0);
  }

  lemma InsertSmallMap(b: BinState, p: int, s: nat)
    requires IsSmall(s)
    ensures var b', i := InsertSmall(b, p, s), SmallIndex(s);
      && b'.treebins == b.treebins && b'.treemap == b.treemap
      && b'.smallmap == if Bit(b.smallmap, i) then b.smallmap else Mark(b.smallmap, i)
  {
    hide Bit, Mark;
  }

  lemma InsertSmallOk(b: BinState, c: Contents, p: int, s: nat)
    requires BinsOk(b, c) && p > 0 && p !in c.sz && IsSmall(s) && s % 8 == 0
    ensures BinsOk(InsertSmall(b, p, s), InsertSmallContents(c, p, s))
  {
    hide SmallBinOk, TreeBinOk, Bit, ComputeTreeIndex, IsRing, OnlySmall, InsertSmall;
    var b', c', i := InsertSmall(b, p, s), InsertSmallContents(c, p, s), SmallIndex(s);
    InsertSmallWords(b, c, p, s);
    InsertSmallMap(b, p, s);
    forall j: nat | j < NSMALLBINS
      ensures SmallBinOk(b'.links, c'.small[j], Bit(b'.smallmap, j), j, c'.sz)
    {
      SizesOfBins(b, c, j);
      MarkBits(b.smallmap, i, j);
      if j == i {
        InsertedSmallBin(b, c, p, s);
      } else {
        OtherSmallBins(b, b'.links, c, i, p, j, c'.sz);
      }
    }
    forall j: nat | j < NTREEBINS
      ensures TreeBinOk(b'.links, b'.treebins[j], c'.trees[j], Bit(b'.treemap, j), j, c'.sz)
    {
      SizesOfBins(b, c, j);
      TreeBinsKept(b, b'.links, c, i, p, j, c'.sz);
    }
    forall a | a in c'.sz
      ensures Binned(c', a)
    {
      assert a != p ==> Binned(c, a);
    }
  }

  lemma InsertedSmallBin(b: BinState, c: Contents, p: int, s: nat)
    requires BinsOk(b, c) && p > 0 && p !in c.sz && IsSmall(s) && s % 8 == 0
    requires var l := InsertSmall(b, p, s).links;
      IsRing(l.fd, l.bk, [SmallBinAt(SmallIndex(s)), p] + c.small[SmallIndex(s)])
    ensures var i := SmallIndex(s);
      SmallBinOk(InsertSmall(b, p, s).links, [p] + c.small[i], true, i, c.sz[p := s])
  {
    hide BinsOk, IsRing, InsertSmall, Bit;
    var i := SmallIndex(s);
    BinsAt(b, c, i);
    assert [SmallBinAt(i)] + ([p] + c.small[i]) == [SmallBinAt(i), p] + c.small[i];
  }

  function Without(list: seq<int>, k: nat): seq<int>
    requires k < |list|
  {
    list[..k] + list[k + 1..]
  }

  ghost function UnlinkSmallContents(c: Contents, p: int): Contents
    requires |c.small| == NSMALLBINS && p in c.sz && IsSmall(c.sz[p]) && p in c.small[SmallIndex(c.sz[p])]
  {
    var i := SmallIndex(c.sz[p]);
    c.(small := c.small[i := Without(c.small[i], IndexOf(c.small[i], p))], sz := c.sz - {p})
  }

  /** Unlinking the only chunk of a bin and unlinking one of several. */
  lemma UnlinkSmallRing(l: Links, list: seq<int>, p: int, i: nat)
    requires p in list && NoDup(list) && forall a :: a in list ==> a > 0
    requires IsRing(l.fd, l.bk, [SmallBinAt(i)] + list)
    ensures Get(l.fd, p) in list || Get(l.fd, p) == SmallBinAt(i)
    ensures Get(l.bk, p) in list || Get(l.bk, p) == SmallBinAt(i)
    ensures Get(l.bk, p) == Get(l.fd, p) <==> list == [p]
  {
    hide IsRing;
    var u := [SmallBinAt(i)] + list;
    var k := IndexOf(list, p);
    RingNeighbours(l.fd, l.bk, u, k + 1);
    assert Get(l.bk, p) == u[k];
    assert Get(l.fd, p) == if k + 1 < |list| then list[k + 1] else SmallBinAt(i);
    if |list| > 1 && k > 0 {
      assert Get(l.bk, p) == list[k - 1];
    }
  }

  lemma UnlinkSmallRest(l: Links, list: seq<int>, p: int, i: nat)
    requires p in list && list != [p] && NoDup(list) && forall a :: a in list ==> a > 0
    requires IsRing(l.fd, l.bk, [SmallBinAt(i)] + list)
    ensures var m := RingRemove(l, p);
      IsRing(m.fd, m.bk, [SmallBinAt(i)] + Without(list, IndexOf(list, p)))
  {
    hide IsRing, NoDup, RingRemove, Linked;
    var u := [SmallBinAt(i)] + list;
    var k := IndexOf(list, p);
    NoDupCons(SmallBinAt(i), list);
    RingRemoveOk(l, u, k + 1);
    assert u[..k + 1] + u[k + 2..] == [SmallBinAt(i)] + Without(list, k);
  }

  lemma WithoutMembers(list: seq<int>, p: int)
    requires p in list && NoDup(list)
    ensures var u := Without(list, IndexOf(list, p));
      NoDup(u) && (forall a :: a in u <==> a in list && a != p) && (u == [] <==> list == [p])
  {
    var k := IndexOf(list, p);
    assert list == list[..k] + [p] + list[k + 1..];
  }

  lemma UnlinkSmallOk(b: BinState, c: Contents, p: int)
    requires BinsOk(b, c) && p in c.sz && IsSmall(c.sz[p])
    ensures p in c.small[SmallIndex(c.sz[p])]
    ensures BinsOk(UnlinkSmall(b, p, c.sz[p]), UnlinkSmallContents(c, p))
  {
    hide SmallBinOk, TreeBinOk, UnlinkSmall, SmallUnlinked, Without, Bit, Addrs;
    assert Binned(c, p);
    var i := SmallIndex(c.sz[p]);
    var b', c' := UnlinkSmall(b, p, c.sz[p]), UnlinkSmallContents(c, p);
    UnlinkSmallHere(b, c, p, i);
    forall j: nat | j < 32
      ensures SmallBinOk(b'.links, c'.small[j], Bit(b'.smallmap, j), j, c'.sz)
      ensures TreeBinOk(b'.links, b'.treebins[j], c'.trees[j], Bit(b'.treemap, j), j, c'.sz)
    {
      AfterUnlinkSmall(b, b', c, p, i, j);
    }
    forall a | a in c'.sz
      ensures Binned(c', a)
    {
      assert Binned(c, a);
    }
  }

  /** The chunk leaves the list of its bin. */
  lemma UnlinkSmallHere(b: BinState, c: Contents, p: int, i: nat)
    requires BinsOk(b, c) && p in c.sz && IsSmall(c.sz[p]) && i == SmallIndex(c.sz[p]) && p in c.small[i]
    ensures SmallUnlinked(b, UnlinkSmall(b, p, c.sz[p]), c.small[i], p, i, c.sz)
    ensures forall a :: a in UnlinkSmallContents(c, p).small[i] <==> a in c.small[i] && a != p
    ensures |UnlinkSmall(b, p, c.sz[p]).treebins| == NTREEBINS
  {
    hide SmallUnlinked, TreeBinOk, Without;
    SizesOfBins(b, c, i);
    assert SmallBinOk(b.links, c.small[i], Bit(b.smallmap, i), i, c.sz);
    UnlinkedSmallBin(b, c.small[i], p, i, c.sz);
    WithoutMembers(c.small[i], p);
  }

  lemma AfterUnlinkSmall(b: BinState, b': BinState, c: Contents, p: int, i: nat, j: nat)
    requires BinsOk(b, c) && i < 32 && j < 32 && p in c.small[i] && p in c.sz && IsSmall(c.sz[p])
    requires i == SmallIndex(c.sz[p])
    requires SmallUnlinked(b, b', c.small[i], p, i, c.sz)
    ensures var c' := UnlinkSmallContents(c, p);
      && SmallBinOk(b'.links, c'.small[j], Bit(b'.smallmap, j), j, c'.sz)
      && TreeBinOk(b'.links, b'.treebins[j], c'.trees[j], Bit(b'.treemap, j), j, c'.sz)
  {
    hide BinsOk, OnlySmall, SmallBinOk, TreeBinOk, IsSmall, ComputeTreeIndex;
    BinsAt(b, c, j);
    SizesOfBins(b, c, i);
    SizesOfBins(b, c, j);
    UnlinkedOnly(b, b', c, p, i);
    TreeBinsKept(b, b'.links, c, i, p, j, c.sz - {p});
    if j != i {
      OtherSmallBins(b, b'.links, c, i, p, j, c.sz - {p});
    }
  }

  lemma UnlinkedOnly(b: BinState, b': BinState, c: Contents, p: int, i: nat)
    requires i < |c.small| && p in c.small[i] && SmallUnlinked(b, b', c.small[i], p, i, c.sz)
    ensures OnlySmall(b.links, b'.links, c, i, p)
  {
  }

  /** What `unlink_small_chunk` does to the bin `list` it works on. */
  ghost predicate SmallUnlinked(b: BinState, b': BinState, list: seq<int>, p: int, i: nat, sz: map<int, nat>)
    requires p in list
  {
    var l, m := b.links, b'.links;
    && m.parent == l.parent && m.index == l.index && m.child0 == l.child0 && m.child1 == l.child1
    && (forall a :: a != SmallBinAt(i) && a !in list ==> Get(l.fd, a) == Get(m.fd, a) && Get(l.bk, a) == Get(m.bk, a))
    && b'.treebins == b.treebins && b'.treemap == b.treemap
    && (forall j: nat :: j < 32 && j != i ==> Bit(b'.smallmap, j) == Bit(b.smallmap, j))
    && SmallBinOk(m, Without(list, IndexOf(list, p)), Bit(b'.smallmap, i), i, sz - {p})
  }

  lemma UnlinkLastSmall(b: BinState, p: int, i: nat, sz: map<int, nat>)
    requires i < 32
    ensures SmallUnlinked(b, b.(smallmap := Clear(b.smallmap, i)), [p], p, i, sz)
  {
    hide Bit, Clear;
    forall j: nat | j < 32
      ensures Bit(Clear(b.smallmap, i), j) <==> i != j && Bit(b.smallmap, j)
    {
      ClearBits(b.smallmap, i, j);
    }
    assert Without([p], IndexOf([p], p)) == [];
  }

  lemma UnlinkOneOfSeveral(b: BinState, list: seq<int>, p: int, i: nat, sz: map<int, nat>)
    requires i < 32 && SmallBinOk(b.links, list, Bit(b.smallmap, i), i, sz) && p in list && list != [p]
    ensures SmallUnlinked(b, b.(links := RingRemove(b.links, p)), list, p, i, sz)
  {
    hide IsRing, Without, SmallBinOk, NoDup, Bit;
    SmallBinFacts(b.links, list, i, b.smallmap, sz);
    UnlinkSmallRing(b.links, list, p, i);
    UnlinkSmallRest(b.links, list, p, i);
    OneOfSeveral(b.links, list, p, i, sz);
  }

  lemma SmallBinFacts(l: Links, list: seq<int>, i: nat, marks: bv32, sz: map<int, nat>)
    requires SmallBinOk(l, list, Bit(marks, i), i, sz) && list != []
    ensures NoDup(list) && Bit(marks, i) && IsRing(l.fd, l.bk, [SmallBinAt(i)] + list)
    ensures forall a :: a in list ==> a > 0
  {
  }

  lemma UnlinkedSmallBin(b: BinState, list: seq<int>, p: int, i: nat, sz: map<int, nat>)
    requires i < 32 && SmallBinOk(b.links, list, Bit(b.smallmap, i), i, sz) && p in list
    ensures SmallUnlinked(b, UnlinkSmall(b, p, 8 * i), list, p, i, sz)
  {
    UnlinkSmallRing(b.links, list, p, i);
    if list == [p] {
      UnlinkLastSmall(b, p, i, sz);
    } else {
      UnlinkOneOfSeveral(b, list, p, i, sz);
    }
    hide SmallUnlinked, IsRing, SmallBinOk;
  }

  lemma OneOfSeveral(l: Links, list: seq<int>, p: int, i: nat, sz: map<int, nat>)
    requires SmallBinOk(l, list, true, i, sz) && p in list && list != [p]
    requires var m := RingRemove(l, p);
      IsRing(m.fd, m.bk, [SmallBinAt(i)] + Without(list, IndexOf(list, p)))
    ensures SmallBinOk(RingRemove(l, p), Without(list, IndexOf(list, p)), true, i, sz - {p})
  {
    WithoutMembers(list, p);
  }
}
