/**
 What a program writes into the payloads of its chunks. A word that it stores may be anything, and
 it may lie where a head, a foot or a link was kept at another time: the maps of the model change
 there. Nothing that the allocator relies on does.
 */
module Stores {
  import opened BoundaryTags
  import opened FreeLinks
  import opened SizeTrie
  import opened Bins
  import opened TreeIndex
  import opened BinMap
  import opened HeapView
  import opened Payloads

  /** The word at `w`, taken for the head of a chunk 8 bytes below it, and for a foot. */
  function StoredTags(t: Tags, w: int, value: int, head: Head): Tags {
    Tags(t.head[w - 8 := head], t.foot[w := value])
  }

  /** The word at `w`, taken for any of the links. */
  function StoredLinks(l: Links, w: int, value: int): Links {
    Links(
      l.fd[w - 16 := value], l.bk[w - 24 := value], l.child0[w - 32 := value], l.child1[w - 40 := value],
      l.parent[w - 48 := value], l.index[w - 56 := value])
  }

  /** A store into a payload leaves the boundary tags alone. */
  lemma StoreKeepsHeap(h: Heap, loose: set<int>, p: int, w: int, value: int, head: Head)
    requires HeapOk(h, loose) && InPayload(h, p, w)
    ensures var h' := h.(t := StoredTags(h.t, w, value, head));
      HeapOk(h', loose) && forall a :: Has(h', a) == Has(h, a)
  {
    hide Has, TagsOk, InPayload;
    var h' := h.(t := StoredTags(h.t, w, value, head));
    BelowFence(h, p, w);
    forall q | q in h.y.chunks
      ensures HeadOf(h'.t, q) == HeadOf(h.t, q)
      ensures Has(h, q).Free? ==> FootOf(h'.t, q + Has(h, q).size) == FootOf(h.t, q + Has(h, q).size)
    {
      KeptHead(h, p, q, w);
    }
    SameWords(h, h');
    SameAccounts(h, h', loose);
  }

  lemma KeptHead(h: Heap, p: int, q: int, w: int)
    requires TagsOk(h.t, h.y) && InPayload(h, p, w) && q in h.y.chunks
    ensures q + 8 != w && (Has(h, q).Free? ==> q + Has(h, q).size != w)
  {
    hide TagsOk, InPayload, Has;
    if q + 8 == w {
      PayloadUntouched(h, q, p, w, w);
    }
    if Has(h, q).Free? && q + Has(h, q).size == w {
      PayloadUntouched(h, q, p, w, w);
    }
  }

  /** Payloads end before the head behind top. */
  lemma BelowFence(h: Heap, p: int, w: int)
    requires TagsOk(h.t, h.y) && InPayload(h, p, w)
    ensures w < h.y.top + h.y.topsize + 8
  {
    assert Tiles(h.t, h.y, p);
  }

  lemma SameWords(h: Heap, h': Heap)
    requires TagsOk(h.t, h.y) && h'.y == h.y
    requires forall q :: q in h.y.chunks ==> HeadOf(h'.t, q) == HeadOf(h.t, q)
    requires forall q :: q in h.y.chunks && Has(h, q).Free? ==>
      FootOf(h'.t, q + Has(h, q).size) == FootOf(h.t, q + Has(h, q).size)
    requires HeadOf(h'.t, h.y.top + h.y.topsize) == HeadOf(h.t, h.y.top + h.y.topsize)
    ensures TagsOk(h'.t, h'.y) && forall a :: Has(h', a) == Has(h, a)
  {
    hide HeadOf, FootOf, Aligned;
    forall q | q in h.y.chunks && q != h.y.top
      ensures Tiles(h'.t, h'.y, q) && Tagged(h'.t, q)
    {
      assert Tiles(h.t, h.y, q) && Tagged(h.t, q);
      assert Next(h.t, q) in h.y.chunks && Next(h'.t, q) == Next(h.t, q);
    }
    assert forall a :: Has(h', a) == Has(h, a);
  }

  lemma SameAccounts(h: Heap, h': Heap, loose: set<int>)
    requires Accounted(h, loose) && h' == h.(t := h'.t) && forall a :: Has(h', a) == Has(h, a)
    ensures Accounted(h', loose)
  {
    hide Has;
  }

  /** The links that the bins rely on: of every binned chunk, and those in the bin headers. */
  ghost predicate SameLinks(l: Links, m: Links, sz: map<int, nat>) {
    && (forall a :: a in sz || a < 0 ==> Get(l.fd, a) == Get(m.fd, a) && Get(l.bk, a) == Get(m.bk, a))
    && (forall a :: a in sz && !IsSmall(sz[a]) ==> Same(l, m, a))
  }

  lemma BinsFrame(b: BinState, c: Contents, m: Links)
    requires BinsOk(b, c) && SameLinks(b.links, m, c.sz)
    ensures BinsOk(b.(links := m), c)
  {
    hide SmallBinOk, TreeBinOk, Bit, ComputeTreeIndex, IsSmall;
    forall i: nat | i < NSMALLBINS
      ensures SmallBinOk(m, c.small[i], Bit(b.smallmap, i), i, c.sz)
    {
      SizesOfBins(b, c, i);
      assert SmallBinOk(b.links, c.small[i], Bit(b.smallmap, i), i, c.sz);
      SmallBinFrame(b.links, m, c.small[i], Bit(b.smallmap, i), i, c.sz, c.sz);
    }
    forall i: nat | i < NTREEBINS
      ensures TreeBinOk(m, b.treebins[i], c.trees[i], Bit(b.treemap, i), i, c.sz)
    {
      SizesOfBins(b, c, i);
      assert TreeBinOk(b.links, b.treebins[i], c.trees[i], Bit(b.treemap, i), i, c.sz);
      TreeBinFrame(b.links, m, b.treebins[i], c.trees[i], Bit(b.treemap, i), i, c.sz, c.sz);
    }
  }

  /** A store into a payload leaves the links of the free chunks alone. */
  lemma StoreKeepsLinks(h: Heap, p: int, w: int, value: int, l: Links)
    requires HeapOk(h, {}) && InPayload(h, p, w)
    ensures SameLinks(l, StoredLinks(l, w, value), h.sz)
  {
    hide TagsOk, Has, InPayload;
    PayloadIsHigh(h, p, w);
    forall a | a in h.sz
      ensures a != w - 16 && a != w - 24
      ensures !IsSmall(h.sz[a]) ==> a != w - 32 && a != w - 40 && a != w - 48 && a != w - 56
    {
      KeptLinks(h, p, a, w);
    }
  }

  lemma PayloadIsHigh(h: Heap, p: int, w: int)
    requires TagsOk(h.t, h.y) && InPayload(h, p, w)
    ensures w >= 32
  {
  }

  lemma KeptLinks(h: Heap, p: int, a: int, w: int)
    requires HeapOk(h, {}) && InPayload(h, p, w) && a in h.sz
    ensures a != w - 16 && a != w - 24
    ensures h.sz[a] >= 256 ==> a != w - 32 && a != w - 40 && a != w - 48 && a != w - 56
  {
    hide TagsOk, InPayload;
    assert Has(h, a) == Free(h.sz[a]);
    if KeepsWord(h, a, w) {
      PayloadUntouched(h, a, p, w, w);
    }
  }
}
