/**
 Which chunk serves a request, and where the rest of it goes: the comment at the head of `dlmalloc`
 in terms of the heap before and after, and of the order of the small bins.
 */
module Choices {
  import opened BinMap
  import opened FreeLinks
  import opened TrieRemove
  import opened Bins
  import opened BinChecks
  import opened TrieSearch
  import opened TrieWalk
  import opened BoundaryTags
  import opened HeapView
  import opened HeapSteps
  import opened ChunkWrites

  /** A list without one of its members. */
  ghost function Except(list: seq<int>, p: int): seq<int> {
    if list == [] then [] else if list[0] == p then list[1..] else [list[0]] + Except(list[1..], p)
  }

  lemma {:induction false} ExceptIs(list: seq<int>, p: int)
    requires p in list && NoDup(list)
    ensures Except(list, p) == Without(list, IndexOf(list, p))
  {
    if list[0] == p {
      assert list[IndexOf(list, p)] == list[0];
    } else {
      ExceptIs(list[1..], p);
      var k := IndexOf(list, p);
      assert list[1..][IndexOf(list[1..], p)] == p == list[k];
    }
  }

  /** No free chunk has `nb` bytes. */
  ghost predicate NoneFree(h: Heap, nb: nat) {
    forall a :: Has(h, a).Free? ==> Has(h, a).size < nb
  }

  /** A free chunk with `nb` bytes such that no smaller free chunk has them. */
  ghost predicate LeastFree(h: Heap, a: int, nb: nat) {
    && Has(h, a).Free? && nb <= Has(h, a).size
    && forall b :: Has(h, b).Free? && nb <= Has(h, b).size ==> Has(h, a).size <= Has(h, b).size
  }

  /** The same among the chunks in the bins. */
  ghost predicate LeastBinned(h: Heap, a: int, nb: nat) {
    && a in h.sz && nb <= h.sz[a]
    && forall b :: b in h.sz && nb <= h.sz[b] ==> h.sz[a] <= h.sz[b]
  }

  ghost predicate NoneBinned(h: Heap, nb: nat) {
    forall a :: a in h.sz ==> h.sz[a] < nb
  }

  /** `a` is the chunk that was put into small bin `i` last. */
  ghost predicate FirstIn(small: seq<seq<int>>, i: nat, a: int) {
    i < |small| && small[i] != [] && small[i][0] == a
  }

  ghost predicate EmptyBin(small: seq<seq<int>>, i: nat) {
    i < |small| ==> small[i] == []
  }

  /** A large request: the best fit of all; the victim if no binned chunk is smaller; `top` only if nothing fits. */
  ghost predicate LargeChoice(h: Heap, a: int, nb: nat, top: int) {
    if NoneFree(h, nb) then a == top
    else LeastFree(h, a, nb) && (h.dv != 0 && Has(h, a).size == h.dvsize ==> a == h.dv)
  }

  /**
   A small request: its own bin and the next one without remainder, then the victim, then the smallest
   binned chunk that fits, the first of its bin if that is a small one, and `top` only if nothing fits.
   */
  ghost predicate SmallChoice(h: Heap, small: seq<seq<int>>, a: int, nb: nat, top: int) {
    var i := SmallIndex(nb);
    if !EmptyBin(small, i) then FirstIn(small, i, a)
    else if !EmptyBin(small, i + 1) then FirstIn(small, i + 1, a)
    else if nb <= h.dvsize then a == h.dv
    else if !NoneBinned(h, nb) then
      LeastBinned(h, a, nb) && (IsSmall(h.sz[a]) ==> FirstIn(small, SmallIndex(h.sz[a]), a))
    else a == top
  }

  /** The chunk that serves a request for `nb` bytes; `top` is where top starts, or will start. */
  ghost predicate Chosen(h: Heap, small: seq<seq<int>>, a: int, nb: nat, top: int) {
    if nb < 256 then SmallChoice(h, small, a, nb, top) else LargeChoice(h, a, nb, top)
  }

  /** What is taken of a free chunk of `size` bytes: all of it, if the rest would not make a chunk. */
  ghost function Taken(size: nat, nb: nat): nat {
    if size < nb + MIN_CHUNK_SIZE then size else nb
  }

  /** A binned chunk leaves its bin. Of a small request the rest is the new victim, and the old one is binned. */
  ghost predicate LeftBinned(h: Heap, h': Heap, a: int, nb: nat, n: nat)
    requires a in h.sz
  {
    var size := h.sz[a];
    && n == Taken(size, nb) && h'.y.top == h.y.top
    && if n == size then h'.dv == h.dv && h'.dvsize == h.dvsize && h'.sz == h.sz - {a}
       else if nb < 256 then
         && h'.dv == a + nb && h'.dvsize == size - nb
         && h'.sz == if h.dv == 0 then h.sz - {a} else (h.sz - {a})[h.dv := h.dvsize]
       else h'.dv == h.dv && h'.dvsize == h.dvsize && h'.sz == (h.sz - {a})[a + nb := size - nb]
  }

  /** The victim is split, or used up. */
  ghost predicate LeftVictim(h: Heap, h': Heap, nb: nat, n: nat) {
    && n == Taken(h.dvsize, nb) && h'.y.top == h.y.top && h'.sz == h.sz
    && if n == h.dvsize then h'.dv == 0 && h'.dvsize == 0 else h'.dv == h.dv + nb && h'.dvsize == h.dvsize - nb
  }

  /** The low end of top is taken. */
  ghost predicate LeftTop(h: Heap, h': Heap, a: int, nb: nat, n: nat) {
    n == nb && h'.y.top == a + nb && h'.sz == h.sz && h'.dv == h.dv && h'.dvsize == h.dvsize
  }

  /** What is left of the chunk at `a`, of which `n` bytes were taken, and where that goes. */
  ghost predicate Left(h: Heap, h': Heap, a: int, nb: nat, n: nat) {
    if a in h.sz then LeftBinned(h, h', a, nb, n)
    else if a == h.dv && h.dv != 0 then LeftVictim(h, h', nb, n)
    else LeftTop(h, h', a, nb, n)
  }

  /** What the first part of `dlmalloc` has found out when it gives up on the bins. */
  ghost predicate BinsPassed(h: Heap, small: seq<seq<int>>, nb: nat) {
    && (h.dvsize < nb ==> NoneBinned(h, nb))
    && if nb < 256 then EmptyBin(small, SmallIndex(nb)) && EmptyBin(small, SmallIndex(nb) + 1)
       else nb <= h.dvsize ==> forall b :: b in h.sz && nb <= h.sz[b] ==> h.dvsize <= h.sz[b]
  }

  /* --------------------------- from the bins to the heap --------------------------- */

  lemma NoneKept(h: Heap, nb: nat)
    requires HeapOk(h, {}) && h.dvsize < nb && NoneBinned(h, nb)
    ensures NoneFree(h, nb)
  {
    FreeBound(h, nb);
  }

  /** The best of the bins, unless the victim fits as well. */
  lemma LargeFromBins(h: Heap, a: int, nb: nat, top: int)
    requires HeapOk(h, {}) && LeastBinned(h, a, nb) && (nb <= h.dvsize ==> h.sz[a] < h.dvsize)
    ensures LargeChoice(h, a, nb, top)
  {
    BinnedIsFree(h, {}, a);
    forall b | Has(h, b).Free? && nb <= Has(h, b).size
      ensures Has(h, a).size <= Has(h, b).size
    {
      KeptIs(h, b);
    }
  }

  lemma LargeFound(h: Heap, a: int, nb: nat, top: int)
    requires HeapOk(h, {}) && nb >= 256 && a in h.sz && nb <= h.sz[a] && BestFit(h.sz, nb, h.sz[a])
    requires nb <= h.dvsize ==> h.sz[a] < h.dvsize
    ensures LargeChoice(h, a, nb, top)
  {
    LargeFromBins(h, a, nb, top);
  }

  lemma LargePassed(h: Heap, small: seq<seq<int>>, nb: nat)
    requires nb >= 256 && BestFit(h.sz, nb, if nb <= h.dvsize then h.dvsize else NONE)
    requires forall a :: a in h.sz ==> h.sz[a] < SIZE_BOUND
    ensures BinsPassed(h, small, nb)
  {
  }

  lemma NoLargePassed(h: Heap, small: seq<seq<int>>, nb: nat)
    requires nb >= 256 && forall a :: a in h.sz ==> IsSmall(h.sz[a])
    ensures BinsPassed(h, small, nb)
  {
  }

  /** The first chunk of the first marked bin from that of `nb` on. */
  lemma SmallFound(b: BinState, c: Contents, h: Heap, nb: nat, i: nat, a: int)
    requires BinsOk(b, c) && h.sz == c.sz && SmallIndex(nb) <= i < NSMALLBINS && nb <= 8 * i
    requires forall j: nat :: SmallIndex(nb) <= j < i ==> !Bit(b.smallmap, j)
    requires a in c.sz && c.sz[a] == 8 * i
    ensures LeastBinned(h, a, nb) && SmallIndex(h.sz[a]) == i
  {
    hide BinsOk, Bit;
    FirstMarkedLeast(b, c, nb, i);
  }

  /** The smallest of the tries, when no small bin has a chunk that fits. */
  lemma SmallestFound(h: Heap, nb: nat, a: int)
    requires a in h.sz && nb <= h.sz[a] && !IsSmall(h.sz[a]) && BestFit(h.sz, nb, h.sz[a])
    requires forall b :: b in h.sz && IsSmall(h.sz[b]) ==> h.sz[b] < nb
    ensures LeastBinned(h, a, nb)
  {
  }

  lemma LargeFromVictim(h: Heap, nb: nat, top: int)
    requires HeapOk(h, {}) && h.dv != 0 && nb <= h.dvsize
    requires forall b :: b in h.sz && nb <= h.sz[b] ==> h.dvsize <= h.sz[b]
    ensures LargeChoice(h, h.dv, nb, top)
  {
    VictimIsFree(h, {});
    forall b | Has(h, b).Free? && nb <= Has(h, b).size
      ensures h.dvsize <= Has(h, b).size
    {
      KeptIs(h, b);
    }
  }

  /** The victim, when the bins were passed over. */
  lemma VictimChosen(h: Heap, small: seq<seq<int>>, nb: nat, top: int)
    requires HeapOk(h, {}) && h.dv != 0 && nb <= h.dvsize && BinsPassed(h, small, nb)
    ensures Chosen(h, small, h.dv, nb, top) && h.dv !in h.sz
  {
    VictimIsFree(h, {});
    if nb >= 256 {
      LargeFromVictim(h, nb, top);
    }
  }

  /** Top, when nothing else has room. */
  lemma TopChosen(h: Heap, small: seq<seq<int>>, nb: nat, top: int)
    requires HeapOk(h, {}) && h.dvsize < nb && BinsPassed(h, small, nb)
    ensures Chosen(h, small, top, nb, top) && NoneFree(h, nb)
  {
    NoneKept(h, nb);
  }

  lemma NothingChosen(h: Heap, small: seq<seq<int>>, nb: nat, top: int)
    requires h.dvsize < nb && h.sz == map[] && BinsPassed(h, small, nb) && forall a :: Has(h, a) == Nothing
    ensures Chosen(h, small, top, nb, top)
  {
  }

  /** Nothing that is kept track of as free starts where top does. */
  lemma TopNotKept(h: Heap)
    requires HeapOk(h, {})
    ensures h.y.top !in h.sz && (h.dv != 0 ==> h.y.top != h.dv)
  {
  }

  lemma FirstsBinned(b: BinState, c: Contents)
    requires BinsOk(b, c)
    ensures forall i: nat, a :: FirstIn(c.small, i, a) ==> a in c.sz
  {
    forall i: nat, a | FirstIn(c.small, i, a)
      ensures a in c.sz
    {
      assert SmallBinOk(b.links, c.small[i], Bit(b.smallmap, i), i, c.sz);
      assert a in c.small[i];
    }
  }

  /** A chunk that starts where top does is taken only if no free chunk has room. */
  lemma TopIsLast(h: Heap, small: seq<seq<int>>, a: int, nb: nat, top: int)
    requires HeapOk(h, {}) && Chosen(h, small, a, nb, top) && a == h.y.top && nb > 0
    requires forall i: nat, b :: FirstIn(small, i, b) ==> b in h.sz
    ensures NoneFree(h, nb)
  {
    TopNotKept(h);
    hide FirstIn, EmptyBin, HeapOk;
    if nb >= 256 {
      assert !LeastFree(h, a, nb);
    }
  }

  /** A free chunk is the victim or binned. */
  lemma KeptIs(h: Heap, b: int)
    requires HeapOk(h, {}) && Has(h, b).Free?
    ensures if b == h.dv then Has(h, b).size == h.dvsize else b in h.sz && h.sz[b] == Has(h, b).size
  {
    FreeInside(h, {}, b);
    hide TagsOk, Has;
  }

  /* ------------------------- the end of a resized chunk ------------------------- */

  /** The bytes from `r` to `n` join what is at `n`: top, the victim, or a binned chunk if one is there. */
  ghost predicate JoinsBehind(h: Heap, h': Heap, r: int, n: int) {
    if n == h.y.top then h'.y.top == r && h'.sz == h.sz && h'.dv == h.dv && h'.dvsize == h.dvsize
    else if h.dv != 0 && n == h.dv then
      h'.y.top == h.y.top && h'.sz == h.sz && h'.dv == r && h'.dvsize == n - r + h.dvsize
    else
      && h'.y.top == h.y.top && h'.dv == h.dv && h'.dvsize == h.dvsize && r <= n
      && h'.sz == (h.sz - {n})[r := n - r + if n in h.sz then h.sz[n] else 0]
  }

  /** Bins, victim and the start of top are as they were. */
  ghost predicate KeepsFree(h: Heap, h': Heap) {
    h'.y.top == h.y.top && h'.sz == h.sz && h'.dv == h.dv && h'.dvsize == h.dvsize
  }

  /** The victim behind a chunk of `size` bytes gives what is missing to `nb`, or all it has. */
  ghost predicate VictimGives(h: Heap, h': Heap, r: int, total: nat, nb: nat, n: nat) {
    && n == Taken(total, nb) && h'.y.top == h.y.top && h'.sz == h.sz
    && if total < nb + MIN_CHUNK_SIZE then h'.dv == 0 && h'.dvsize == 0 else h'.dv == r && h'.dvsize == total - nb
  }

  /** The same for the binned chunk at `next`. */
  ghost predicate BinnedGives(h: Heap, h': Heap, r: int, next: int, total: nat, nb: nat, n: nat) {
    && n == Taken(total, nb) && h'.y.top == h.y.top && h'.dv == h.dv && h'.dvsize == h.dvsize
    && h'.sz == if total < nb + MIN_CHUNK_SIZE then h.sz - {next} else (h.sz - {next})[r := total - nb]
  }

  /** Where the bytes come from, or go to, when the chunk at `p` gets `n` bytes for a request of `nb`. */
  ghost predicate EndMoved(h: Heap, h': Heap, p: int, nb: nat, n: nat) {
    var size := InUse(h, p);
    var next, r := p + size, p + nb;
    if nb <= size then
      && n == Taken(size, nb)
      && if size < nb + MIN_CHUNK_SIZE then KeepsFree(h, h') else JoinsBehind(h, h', r, next)
    else if next == h.y.top then n == nb && JoinsBehind(h, h', r, next)
    else if next == h.dv then VictimGives(h, h', r, size + h.dvsize, nb, n)
    else next in h.sz && BinnedGives(h, h', r, next, size + h.sz[next], nb, n)
  }

  lemma EndShrunk(h: Heap, h': Heap, p: int, nb: nat, n: nat, size: nat)
    requires size == InUse(h, p) && nb <= size && n == Taken(size, nb)
    requires if size < nb + MIN_CHUNK_SIZE then KeepsFree(h, h') else JoinsBehind(h, h', p + nb, p + size)
    ensures EndMoved(h, h', p, nb, n)
  {
  }

  lemma EndFromTop(h: Heap, h': Heap, p: int, nb: nat, size: nat)
    requires size == InUse(h, p) < nb && p + size == h.y.top && JoinsBehind(h, h', p + nb, p + size)
    ensures EndMoved(h, h', p, nb, nb)
  {
  }

  lemma EndFromVictim(h: Heap, h': Heap, p: int, nb: nat, n: nat, size: nat)
    requires size == InUse(h, p) < nb && p + size == h.dv != h.y.top
    requires VictimGives(h, h', p + nb, size + h.dvsize, nb, n)
    ensures EndMoved(h, h', p, nb, n)
  {
  }

  lemma EndFromBinned(h: Heap, h': Heap, p: int, nb: nat, n: nat, size: nat, next: int)
    requires size == InUse(h, p) < nb && next == p + size && next in h.sz && next != h.y.top && next != h.dv
    requires BinnedGives(h, h', p + nb, next, size + h.sz[next], nb, n)
    ensures EndMoved(h, h', p, nb, n)
  {
  }

  /** A chunk that is freed behind one in use joins what is behind it. */
  lemma FreedJoins(h: Heap, h': Heap, r: int)
    requires HeapOk(h, {}) && Has(h, r).Used? && HeadOf(h.t, r).pinuse && Rejoined(h, h', r)
    ensures JoinsBehind(h, h', r, Next(h.t, r))
  {
    var n, e := Next(h.t, r), JoinEnd(h.t, h.y, r);
    RegionOk(h, {}, r);
    NotKept(h, r);
    if n != e {
      KeptIs(h, n);
    } else if n != h.y.top {
      UsedNext(h, r);
      NotKept(h, n);
    }
    hide HeapOk, Has, HeadOf, JoinEnd;
    FreedPlaces(h, h', r, n, e);
  }

  lemma UsedNext(h: Heap, r: int)
    requires HeapOk(h, {}) && Has(h, r).Used?
    requires JoinEnd(h.t, h.y, r) == Next(h.t, r) != h.y.top
    ensures Has(h, Next(h.t, r)).Used?
  {
    RegionOk(h, {}, r);
  }

  /** A chunk in use is neither the victim nor binned. */
  lemma NotKept(h: Heap, r: int)
    requires HeapOk(h, {}) && Has(h, r).Used?
    ensures r !in h.sz && (h.dv != 0 ==> r != h.dv)
  {
    hide HeapOk, Has;
    if r in h.sz {
      BinnedIsFree(h, {}, r);
    }
    if h.dv != 0 {
      VictimIsFree(h, {});
    }
  }

  lemma FreedPlaces(h: Heap, h': Heap, r: int, n: int, e: int)
    requires Rejoined(h, h', r) && JoinStart(h.t, r) == r && n == Next(h.t, r) && e == JoinEnd(h.t, h.y, r)
    requires r !in h.sz && (h.dv != 0 ==> r != h.dv) && (n == h.y.top ==> n !in h.sz)
    requires n != e ==> n > 0
    requires if n == e then n == h.y.top || (n !in h.sz && n != h.dv)
      else if n == h.dv then h.dvsize == e - n && n !in h.sz else n in h.sz && h.sz[n] == e - n
    ensures JoinsBehind(h, h', r, n)
  {
    assert h.sz - {r, n} == h.sz - {n};
    if n !in h.sz {
      assert h.sz - {n} == h.sz;
    }
  }

  /** The end of a chunk that is cut in two is freed. */
  lemma SplitJoins(h: Heap, p: int, nb: nat, h': Heap)
    requires HeapOk(h, {}) && Has(h, p).Used? && MIN_CHUNK_SIZE <= nb && nb % 16 == 0
    requires nb + MIN_CHUNK_SIZE <= ChunkSize(h.t, p) && Rejoined(UsedSplit(h, p, nb), h', p + nb)
    ensures JoinsBehind(h, h', p + nb, Next(h.t, p))
  {
    hide HeapOk, Has, Rejoined, HeadOf;
    var h1 := UsedSplit(h, p, nb);
    SplitUsedOk(h, p, nb);
    UsedSize(h1, {}, p);
    UsedSize(h1, {}, p + nb);
    RegionOk(h1, {}, p);
    FreedJoins(h1, h', p + nb);
  }

  /** A chunk has grown into the one behind it, and what it did not need of that is freed. */
  lemma GrownJoins(h: Heap, p: int, nb: nat, h': Heap)
    requires HeapOk(h, {Next(h.t, p)}) && Has(h, p).Used? && MIN_CHUNK_SIZE <= nb && nb % 16 == 0
    requires nb + MIN_CHUNK_SIZE <= ChunkSize(h.t, p) + ChunkSize(h.t, Next(h.t, p))
    requires Rejoined(UsedGrown(h, p, nb), h', p + nb)
    ensures h'.y.top == h.y.top && h'.dv == h.dv && h'.dvsize == h.dvsize
    ensures h'.sz == h.sz[p + nb := ChunkSize(h.t, p) + ChunkSize(h.t, Next(h.t, p)) - nb]
  {
    hide HeapOk, Has, Rejoined, HeadOf, ChunkSize;
    var h1, n := UsedGrown(h, p, nb), Next(h.t, p);
    var r, e := p + nb, Next(h.t, n);
    BehindLoose(h, p);
    UsedSize(h, {n}, p);
    GrowUsedOk(h, p, nb);
    UsedSize(h1, {}, r);
    assert InUse(h1, p) == nb;
    UsedSize(h1, {}, p);
    assert Next(h1.t, p) == r;
    assert Next(h1.t, r) == e && InUse(h1, e) > 0;
    NotKept(h1, e);
    UsedSize(h1, {}, e);
    RegionOk(h1, {}, p);
    FreedJoins(h1, h', r);
    assert h.sz - {e} == h.sz;
  }

  /** Behind a free chunk in hand a chunk is in use. */
  lemma BehindLoose(h: Heap, p: int)
    requires HeapOk(h, {Next(h.t, p)}) && Has(h, p).Used?
    ensures var n := Next(h.t, p);
      p < n < Next(h.t, n) && InUse(h, Next(h.t, n)) > 0 && MIN_CHUNK_SIZE <= ChunkSize(h.t, n)
  {
    var n := Next(h.t, p);
    var e := Next(h.t, n);
    LooseReady(h, {n}, n);
    UsedSize(h, {n}, p);
    NotBeforeTop(h.t, h.y, n);
    UsedSize(h, {n}, e);
  }
}
