/**
 The heap as a whole: the chunks the boundary tags describe and the free chunks the allocator
 keeps track of. A free chunk is the designated victim or binned; between the steps of an
 operation some free chunks are loose, neither of both.
 */
module HeapView {
  import opened BoundaryTags

  datatype Heap = Heap(t: Tags, y: Layout, dv: int, dvsize: nat, sz: map<int, nat>)

  ghost function Has(h: Heap, a: int): Chunk {
    At(h.t, h.y, a)
  }

  /** The size of the chunk in use at `a`, or 0: all that a user of the allocator can tell. */
  ghost function InUse(h: Heap, a: int): nat {
    if Has(h, a).Used? then Has(h, a).size else 0
  }

  /** No chunk in use starts in the `n` bytes from `p` on. */
  ghost predicate NoneUsed(h: Heap, p: int, n: nat) {
    forall a :: p <= a < p + n ==> InUse(h, a) == 0
  }

  /** `h'` is `h` with `p`, where nothing was in use, in use for `n` bytes. */
  ghost predicate Gained(h: Heap, h': Heap, p: int, n: nat) {
    && InUse(h, p) == 0
    && forall a :: InUse(h', a) == if a == p then n else InUse(h, a)
  }

  /** The same, and there is no free space right before `p`. */
  ghost predicate Took(h: Heap, h': Heap, p: int, n: nat) {
    Gained(h, h', p, n) && HeadOf(h'.t, p).pinuse
  }

  /** `h'` is `h` with the chunk at `p` no longer in use. */
  ghost predicate Freed(h: Heap, h': Heap, p: int) {
    forall a :: InUse(h', a) == if a == p then 0 else InUse(h, a)
  }

  /** `h'` is `h` with `n` bytes in use at `p`, whatever was there. */
  ghost predicate Resized(h: Heap, h': Heap, p: int, n: nat) {
    forall a :: InUse(h', a) == if a == p then n else InUse(h, a)
  }

  /** `h'` is `h` with the chunk in use at `p` cut in two. */
  ghost predicate CutInTwo(h: Heap, h': Heap, p: int, nb: nat, rest: nat) {
    && InUse(h, p + nb) == 0
    && forall a :: InUse(h', a) == if a == p then nb else if a == p + nb then rest else InUse(h, a)
  }

  /** `h'` is `h` with the chunks of all the pointers `mems` no longer in use. */
  ghost predicate FreedAll(h: Heap, h': Heap, mems: set<int>) {
    forall a :: InUse(h', a) == if a + 16 in mems then 0 else InUse(h, a)
  }

  /** What a request for a chunk of `nb` bytes got: nothing, or `n` bytes behind `mem`. */
  ghost predicate Served(h: Heap, h': Heap, mem: int, n: nat, nb: nat) {
    if mem == 0 then h' == h
    else mem > 16 && mem % 16 == 0 && nb <= n < nb + MIN_CHUNK_SIZE && Took(h, h', mem - 16, n)
  }

  /** No free chunk has `nb` bytes. */
  ghost predicate NothingFits(h: Heap, nb: nat) {
    h.y.topsize <= nb && forall a :: Has(h, a).Free? ==> Has(h, a).size < nb
  }

  ghost predicate SameUse(h: Heap, h': Heap) {
    forall a :: InUse(h', a) == InUse(h, a)
  }

  ghost predicate Accounted(h: Heap, loose: set<int>) {
    && (h.dvsize == 0 <==> h.dv == 0)
    && 0 !in loose
    && (h.dv != 0 ==> Has(h, h.dv) == Free(h.dvsize) && h.dv !in h.sz && h.dv !in loose)
    && (forall a :: a in h.sz ==> Has(h, a) == Free(h.sz[a]) && a !in loose)
    && (forall a :: a in loose ==> Has(h, a).Free?)
    && (forall a :: Has(h, a).Free? ==> a == h.dv || a in h.sz || a in loose)
  }

  ghost predicate HeapOk(h: Heap, loose: set<int>) {
    TagsOk(h.t, h.y) && Accounted(h, loose)
  }

  /** Free chunk `p` is no longer the victim or binned. */
  ghost function Dropped(h: Heap, p: int): Heap {
    if p == h.dv then h.(dv := 0, dvsize := 0) else h.(sz := h.sz - {p})
  }

  lemma DropFree(h: Heap, loose: set<int>, p: int)
    requires HeapOk(h, loose) && Has(h, p).Free? && p !in loose
    ensures HeapOk(Dropped(h, p), loose + {p})
    ensures p != h.dv ==> p in h.sz && h.sz[p] == Has(h, p).size
    ensures p == h.dv ==> h.dvsize == Has(h, p).size
  {
    FreeInside(h, loose, p);
    hide TagsOk, Has;
  }

  lemma FreeInside(h: Heap, loose: set<int>, p: int)
    requires HeapOk(h, loose) && p in h.y.chunks
    ensures p > 0
  {
  }

  lemma BinLoose(h: Heap, loose: set<int>, p: int)
    requires HeapOk(h, loose) && p in loose
    ensures HeapOk(h.(sz := h.sz[p := Has(h, p).size]), loose - {p})
  {
    var h' := h.(sz := h.sz[p := Has(h, p).size]);
    assert forall a :: Has(h', a) == Has(h, a);
    hide TagsOk, Has;
  }

  lemma DvLoose(h: Heap, loose: set<int>, p: int)
    requires HeapOk(h, loose) && p in loose && h.dv == 0
    ensures HeapOk(h.(dv := p, dvsize := Has(h, p).size), loose - {p})
  {
    var h' := h.(dv := p, dvsize := Has(h, p).size);
    assert forall a :: Has(h', a) == Has(h, a);
    assert Has(h, p).size > 0 by {
      assert Tiles(h.t, h.y, p);
    }
    hide TagsOk, Has;
  }

  /* ------------------------------ the transitions of the tags ------------------------------ */

  /** The chunks of two heaps agree outside `area`, and so does what is kept track of. */
  ghost predicate Elsewhere(h: Heap, h': Heap, area: set<int>) {
    && h'.dv == h.dv && h'.dvsize == h.dvsize && h'.sz == h.sz
    && h.dv !in area && (forall a :: a in h.sz ==> a !in area)
    && (forall a :: a !in area ==> Has(h', a) == Has(h, a))
  }

  lemma AccountedElsewhere(h: Heap, h': Heap, area: set<int>, loose: set<int>, loose': set<int>)
    requires Accounted(h, loose) && Elsewhere(h, h', area) && 0 !in area
    requires forall a :: a !in area ==> (a in loose <==> a in loose')
    requires forall a :: a in area ==> (a in loose' <==> Has(h', a).Free?)
    ensures Accounted(h', loose')
  {
    hide Has;
  }

  /** A loose chunk is not the victim, and not binned. */
  lemma LooseIsFree(h: Heap, loose: set<int>, p: int)
    requires HeapOk(h, loose) && (p in loose || Has(h, p).Used? || Has(h, p).Nothing?)
    requires p > 0
    ensures p != h.dv && p !in h.sz
    ensures p in loose ==> Has(h, p).Free? && p in h.y.chunks && p != h.y.top
  {
    hide TagsOk;
  }

  lemma TakeAll(h: Heap, loose: set<int>, t': Tags, p: int)
    requires HeapOk(h, loose) && p in loose && CarvedAll(h.t, t', p)
    ensures HeapOk(h.(t := t'), loose - {p})
    ensures forall a :: Has(h.(t := t'), a) == if a == p then Used(ChunkSize(h.t, p)) else Has(h, a)
  {
    var h' := h.(t := t');
    LooseIsFree(h, loose, p);
    FreeInside(h, loose, p);
    CarveAll(h.t, t', h.y, p);
    hide TagsOk, CarvedAll, At;
    AccountedElsewhere(h, h', {p}, loose, loose - {p});
  }

  lemma TakeSplit(h: Heap, loose: set<int>, t': Tags, p: int, nb: nat)
    requires HeapOk(h, loose) && p in loose && CarvedSplit(h.t, t', p, nb)
    requires MIN_CHUNK_SIZE <= nb && nb + MIN_CHUNK_SIZE <= ChunkSize(h.t, p) && Aligned(nb)
    ensures var h' := h.(t := t', y := h.y.(chunks := h.y.chunks + {p + nb}));
      && HeapOk(h', loose - {p} + {p + nb}) && HeadOf(t', p).pinuse
      && forall a ::
        Has(h', a) == if a == p then Used(nb) else if a == p + nb then Free(ChunkSize(h.t, p) - nb) else Has(h, a)
  {
    var h' := h.(t := t', y := h.y.(chunks := h.y.chunks + {p + nb}));
    LooseIsFree(h, loose, p);
    FreeInside(h, loose, p);
    CarveSplit(h.t, t', h.y, p, nb);
    InsideIsNothing(h, p, p + nb);
    LooseIsFree(h, loose, p + nb);
    hide TagsOk, CarvedSplit, At;
    AccountedElsewhere(h, h', {p, p + nb}, loose, loose - {p} + {p + nb});
  }

  /** Nothing starts inside a chunk. */
  lemma InsideIsNothing(h: Heap, p: int, a: int)
    requires TagsOk(h.t, h.y) && p in h.y.chunks && p != h.y.top && p < a < Next(h.t, p)
    ensures Has(h, a).Nothing? && a !in h.y.chunks
  {
    assert Tiles(h.t, h.y, p);
  }

  lemma TopIsNothing(h: Heap, a: int)
    requires TagsOk(h.t, h.y) && a >= h.y.top
    ensures Has(h, a).Nothing?
  {
  }

  lemma TakeFromTop(h: Heap, loose: set<int>, t': Tags, nb: nat)
    requires HeapOk(h, loose) && CarvedTop(h.t, t', h.y, nb)
    requires MIN_CHUNK_SIZE <= nb < h.y.topsize && Aligned(nb)
    ensures var h' := h.(t := t', y := TopCarved(h.y, nb));
      && HeapOk(h', loose)
      && forall a :: Has(h', a) == if a == h.y.top then Used(nb) else Has(h, a)
  {
    var h' := h.(t := t', y := TopCarved(h.y, nb));
    FreeInside(h, loose, h.y.top);
    CarveTop(h.t, t', h.y, nb);
    TopIsNothing(h, h.y.top);
    LooseIsFree(h, loose, h.y.top);
    assert h.y.top !in loose by {
      hide TagsOk;
    }
    hide TagsOk, CarvedTop, At;
    AccountedElsewhere(h, h', {h.y.top}, loose, loose);
  }

  /** `loose` holds all free chunks from `q` up to `e`. */
  ghost predicate Cleared(h: Heap, q: int, e: int, loose: set<int>) {
    forall a :: q <= a < e && Has(h, a).Free? ==> a in loose
  }

  lemma MergeFree(h: Heap, loose: set<int>, t': Tags, q: int, e: int)
    requires HeapOk(h, loose) && Coalesced(h.t, t', q, e)
    requires q in h.y.chunks && e in h.y.chunks && e != h.y.top
    requires HeadOf(h.t, q).pinuse && HeadOf(h.t, e).cinuse
    requires Cleared(h, q, e, loose) && forall a :: a in loose ==> q <= a < e
    ensures var h' := h.(t := t', y := Joined(h.y, q, e));
      && HeapOk(h', {q})
      && forall a :: Has(h', a) == if a == q then Free(e - q) else if q < a < e then Nothing else Has(h, a)
  {
    var h' := h.(t := t', y := Joined(h.y, q, e));
    FreeInside(h, loose, q);
    Coalesce(h.t, t', h.y, q, e);
    var area := set a | a in h.y.chunks && q <= a < e;
    assert forall a :: Has(h, a) != Nothing ==> a in h.y.chunks;
    hide TagsOk, Coalesced, At, Joined;
    assert Elsewhere(h, h', area);
    AccountedElsewhere(h, h', area, loose, {q});
  }

  lemma MergeTop(h: Heap, loose: set<int>, t': Tags, q: int)
    requires HeapOk(h, loose) && q <= h.y.top && CoalescedTop(h.t, t', h.y, q)
    requires q in h.y.chunks && HeadOf(h.t, q).pinuse
    requires Cleared(h, q, h.y.top, loose) && forall a :: a in loose ==> q <= a
    ensures var h' := h.(t := t', y := TopFrom(h.y, q));
      && HeapOk(h', {})
      && forall a :: Has(h', a) == if a >= q then Nothing else Has(h, a)
  {
    var h' := h.(t := t', y := TopFrom(h.y, q));
    FreeInside(h, loose, q);
    CoalesceTop(h.t, t', h.y, q);
    var area := set a | a in h.y.chunks && q <= a;
    assert forall a :: Has(h, a) != Nothing ==> a in h.y.chunks;
    hide TagsOk, CoalescedTop, At, TopFrom;
    AccountedElsewhere(h, h', area, loose, {});
  }

  lemma SplitUsedChunk(h: Heap, loose: set<int>, t': Tags, p: int, nb: nat)
    requires HeapOk(h, loose) && Has(h, p).Used? && SplitUsed(h.t, t', p, nb)
    requires MIN_CHUNK_SIZE <= nb && nb + MIN_CHUNK_SIZE <= ChunkSize(h.t, p) && Aligned(nb)
    ensures var h' := h.(t := t', y := h.y.(chunks := h.y.chunks + {p + nb}));
      && HeapOk(h', loose)
      && forall a ::
        Has(h', a) == if a == p then Used(nb) else if a == p + nb then Used(ChunkSize(h.t, p) - nb) else Has(h, a)
  {
    var h' := h.(t := t', y := h.y.(chunks := h.y.chunks + {p + nb}));
    FreeInside(h, loose, p);
    LooseIsFree(h, loose, p);
    SplitInUse(h.t, t', h.y, p, nb);
    InsideIsNothing(h, p, p + nb);
    LooseIsFree(h, loose, p + nb);
    hide TagsOk, SplitUsed, At;
    AccountedElsewhere(h, h', {p, p + nb}, loose, loose);
  }

  /** A chunk in use takes in the next one, which is in use or loose. */
  lemma MergeUsed(h: Heap, loose: set<int>, t': Tags, p: int)
    requires HeapOk(h, loose) && Has(h, p).Used? && Next(h.t, p) != h.y.top && Merged(h.t, t', p)
    requires Has(h, Next(h.t, p)).Free? ==> Next(h.t, p) in loose
    ensures var n := Next(h.t, p);
      var h' := h.(t := t', y := h.y.(chunks := h.y.chunks - {n}));
      && HeapOk(h', loose - {n})
      && forall a ::
        Has(h', a) ==
        if a == p then Used(ChunkSize(h.t, p) + ChunkSize(h.t, n)) else if a == n then Nothing else Has(h, a)
  {
    var n := Next(h.t, p);
    var h' := h.(t := t', y := h.y.(chunks := h.y.chunks - {n}));
    FreeInside(h, loose, p);
    LooseIsFree(h, loose, p);
    assert n in h.y.chunks by {
      assert Tiles(h.t, h.y, p);
    }
    FreeInside(h, loose, n);
    LooseIsFree(h, loose, n);
    MergeInUse(h.t, t', h.y, p);
    hide TagsOk, Merged, At;
    AccountedElsewhere(h, h', {p, n}, loose, loose - {n});
  }

  lemma UsedHasNext(h: Heap, loose: set<int>, p: int)
    requires HeapOk(h, loose) && Has(h, p).Used?
    ensures p in h.y.chunks && p != h.y.top && p > 0 && p < Next(h.t, p) && Next(h.t, p) in h.y.chunks
  {
    assert Tiles(h.t, h.y, p);
    FreeInside(h, loose, p);
  }

  lemma GrowIntoFree(h: Heap, loose: set<int>, t': Tags, p: int, nb: nat)
    requires HeapOk(h, loose) && Has(h, p).Used? && Next(h.t, p) in loose && GrownFree(h.t, t', p, nb)
    requires ChunkSize(h.t, p) < nb && p + nb + MIN_CHUNK_SIZE <= Next(h.t, Next(h.t, p)) && Aligned(nb)
    ensures var n := Next(h.t, p);
      var h' := h.(t := t', y := h.y.(chunks := h.y.chunks - {n} + {p + nb}));
      && HeapOk(h', loose - {n} + {p + nb})
      && forall a ::
        Has(h', a) ==
        if a == p then Used(nb) else if a == p + nb then Free(Next(h.t, n) - (p + nb))
        else if a == n then Nothing else Has(h, a)
  {
    hide TagsOk, GrownFree, At, Accounted;
    var n := Next(h.t, p);
    var h' := h.(t := t', y := h.y.(chunks := h.y.chunks - {n} + {p + nb}));
    UsedHasNext(h, loose, p);
    LooseIsFree(h, loose, p);
    FreeInside(h, loose, n);
    LooseIsFree(h, loose, n);
    InsideIsNothing(h, n, p + nb);
    LooseIsFree(h, loose, p + nb);
    GrowFree(h.t, t', h.y, p, nb);
    AccountedElsewhere(h, h', {p, n, p + nb}, loose, loose - {n} + {p + nb});
  }

  lemma GrowIntoTop(h: Heap, loose: set<int>, t': Tags, p: int, nb: nat)
    requires HeapOk(h, loose) && Has(h, p).Used? && Next(h.t, p) == h.y.top && GrownTop(h.t, t', h.y, p, nb)
    requires ChunkSize(h.t, p) < nb && p + nb < h.y.top + h.y.topsize && Aligned(nb)
    ensures var h' := h.(t := t', y := TopGrownInto(h.y, p + nb));
      && HeapOk(h', loose)
      && forall a :: Has(h', a) == if a == p then Used(nb) else Has(h, a)
  {
    var h' := h.(t := t', y := TopGrownInto(h.y, p + nb));
    FreeInside(h, loose, p);
    LooseIsFree(h, loose, p);
    GrowTop(h.t, t', h.y, p, nb);
    hide TagsOk, GrownTop, At;
    AccountedElsewhere(h, h', {p}, loose, loose);
  }

  lemma ResizeTop(h: Heap, loose: set<int>, t': Tags, size: nat)
    requires HeapOk(h, loose) && size > 0 && Aligned(size) && TopMoved(h.t, t', h.y, size)
    ensures HeapOk(h.(t := t', y := h.y.(topsize := size)), loose)
    ensures forall a :: Has(h.(t := t', y := h.y.(topsize := size)), a) == Has(h, a)
  {
    hide TagsOk, TopMoved, At;
    var h' := h.(t := t', y := h.y.(topsize := size));
    MoveTop(h.t, t', h.y, size);
    AccountedElsewhere(h, h', {}, loose, loose);
  }

  /** What the bins need to know of a loose chunk before it is binned. */
  lemma LooseReady(h: Heap, loose: set<int>, p: int)
    requires HeapOk(h, loose) && p in loose
    ensures p > 0 && p !in h.sz && p in h.y.chunks && p != h.y.top
    ensures Has(h, p) == Free(ChunkSize(h.t, p))
    ensures ChunkSize(h.t, p) >= MIN_CHUNK_SIZE && ChunkSize(h.t, p) % 16 == 0
    ensures p + ChunkSize(h.t, p) <= h.y.top && h.y.base <= p
  {
    assert Tiles(h.t, h.y, p);
  }

  /** Binned chunks are free chunks of the heap. */
  lemma BinnedIsFree(h: Heap, loose: set<int>, p: int)
    requires HeapOk(h, loose) && p in h.sz
    ensures Has(h, p) == Free(h.sz[p]) && ChunkSize(h.t, p) == h.sz[p] && p !in loose && p != h.dv
    ensures h.sz[p] >= MIN_CHUNK_SIZE && h.sz[p] % 16 == 0
    ensures h.y.base <= p && p + h.sz[p] <= h.y.top
  {
    assert Tiles(h.t, h.y, p);
  }

  lemma VictimIsFree(h: Heap, loose: set<int>)
    requires HeapOk(h, loose) && h.dv != 0
    ensures Has(h, h.dv) == Free(h.dvsize) && ChunkSize(h.t, h.dv) == h.dvsize && h.dv !in loose && h.dv !in h.sz
    ensures h.dvsize >= MIN_CHUNK_SIZE && h.dvsize % 16 == 0 && h.dv > 0
    ensures h.y.base <= h.dv && h.dv + h.dvsize <= h.y.top
  {
    assert Tiles(h.t, h.y, h.dv);
  }

  lemma DropBinned(h: Heap, loose: set<int>, p: int)
    requires HeapOk(h, loose) && p in h.sz
    ensures HeapOk(h.(sz := h.sz - {p}), loose + {p})
    ensures forall a :: Has(h.(sz := h.sz - {p}), a) == Has(h, a)
  {
    BinnedIsFree(h, loose, p);
    DropFree(h, loose, p);
  }

  lemma DropVictim(h: Heap, loose: set<int>)
    requires HeapOk(h, loose) && h.dv != 0
    ensures HeapOk(h.(dv := 0, dvsize := 0), loose + {h.dv})
    ensures forall a :: Has(h.(dv := 0, dvsize := 0), a) == Has(h, a)
  {
    VictimIsFree(h, loose);
    DropFree(h, loose, h.dv);
  }

  /** The victim moves to its bin. */
  lemma BinVictim(h: Heap, loose: set<int>)
    requires HeapOk(h, loose) && h.dv != 0
    ensures var h' := h.(dv := 0, dvsize := 0, sz := h.sz[h.dv := h.dvsize]);
      HeapOk(h', loose) && forall a :: Has(h', a) == Has(h, a)
  {
    VictimIsFree(h, loose);
    DropVictim(h, loose);
    BinLoose(h.(dv := 0, dvsize := 0), loose + {h.dv}, h.dv);
    assert loose + {h.dv} - {h.dv} == loose;
  }

  lemma FreeBound(h: Heap, nb: nat)
    requires HeapOk(h, {}) && h.dvsize < nb && forall a :: a in h.sz ==> h.sz[a] < nb
    ensures forall a :: Has(h, a).Free? ==> Has(h, a).size < nb
  {
    forall a | Has(h, a).Free?
      ensures Has(h, a).size < nb
    {
      FreeInside(h, {}, a);
    }
  }
}
