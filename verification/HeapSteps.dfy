/** The steps that put chunks in use or free them, with the words they write, seen from outside. */
module HeapSteps {
  import opened BoundaryTags
  import opened ChunkWrites
  import opened HeapView

  /** Moves between the bins and the victim are not seen in the chunks. */
  lemma BookkeepingOnly(h: Heap, h': Heap)
    requires h'.t == h.t && h'.y == h.y
    ensures SameUse(h, h') && forall a :: Has(h', a) == Has(h, a)
  {
  }

  lemma SameUseSelf(h: Heap)
    ensures SameUse(h, h)
  {
  }

  lemma TookAfter(h: Heap, h': Heap, h'': Heap, p: int, n: nat)
    requires SameUse(h, h') && Took(h', h'', p, n)
    ensures Took(h, h'', p, n)
  {
  }

  lemma AddressOk(h: Heap, loose: set<int>, p: int)
    requires HeapOk(h, loose) && p in h.y.chunks
    ensures p > 0 && p % 16 == 0
  {
  }

  /* ------------------------------- taking a free chunk ------------------------------- */

  ghost function WholeTaken(h: Heap, p: int): Heap {
    h.(t := SetInuseAndPinuse(h.t, p, ChunkSize(h.t, p)))
  }

  lemma TakeWholeOk(h: Heap, p: int)
    requires HeapOk(h, {p})
    ensures HeapOk(WholeTaken(h, p), {}) && Took(h, WholeTaken(h, p), p, ChunkSize(h.t, p))
  {
    hide HeapOk, Has, SetInuseAndPinuse;
    LooseReady(h, {p}, p);
    WritesCarveAll(h.t, p);
    TakeAll(h, {p}, WholeTaken(h, p).t, p);
    assert {p} - {p} == {};
  }

  ghost function FirstTaken(h: Heap, p: int, nb: nat): Heap
    requires nb <= ChunkSize(h.t, p)
  {
    h.(t := SetFreeChunk(SetUsedChunk(h.t, p, nb), p + nb, ChunkSize(h.t, p) - nb),
      y := h.y.(chunks := h.y.chunks + {p + nb}))
  }

  lemma TakeFirstOk(h: Heap, p: int, nb: nat)
    requires HeapOk(h, {p}) && MIN_CHUNK_SIZE <= nb && nb + MIN_CHUNK_SIZE <= ChunkSize(h.t, p) && nb % 16 == 0
    ensures var h' := FirstTaken(h, p, nb);
      && HeapOk(h', {p + nb}) && Took(h, h', p, nb)
      && ChunkSize(h'.t, p + nb) == ChunkSize(h.t, p) - nb
      && Has(h', p + nb) == Free(ChunkSize(h.t, p) - nb)
  {
    hide HeapOk, Has, SetUsedChunk, SetFreeChunk, CarvedSplit, TagsOk;
    LooseReady(h, {p}, p);
    FreeSize(h, {p}, p);
    WritesCarveSplit(h.t, p, nb);
    TakeSplit(h, {p}, FirstTaken(h, p, nb).t, p, nb);
    assert {p} - {p} + {p + nb} == {p + nb};
    InsideIsNothing(h, p, p + nb);
    LooseReady(FirstTaken(h, p, nb), {p + nb}, p + nb);
  }

  /** The victim after `nb` bytes were split off its low end; the two words are written in the other order. */
  ghost function VictimSplit(h: Heap, nb: nat): Heap
    requires nb <= h.dvsize
  {
    var r, rsize := h.dv + nb, h.dvsize - nb;
    Heap(
      SetUsedChunk(SetFreeChunk(h.t, r, rsize), h.dv, nb),
      h.y.(chunks := h.y.chunks + {r}), r, rsize, h.sz)
  }

  lemma SplitVictimOk(h: Heap, nb: nat)
    requires HeapOk(h, {}) && MIN_CHUNK_SIZE <= nb && nb + MIN_CHUNK_SIZE <= h.dvsize && nb % 16 == 0
    ensures HeapOk(VictimSplit(h, nb), {}) && Took(h, VictimSplit(h, nb), h.dv, nb)
  {
    hide HeapOk, Has, SetUsedChunk, SetFreeChunk, CarvedSplit, TagsOk;
    var p, h', r := h.dv, VictimSplit(h, nb), h.dv + nb;
    VictimExists(h);
    VictimIsFree(h, {});
    FreeSize(h, {}, p);
    DropVictim(h, {});
    assert {} + {p} == {p};
    WritesCarveSplit(h.t, p, nb);
    InsideIsNothing(h, p, r);
    TakeSplit(h.(dv := 0, dvsize := 0), {p}, h'.t, p, nb);
    assert {p} - {p} + {r} == {r};
    SetAsVictim(h'.(dv := 0, dvsize := 0), r);
    assert h'.(dv := 0, dvsize := 0).(dv := r, dvsize := h.dvsize - nb) == h';
  }

  lemma VictimExists(h: Heap)
    requires HeapOk(h, {}) && h.dvsize > 0
    ensures h.dv != 0
  {
  }

  lemma FreeSize(h: Heap, loose: set<int>, p: int)
    requires HeapOk(h, loose) && Has(h, p).Free?
    ensures TagsOk(h.t, h.y) && p in h.y.chunks && p != h.y.top
    ensures Has(h, p) == Free(ChunkSize(h.t, p)) && ChunkSize(h.t, p) >= MIN_CHUNK_SIZE
  {
    assert Tiles(h.t, h.y, p);
  }

  lemma SetAsVictim(h: Heap, r: int)
    requires HeapOk(h, {r}) && h.dv == 0
    ensures HeapOk(h.(dv := r, dvsize := Has(h, r).size), {})
    ensures forall a :: Has(h.(dv := r, dvsize := Has(h, r).size), a) == Has(h, a)
  {
    DvLoose(h, {r}, r);
    assert {r} - {r} == {};
  }

  lemma DropVictimAlone(h: Heap)
    requires HeapOk(h, {}) && h.dv != 0
    ensures HeapOk(h.(dv := 0, dvsize := 0), {h.dv}) && SameUse(h, h.(dv := 0, dvsize := 0))
    ensures ChunkSize(h.t, h.dv) == h.dvsize && h.dv > 0 && h.dv % 16 == 0
  {
    DropVictim(h, {});
    VictimIsFree(h, {});
    AddressOk(h, {}, h.dv);
    assert {} + {h.dv} == {h.dv};
  }

  ghost function TopTaken(h: Heap, nb: nat): Heap
    requires nb <= h.y.topsize
  {
    h.(t := SetUsedChunk(SetHead(h.t, h.y.top + nb, Head(h.y.topsize - nb, false, true)), h.y.top, nb),
      y := TopCarved(h.y, nb))
  }

  lemma TakeTopOk(h: Heap, nb: nat)
    requires HeapOk(h, {}) && MIN_CHUNK_SIZE <= nb < h.y.topsize && nb % 16 == 0
    ensures HeapOk(TopTaken(h, nb), {}) && Took(h, TopTaken(h, nb), h.y.top, nb)
    ensures h.y.top > 0 && h.y.top % 16 == 0
  {
    WritesCarveTop(h.t, h.y, nb);
    TakeFromTop(h, {}, TopTaken(h, nb).t, nb);
    TopIsNothing(h, h.y.top);
    AddressOk(h, {}, h.y.top);
    hide HeapOk, Has, SetUsedChunk, SetHead;
  }

  /* ------------------------------------- top ------------------------------------- */

  ghost function TopResized(h: Heap, size: nat): Heap {
    h.(t := SetHead(SetHead(h.t, h.y.top, Head(size, false, true)), h.y.top + size, Head(TOP_FOOT_SIZE, false, false)),
      y := h.y.(topsize := size))
  }

  lemma TopAligned(h: Heap, loose: set<int>)
    requires HeapOk(h, loose)
    ensures h.y.top > 0 && h.y.top % 16 == 0 && h.y.topsize > 0 && h.y.topsize % 16 == 0 && h.y.base <= h.y.top
  {
  }

  /** `init_top` where top is, for a segment whose end has moved. */
  lemma ResizeTopOk(h: Heap, size: nat)
    requires HeapOk(h, {}) && size > 0 && size % 16 == 0
    ensures HeapOk(TopResized(h, size), {}) && SameUse(h, TopResized(h, size))
    ensures forall a :: Has(TopResized(h, size), a) == Has(h, a)
  {
    hide HeapOk, SetHead;
    WritesMoveTop(h.t, h.y, size);
    ResizeTop(h, {}, TopResized(h, size).t, size);
  }

  /** The first `init_top`. */
  lemma FirstTopOk(h: Heap, t0: Tags, size: nat)
    requires h.y == Layout({h.y.base}, h.y.base, h.y.base, size) && h.dv == 0 && h.dvsize == 0 && h.sz == map[]
    requires h.y.base > 0 && h.y.base % 16 == 0 && size > 0 && size % 16 == 0
    requires h.t ==
      SetHead(SetHead(t0, h.y.base, Head(size, false, true)), h.y.base + size, Head(TOP_FOOT_SIZE, false, false))
    ensures HeapOk(h, {}) && forall a :: Has(h, a) == Nothing
  {
    InitTop(h.t, h.y.base, size);
  }

  /* --------------------------------- freeing a chunk --------------------------------- */

  /** Where the free space begins that a freed chunk will be part of. */
  function JoinStart(t: Tags, p: int): int {
    if HeadOf(t, p).pinuse then p else p - FootOf(t, p)
  }

  /** Where it ends. */
  function JoinEnd(t: Tags, y: Layout, p: int): int {
    var n := Next(t, p);
    if n == y.top || HeadOf(t, n).cinuse then n else Next(t, n)
  }

  /**
   Where the free space around `p` goes once `p` is freed: to top; to the victim, if that was one of
   its neighbours; otherwise to a bin. The neighbours that were binned leave their bins.
   */
  ghost predicate Rejoined(h: Heap, h': Heap, p: int) {
    var q, n, e := JoinStart(h.t, p), Next(h.t, p), JoinEnd(h.t, h.y, p);
    if n == h.y.top then
      && h'.y.top == q && h'.sz == h.sz - {q, n}
      && if h.dv != 0 && h.dv == q then h'.dv == 0 && h'.dvsize == 0 else h'.dv == h.dv && h'.dvsize == h.dvsize
    else if h.dv != 0 && (h.dv == q || h.dv == n) then
      h'.y.top == h.y.top && h'.sz == h.sz - {q, n} && h'.dv == q && h'.dvsize == e - q
    else
      && h'.y.top == h.y.top && q <= e && h'.sz == (h.sz - {q, n})[q := e - q]
      && h'.dv == h.dv && h'.dvsize == h.dvsize
  }

  /** It makes no difference whether the neighbour before has left its bin already. */
  lemma RejoinedBefore(h: Heap, h1: Heap, h2: Heap, p: int)
    requires h1.t == h.t && h1.y == h.y && h1.dv == h.dv && h1.dvsize == h.dvsize
    requires h1.sz == h.sz || h1.sz == h.sz - {JoinStart(h.t, p)}
    requires Rejoined(h1, h2, p)
    ensures Rejoined(h, h2, p)
  {
    var q, n := JoinStart(h.t, p), Next(h.t, p);
    assert h.sz - {q} - {q, n} == h.sz - {q, n};
  }

  lemma RejoinedVictim(h: Heap, h': Heap, p: int, q: int, n: int, e: int)
    requires q == JoinStart(h.t, p) && n == Next(h.t, p) && e == JoinEnd(h.t, h.y, p) && n != h.y.top
    requires h.dv != 0 && (h.dv == q || h.dv == n) && q !in h.sz && n !in h'.sz
    requires h'.y.top == h.y.top && (h'.sz == h.sz || h'.sz == h.sz - {n}) && h'.dv == q && h'.dvsize == e - q
    ensures Rejoined(h, h', p)
  {
    assert h.sz - {q, n} == h'.sz;
  }

  lemma RejoinedBin(h: Heap, h': Heap, p: int, q: int, n: int, e: int, sz: map<int, nat>)
    requires q == JoinStart(h.t, p) && n == Next(h.t, p) && e == JoinEnd(h.t, h.y, p) && n != h.y.top && q <= e
    requires !(h.dv != 0 && (h.dv == q || h.dv == n)) && q !in h.sz && n !in sz && (sz == h.sz || sz == h.sz - {n})
    requires h'.y.top == h.y.top && h'.sz == sz[q := e - q] && h'.dv == h.dv && h'.dvsize == h.dvsize
    ensures Rejoined(h, h', p)
  {
    assert h.sz - {q, n} == sz;
  }

  lemma RejoinedTop(h: Heap, h': Heap, p: int, q: int)
    requires q == JoinStart(h.t, p) && Next(h.t, p) == h.y.top && q !in h.sz && h.y.top !in h.sz && q != 0
    requires q <= h.y.top && h' == TopJoined(h, q)
    ensures Rejoined(h, h', p)
  {
    assert h.sz - {q, h.y.top} == h.sz;
  }

  lemma RejoinedAfter(h: Heap, h1: Heap, h2: Heap, p: int)
    requires Rejoined(h, h1, p) && h2.y.top == h1.y.top && h2.sz == h1.sz && h2.dv == h1.dv && h2.dvsize == h1.dvsize
    ensures Rejoined(h, h2, p)
  {
  }

  /** From `q` to `e` there are the chunk `p` in use and free chunks right before and behind it. */
  ghost predicate Region(h: Heap, p: int, q: int, e: int) {
    var n := Next(h.t, p);
    && q in h.y.chunks && e in h.y.chunks && q <= p < n <= e <= h.y.top && HeadOf(h.t, q).pinuse
    && n in h.y.chunks && HeadOf(h.t, n).pinuse
    && (q != p ==> Has(h, q) == Free(p - q) && q > 0)
    && (n != e ==> Has(h, n) == Free(e - n) && n > 0 && !HeadOf(h.t, e).pinuse && e != h.y.top)
    && (e != h.y.top ==> HeadOf(h.t, e).cinuse)
    && (forall a :: q <= a < e && Has(h, a) != Nothing ==> a == q || a == p || a == n)
  }

  lemma RegionOk(h: Heap, loose: set<int>, p: int)
    requires HeapOk(h, loose) && Has(h, p).Used?
    ensures Region(h, p, JoinStart(h.t, p), JoinEnd(h.t, h.y, p))
  {
    hide HeadOf, FootOf, ChunkSize;
    var q, n, e := JoinStart(h.t, p), Next(h.t, p), JoinEnd(h.t, h.y, p);
    assert Tiles(h.t, h.y, p) && Tagged(h.t, p);
    if !HeadOf(h.t, p).pinuse {
      FreeBefore(h.t, h.y, p);
      FreeInside(h, loose, q);
      assert Tiles(h.t, h.y, q);
    }
    if n != h.y.top && !HeadOf(h.t, n).cinuse {
      NotBeforeTop(h.t, h.y, n);
      FreeInside(h, loose, n);
      assert Tiles(h.t, h.y, n) && Tagged(h.t, n);
    }
    assert forall a :: Has(h, a) != Nothing ==> a in h.y.chunks;
  }

  /** All free space around the chunk is in hand: it becomes one free chunk. */
  lemma JoinOk(h: Heap, loose: set<int>, t': Tags, p: int, q: int, e: int)
    requires HeapOk(h, loose) && Has(h, p).Used? && Region(h, p, q, e) && e != h.y.top
    requires loose == (if q == p then {} else {q}) + (if Next(h.t, p) == e then {} else {Next(h.t, p)})
    requires Coalesced(h.t, t', q, e)
    ensures var h' := h.(t := t', y := Joined(h.y, q, e));
      HeapOk(h', {q}) && Freed(h, h', p) && Has(h', q) == Free(e - q)
  {
    hide HeapOk, Coalesced, Has;
    MergeFree(h, loose, t', q, e);
  }

  lemma JoinTopOk(h: Heap, loose: set<int>, p: int, q: int)
    requires HeapOk(h, loose) && Has(h, p).Used? && Region(h, p, q, h.y.top) && Next(h.t, p) == h.y.top
    requires loose == if q == p then {} else {q}
    ensures var h' := h.(t := SetHead(h.t, q, Head(h.y.top + h.y.topsize - q, false, true)), y := TopFrom(h.y, q));
      HeapOk(h', {}) && Freed(h, h', p)
  {
    TopIsNothing(h, h.y.top);
    assert forall a :: a >= h.y.top ==> Has(h, a).Nothing?;
    WritesCoalesceTop(h.t, h.y, q);
    hide HeapOk, CoalescedTop, Has, SetHead;
    MergeTop(h, loose, SetHead(h.t, q, Head(h.y.top + h.y.topsize - q, false, true)), q);
  }

  lemma FreedAfter(h: Heap, h': Heap, h'': Heap, p: int)
    requires Freed(h, h', p) && SameUse(h', h'')
    ensures Freed(h, h'', p)
  {
  }

  lemma FreedBefore(h: Heap, h': Heap, h'': Heap, p: int)
    requires SameUse(h, h') && Freed(h', h'', p)
    ensures Freed(h, h'', p)
  {
  }

  /** The region is a matter of the tags alone. */
  lemma RegionSame(h: Heap, h': Heap, p: int, q: int, e: int)
    requires Region(h, p, q, e) && h'.t == h.t && h'.y == h.y
    ensures Region(h', p, q, e)
  {
    assert forall a :: Has(h', a) == Has(h, a);
    hide Has;
  }

  /** The words written when free space is joined up to `e`: the P bit behind it is cleared, or was clear. */
  ghost function JoinedWords(t: Tags, q: int, n: int, e: int): Tags
    requires q <= e
  {
    if n == e then SetFreeWithPinuse(t, q, e - q, e) else SetFreeChunk(t, q, e - q)
  }

  ghost function JoinedHeap(h: Heap, q: int, n: int, e: int): Heap
    requires q <= e
  {
    h.(t := JoinedWords(h.t, q, n, e), y := Joined(h.y, q, e))
  }

  lemma JoinWordsOk(h: Heap, loose: set<int>, p: int, q: int, e: int)
    requires HeapOk(h, loose) && Has(h, p).Used? && Region(h, p, q, e) && e != h.y.top
    requires loose == (if q == p then {} else {q}) + (if Next(h.t, p) == e then {} else {Next(h.t, p)})
    ensures var h' := JoinedHeap(h, q, Next(h.t, p), e);
      && HeapOk(h', {q}) && Freed(h, h', p) && Has(h', q) == Free(e - q) && ChunkSize(h'.t, q) == e - q
  {
    WritesCoalesce(h.t, q, e);
    var t' := JoinedWords(h.t, q, Next(h.t, p), e);
    assert ChunkSize(t', q) == e - q;
    JoinOk(h, loose, t', p, q, e);
  }

  /** The same where the joined chunk is the victim. */
  lemma JoinVictimOk(h: Heap, loose: set<int>, p: int, q: int, e: int)
    requires HeapOk(h, loose) && Has(h, p).Used? && Region(h, p, q, e) && e != h.y.top && h.dv != 0
    requires h.dv == q || h.dv == Next(h.t, p)
    requires loose + {h.dv} == (if q == p then {} else {q}) + (if Next(h.t, p) == e then {} else {Next(h.t, p)})
    ensures var h' := JoinedHeap(h, q, Next(h.t, p), e).(dv := q, dvsize := e - q);
      HeapOk(h', {}) && Freed(h, h', p)
  {
    hide HeapOk, Has, JoinedWords;
    var h1 := h.(dv := 0, dvsize := 0);
    DropVictim(h, loose);
    RegionSame(h, h1, p, q, e);
    JoinWordsOk(h1, loose + {h.dv}, p, q, e);
    var h2 := JoinedHeap(h1, q, Next(h.t, p), e);
    SetAsVictim(h2, q);
    BookkeepingOnly(h, h1);
    BookkeepingOnly(h2, h2.(dv := q, dvsize := e - q));
    FreedBefore(h, h1, h2, p);
    FreedAfter(h, h2, h2.(dv := q, dvsize := e - q), p);
  }

  /** The same where the free space joins top; a victim right before the chunk is given up. */
  ghost function TopJoined(h: Heap, q: int): Heap
    requires q <= h.y.top
  {
    var h1 := if q == h.dv then h.(dv := 0, dvsize := 0) else h;
    h1.(t := SetHead(h.t, q, Head(h.y.top + h.y.topsize - q, false, true)), y := TopFrom(h.y, q))
  }

  lemma JoinTopVictimOk(h: Heap, loose: set<int>, p: int, q: int)
    requires HeapOk(h, loose) && Has(h, p).Used? && Region(h, p, q, h.y.top) && Next(h.t, p) == h.y.top
    requires loose == if q == p || q == h.dv then {} else {q}
    ensures q <= h.y.top && HeapOk(TopJoined(h, q), {}) && Freed(h, TopJoined(h, q), p)
  {
    hide HeapOk, Has;
    UsedIsNotVictim(h, loose, p);
    if q == h.dv {
      var h1 := h.(dv := 0, dvsize := 0);
      DropVictim(h, loose);
      RegionSame(h, h1, p, q, h.y.top);
      BookkeepingOnly(h, h1);
      assert {} + {q} == {q};
      JoinTopOk(h1, {q}, p, q);
      FreedBefore(h, h1, TopJoined(h, q), p);
    } else {
      JoinTopOk(h, loose, p, q);
    }
  }

  lemma UsedIsNotVictim(h: Heap, loose: set<int>, p: int)
    requires HeapOk(h, loose) && Has(h, p).Used?
    ensures p != h.dv && p > 0 && p !in h.sz
  {
    FreeInside(h, loose, p);
  }

  /* ------------------------------ resizing a chunk in use ------------------------------ */

  ghost function UsedSplit(h: Heap, p: int, nb: nat): Heap
    requires nb <= ChunkSize(h.t, p)
  {
    h.(t := SetInuse(SetInuse(h.t, p, nb), p + nb, ChunkSize(h.t, p) - nb), y := h.y.(chunks := h.y.chunks + {p + nb}))
  }

  lemma SplitUsedOk(h: Heap, p: int, nb: nat)
    requires HeapOk(h, {}) && Has(h, p).Used? && MIN_CHUNK_SIZE <= nb && nb % 16 == 0
    requires nb + MIN_CHUNK_SIZE <= ChunkSize(h.t, p)
    ensures var h', rest := UsedSplit(h, p, nb), ChunkSize(h.t, p) - nb;
      HeapOk(h', {}) && CutInTwo(h, h', p, nb, rest) && Has(h', p + nb) == Used(rest) && Has(h', p) == Used(nb)
  {
    hide HeapOk, Has, SetInuse, TagsOk, SplitUsed;
    UsedSize(h, {}, p);
    UsedTag(h, {}, p);
    WritesSplitUsed(h.t, p, nb);
    InsideIsNothing(h, p, p + nb);
    SplitUsedChunk(h, {}, UsedSplit(h, p, nb).t, p, nb);
  }

  /** The same, with the two heads written in the other order. */
  lemma SplitUsedBackOk(h: Heap, p: int, nb: nat)
    requires HeapOk(h, {}) && Has(h, p).Used? && MIN_CHUNK_SIZE <= nb && nb % 16 == 0
    requires nb + MIN_CHUNK_SIZE <= ChunkSize(h.t, p)
    ensures var rest := ChunkSize(h.t, p) - nb;
      var h' := h.(t := SetInuse(SetInuse(h.t, p + nb, rest), p, nb), y := h.y.(chunks := h.y.chunks + {p + nb}));
      HeapOk(h', {}) && CutInTwo(h, h', p, nb, rest) && Has(h', p + nb) == Used(rest) && Has(h', p) == Used(nb)
  {
    hide HeapOk, Has, SetInuse, TagsOk, SplitUsed;
    UsedSize(h, {}, p);
    UsedTag(h, {}, p);
    WritesSplitUsedBack(h.t, p, nb);
    InsideIsNothing(h, p, p + nb);
    SplitUsedChunk(h, {}, SetInuse(SetInuse(h.t, p + nb, ChunkSize(h.t, p) - nb), p, nb), p, nb);
  }

  lemma UsedTag(h: Heap, loose: set<int>, p: int)
    requires HeapOk(h, loose) && Has(h, p).Used?
    ensures HeadOf(h.t, Next(h.t, p)).pinuse
  {
    assert Tagged(h.t, p);
  }

  lemma CutAndFreed(h: Heap, h': Heap, h'': Heap, p: int, nb: nat, rest: nat)
    requires CutInTwo(h, h', p, nb, rest) && Freed(h', h'', p + nb) && nb > 0
    ensures Resized(h, h'', p, nb)
  {
  }

  lemma ResizedAfter(h: Heap, h': Heap, h'': Heap, p: int, n: nat)
    requires SameUse(h, h') && Resized(h', h'', p, n)
    ensures Resized(h, h'', p, n)
  {
  }

  ghost function UsedIntoTop(h: Heap, p: int, nb: nat): Heap
    requires p + nb <= h.y.top + h.y.topsize
  {
    h.(t := SetHead(SetInuse(h.t, p, nb), p + nb, Head(h.y.top + h.y.topsize - (p + nb), false, true)),
      y := TopGrownInto(h.y, p + nb))
  }

  lemma UsedIntoTopOk(h: Heap, p: int, nb: nat)
    requires HeapOk(h, {}) && Has(h, p).Used? && Next(h.t, p) == h.y.top && ChunkSize(h.t, p) < nb && nb % 16 == 0
    requires p + nb < h.y.top + h.y.topsize
    ensures HeapOk(UsedIntoTop(h, p, nb), {}) && Resized(h, UsedIntoTop(h, p, nb), p, nb)
  {
    WritesGrowTop(h.t, h.y, p, nb);
    GrowIntoTop(h, {}, UsedIntoTop(h, p, nb).t, p, nb);
    hide HeapOk, Has, SetInuse, SetHead;
  }

  ghost function UsedMerged(h: Heap, p: int): Heap {
    h.(t := SetInuse(h.t, p, ChunkSize(h.t, p) + ChunkSize(h.t, Next(h.t, p))),
      y := h.y.(chunks := h.y.chunks - {Next(h.t, p)}))
  }

  /** A chunk in use takes in the whole chunk behind it, in use or in hand. */
  lemma MergeUsedOk(h: Heap, loose: set<int>, p: int)
    requires HeapOk(h, loose) && Has(h, p).Used? && Next(h.t, p) != h.y.top
    requires Has(h, Next(h.t, p)).Free? <==> Next(h.t, p) in loose
    ensures var n := Next(h.t, p);
      var h', size := UsedMerged(h, p), ChunkSize(h.t, p) + ChunkSize(h.t, n);
      && n > p && HeapOk(h', loose - {n}) && Has(h', p) == Used(size) && Has(h', n) == Nothing
      && forall a :: a != p && a != n ==> Has(h', a) == Has(h, a)
  {
    assert Tiles(h.t, h.y, p) && Tiles(h.t, h.y, Next(h.t, p));
    WritesMerge(h.t, p);
    MergeUsed(h, loose, UsedMerged(h, p).t, p);
    hide HeapOk, Has, SetInuse;
  }

  /** The chunk behind is free and in hand; what is not needed of it becomes a chunk in use again. */
  ghost function UsedGrown(h: Heap, p: int, nb: nat): Heap
    requires nb <= ChunkSize(h.t, p) + ChunkSize(h.t, Next(h.t, p))
  {
    var n := Next(h.t, p);
    h.(t := SetInuse(SetInuse(h.t, p, nb), p + nb, ChunkSize(h.t, p) + ChunkSize(h.t, n) - nb),
      y := h.y.(chunks := h.y.chunks - {n} + {p + nb}))
  }

  lemma GrowUsedOk(h: Heap, p: int, nb: nat)
    requires HeapOk(h, {Next(h.t, p)}) && Has(h, p).Used? && nb % 16 == 0 && nb >= MIN_CHUNK_SIZE
    requires nb + MIN_CHUNK_SIZE <= ChunkSize(h.t, p) + ChunkSize(h.t, Next(h.t, p))
    ensures var h', rest := UsedGrown(h, p, nb), ChunkSize(h.t, p) + ChunkSize(h.t, Next(h.t, p)) - nb;
      && HeapOk(h', {}) && Has(h', p + nb) == Used(rest)
      && forall a :: InUse(h', a) == if a == p then nb else if a == p + nb then rest else InUse(h, a)
    ensures InUse(h, p + nb) == 0
  {
    hide HeapOk, Has, TagsOk, SetInuse, SplitUsed;
    var n := Next(h.t, p);
    var h1 := UsedMerged(h, p);
    LooseReady(h, {n}, n);
    UsedSize(h, {n}, p);
    MergeUsedOk(h, {n}, p);
    assert {n} - {n} == {};
    WritesMergeSplit(h.t, p, nb);
    UsedSize(h1, {}, p);
    assert ChunkSize(h1.t, p) == ChunkSize(h.t, p) + ChunkSize(h.t, n);
    SplitUsedChunk(h1, {}, UsedGrown(h, p, nb).t, p, nb);
    assert h.y.chunks - {n} + {p + nb} == h1.y.chunks + {p + nb};
    InsideIsNothing(h1, p, p + nb);
  }

  lemma UsedSize(h: Heap, loose: set<int>, p: int)
    requires HeapOk(h, loose) && Has(h, p).Used?
    ensures TagsOk(h.t, h.y) && p in h.y.chunks && p != h.y.top && HeadOf(h.t, p).cinuse
    ensures Has(h, p) == Used(ChunkSize(h.t, p)) && ChunkSize(h.t, p) >= MIN_CHUNK_SIZE
  {
    assert Tiles(h.t, h.y, p);
  }

  /** A chunk in use takes all of the victim behind it. */
  lemma MergeVictimOk(h: Heap, p: int)
    requires HeapOk(h, {}) && Has(h, p).Used? && Next(h.t, p) == h.dv && h.dv != h.y.top
    ensures var h' := UsedMerged(h, p).(dv := 0, dvsize := 0);
      HeapOk(h', {}) && Resized(h, h', p, ChunkSize(h.t, p) + h.dvsize)
  {
    UsedIsNotVictim(h, {}, p);
    FreeInsideNext(h, p);
    DropVictimAlone(h);
    VictimIsFree(h, {});
    var h1 := h.(dv := 0, dvsize := 0);
    BookkeepingOnly(h, h1);
    MergeUsedOk(h1, {h.dv}, p);
    assert {h.dv} - {h.dv} == {};
    assert UsedMerged(h1, p) == UsedMerged(h, p).(dv := 0, dvsize := 0);
    hide HeapOk, Has, UsedMerged;
  }

  lemma FreeInsideNext(h: Heap, p: int)
    requires HeapOk(h, {}) && Has(h, p).Used?
    ensures Next(h.t, p) > 0 && Next(h.t, p) in h.y.chunks
  {
    assert Tiles(h.t, h.y, p);
  }

  /** A chunk in use takes the low end of the victim behind it. */
  ghost function VictimShrunk(h: Heap, p: int, nb: nat): Heap
    requires nb <= ChunkSize(h.t, p) + h.dvsize
  {
    var r, dsize := p + nb, ChunkSize(h.t, p) + h.dvsize - nb;
    Heap(
      WithPinuse(SetFreeChunk(SetInuse(h.t, p, nb), r, dsize), r + dsize, false),
      h.y.(chunks := h.y.chunks - {h.dv} + {r}), r, dsize, h.sz)
  }

  lemma ShrinkVictimOk(h: Heap, p: int, nb: nat)
    requires HeapOk(h, {}) && Has(h, p).Used? && Next(h.t, p) == h.dv && h.dv != h.y.top && nb % 16 == 0
    requires ChunkSize(h.t, p) < nb && nb + MIN_CHUNK_SIZE <= ChunkSize(h.t, p) + h.dvsize
    ensures HeapOk(VictimShrunk(h, p, nb), {}) && Resized(h, VictimShrunk(h, p, nb), p, nb)
  {
    hide HeapOk, Has, Region, Tiles, TagsOk, WithPinuse, SetFreeChunk, SetInuse, HeadOf, GrownFree;
    VictimBehind(h, p);
    VictimIsFree(h, {});
    DropVictimAlone(h);
    var h', h1 := VictimShrunk(h, p, nb), h.(dv := 0, dvsize := 0);
    BookkeepingOnly(h, h1);
    WritesGrowFree(h.t, p, nb);
    InsideIsNothing(h, h.dv, p + nb);
    GrowIntoFree(h1, {h.dv}, h'.t, p, nb);
    assert {h.dv} - {h.dv} + {p + nb} == {p + nb};
    SetAsVictim(h'.(dv := 0, dvsize := 0), p + nb);
    assert h' == h'.(dv := 0, dvsize := 0).(dv := p + nb, dvsize := ChunkSize(h.t, p) + h.dvsize - nb);
  }

  /** The victim right behind a chunk in use, and the chunk behind the victim. */
  lemma VictimBehind(h: Heap, p: int)
    requires HeapOk(h, {}) && Has(h, p).Used? && Next(h.t, p) == h.dv && h.dv != h.y.top
    ensures h.dv != 0 && h.dv in h.y.chunks && ChunkSize(h.t, h.dv) == h.dvsize && TagsOk(h.t, h.y)
    ensures HeadOf(h.t, p).cinuse && 0 < ChunkSize(h.t, p) && HeadOf(h.t, h.dv).pinuse
    ensures !HeadOf(h.t, Next(h.t, h.dv)).pinuse
  {
    FreeInsideNext(h, p);
    VictimIsFree(h, {});
    RegionOk(h, {}, p);
    assert Tiles(h.t, h.y, p);
  }

  /** How far the chunk in use at `p` can grow where it is; a byte of top always remains. */
  ghost function Room(h: Heap, p: int): int {
    var e := JoinEnd(h.t, h.y, p);
    e - p + if e == h.y.top then h.y.topsize - 16 else 0
  }

  /** A chunk was taken, and its first `lead` bytes were given back. */
  lemma LeaderGiven(h: Heap, h1: Heap, h2: Heap, h3: Heap, p: int, lead: nat, rest: nat, whole: nat)
    requires Gained(h, h1, p, whole) && CutInTwo(h1, h2, p, lead, rest) && Freed(h2, h3, p) && lead > 0
    ensures Gained(h, h3, p + lead, rest)
  {
  }

  lemma GainedResized(h: Heap, h1: Heap, h2: Heap, p: int, n: nat, m: nat)
    requires Gained(h, h1, p, n) && Resized(h1, h2, p, m)
    ensures Gained(h, h2, p, m)
  {
  }
}
