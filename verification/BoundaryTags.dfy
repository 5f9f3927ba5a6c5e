/**
 The boundary tags of the heap: head and foot words, the chunks they cut the segment into, and
 every way in which an operation changes them.

 A head word is held decoded, as `Head`; module HeadWord justifies that. `Layout` names the
 chunk starts, the ends of the segment and the top chunk. Each transition states the words after
 it point by point, so that it covers a write of a value that was already there.
 */
module BoundaryTags {
  const MIN_CHUNK_SIZE: nat := 32
  const TOP_FOOT_SIZE: nat := 80

  datatype Head = Head(size: nat, cinuse: bool, pinuse: bool)

  datatype Tags = Tags(head: map<int, Head>, foot: map<int, int>)

  datatype Layout = Layout(chunks: set<int>, base: int, top: int, topsize: nat)

  function HeadOf(t: Tags, p: int): Head {
    if p in t.head then t.head[p] else Head(0, false, false)
  }

  function FootOf(t: Tags, p: int): int {
    if p in t.foot then t.foot[p] else 0
  }

  function ChunkSize(t: Tags, p: int): nat {
    HeadOf(t, p).size
  }

  function Next(t: Tags, p: int): int {
    p + ChunkSize(t, p)
  }

  predicate Aligned(x: int) {
    x % 16 == 0
  }

  /** Chunk starts lie between base and top, and are aligned. */
  ghost predicate Placed(y: Layout) {
    && y.base > 0 && Aligned(y.base) && y.base in y.chunks && y.top in y.chunks
    && (forall p :: p in y.chunks ==> y.base <= p <= y.top && Aligned(p))
  }

  /** Chunk `p` below top ends where the next chunk starts; no chunk starts inside it. */
  ghost predicate Tiles(t: Tags, y: Layout, p: int) {
    && ChunkSize(t, p) >= MIN_CHUNK_SIZE && Aligned(ChunkSize(t, p))
    && Next(t, p) in y.chunks
    && (forall q :: q in y.chunks && q > p ==> q >= Next(t, p))
  }

  /** The P bit of the next chunk, the foot, and: a free chunk's predecessor is in use. */
  ghost predicate Tagged(t: Tags, p: int) {
    && (HeadOf(t, Next(t, p)).pinuse <==> HeadOf(t, p).cinuse)
    && (!HeadOf(t, p).cinuse ==> HeadOf(t, p).pinuse && FootOf(t, Next(t, p)) == ChunkSize(t, p))
  }

  ghost predicate TopOk(t: Tags, y: Layout) {
    && y.topsize > 0 && Aligned(y.topsize)
    && HeadOf(t, y.top) == Head(y.topsize, false, true)
    && HeadOf(t, y.top + y.topsize) == Head(TOP_FOOT_SIZE, false, false)
  }

  ghost predicate TagsOk(t: Tags, y: Layout) {
    && Placed(y)
    && (forall p {:trigger Tiles(t, y, p)} :: p in y.chunks && p != y.top ==> Tiles(t, y, p))
    && (forall p {:trigger Tagged(t, p)} :: p in y.chunks && p != y.top ==> Tagged(t, p))
    && TopOk(t, y)
    && HeadOf(t, y.base).pinuse
  }

  /** What starts at an address: a chunk in use, a free chunk, or nothing; top is neither. */
  datatype Chunk = Nothing | Used(size: nat) | Free(size: nat)

  ghost function At(t: Tags, y: Layout, p: int): Chunk {
    if p !in y.chunks || p == y.top then Nothing
    else if HeadOf(t, p).cinuse then Used(ChunkSize(t, p))
    else Free(ChunkSize(t, p))
  }

  /* ------------------------------ taking a free chunk ------------------------------ */

  /** `set_inuse_and_pinuse` on all of a free chunk. */
  ghost predicate CarvedAll(t: Tags, t': Tags, p: int) {
    && (forall a ::
          HeadOf(t', a) ==
          if a == p then Head(ChunkSize(t, p), true, true)
          else if a == Next(t, p) then HeadOf(t, a).(pinuse := true)
          else HeadOf(t, a))
    && (forall a :: FootOf(t', a) == FootOf(t, a))
  }

  lemma CarveAll(t: Tags, t': Tags, y: Layout, p: int)
    requires TagsOk(t, y) && At(t, y, p).Free? && CarvedAll(t, t', p)
    ensures TagsOk(t', y)
    ensures forall q :: At(t', y, q) == if q == p then Used(ChunkSize(t, p)) else At(t, y, q)
  {
    hide HeadOf, FootOf, Aligned;
    forall q | q in y.chunks && q != y.top
      ensures Tiles(t', y, q) && Tagged(t', q)
      ensures At(t', y, q) == if q == p then Used(ChunkSize(t, p)) else At(t, y, q)
    {
      CarveAllAt(t, t', y, p, q);
    }
    NotBeforeTop(t, y, p);
  }

  lemma CarveAllAt(t: Tags, t': Tags, y: Layout, p: int, q: int)
    requires TagsOk(t, y) && At(t, y, p).Free? && CarvedAll(t, t', p)
    requires q in y.chunks && q != y.top
    ensures Tiles(t', y, q) && Tagged(t', q)
    ensures At(t', y, q) == if q == p then Used(ChunkSize(t, p)) else At(t, y, q)
  {
    hide HeadOf, FootOf, Aligned;
    assert Tiles(t, y, p) && Tagged(t, p);
    assert Tiles(t, y, q) && Tagged(t, q);
    NotBeforeTop(t, y, p);
    if q != p {
      NextsDiffer(t, y, p, q);
    }
  }

  /** A free chunk is followed by a chunk in use, so not by top. */
  lemma NotBeforeTop(t: Tags, y: Layout, p: int)
    requires TagsOk(t, y) && At(t, y, p).Free?
    ensures Next(t, p) in y.chunks && Next(t, p) < y.top && HeadOf(t, Next(t, p)).cinuse
    ensures p < Next(t, p)
  {
    assert Tiles(t, y, p) && Tagged(t, p);
    var n := Next(t, p);
    assert n != y.top;
    assert Tagged(t, n);
  }

  lemma NextsDiffer(t: Tags, y: Layout, p: int, q: int)
    requires TagsOk(t, y) && p in y.chunks && q in y.chunks && p != y.top && q != y.top && p != q
    ensures Next(t, p) != Next(t, q)
    ensures p < q ==> Next(t, p) <= q
    ensures q < p ==> Next(t, q) <= p
  {
    assert Tiles(t, y, p) && Tiles(t, y, q);
  }

  /** `set_size_and_pinuse_of_inuse_chunk(p, nb); set_size_and_pinuse_of_free_chunk(r, rsize)`. */
  ghost predicate CarvedSplit(t: Tags, t': Tags, p: int, nb: nat) {
    && nb <= ChunkSize(t, p)
    && (forall a ::
          HeadOf(t', a) ==
          if a == p then Head(nb, true, true)
          else if a == p + nb then Head(ChunkSize(t, p) - nb, false, true)
          else HeadOf(t, a))
    && (forall a :: FootOf(t', a) == if a == Next(t, p) then ChunkSize(t, p) - nb else FootOf(t, a))
  }

  lemma CarveSplit(t: Tags, t': Tags, y: Layout, p: int, nb: nat)
    requires TagsOk(t, y) && At(t, y, p).Free? && CarvedSplit(t, t', p, nb)
    requires MIN_CHUNK_SIZE <= nb && nb + MIN_CHUNK_SIZE <= ChunkSize(t, p) && Aligned(nb)
    ensures var y' := y.(chunks := y.chunks + {p + nb});
      && TagsOk(t', y')
      && forall q ::
        At(t', y', q) ==
        if q == p then Used(nb) else if q == p + nb then Free(ChunkSize(t, p) - nb) else At(t, y, q)
  {
    CarveSplitOk(t, t', y, p, nb);
    assert Tiles(t, y, p);
    assert p + nb !in y.chunks;
    hide HeadOf, FootOf, Aligned, Tiles, Tagged;
    forall q
      ensures At(t', y.(chunks := y.chunks + {p + nb}), q) ==
        if q == p then Used(nb) else if q == p + nb then Free(ChunkSize(t, p) - nb) else At(t, y, q)
    {
    }
    hide TagsOk, At;
  }

  lemma CarveSplitOk(t: Tags, t': Tags, y: Layout, p: int, nb: nat)
    requires TagsOk(t, y) && At(t, y, p).Free? && CarvedSplit(t, t', p, nb)
    requires MIN_CHUNK_SIZE <= nb && nb + MIN_CHUNK_SIZE <= ChunkSize(t, p) && Aligned(nb)
    ensures TagsOk(t', y.(chunks := y.chunks + {p + nb}))
  {
    hide HeadOf, FootOf, Aligned;
    var y' := y.(chunks := y.chunks + {p + nb});
    AlignedSum(p, nb);
    assert Tiles(t, y, p);
    NotBeforeTop(t, y, p);
    assert Placed(y') && TopOk(t', y') && HeadOf(t', y.base).pinuse;
    forall q | q in y'.chunks && q != y'.top
      ensures Tiles(t', y', q) && Tagged(t', q)
    {
      CarveSplitAt(t, t', y, p, nb, q);
    }
    hide Placed, TopOk, Tiles, Tagged;
  }

  lemma AlignedSum(a: int, b: int)
    requires Aligned(a) && Aligned(b)
    ensures Aligned(a + b) && Aligned(a - b)
  {
  }

  lemma CarveSplitAt(t: Tags, t': Tags, y: Layout, p: int, nb: nat, q: int)
    requires TagsOk(t, y) && At(t, y, p).Free? && CarvedSplit(t, t', p, nb)
    requires MIN_CHUNK_SIZE <= nb && nb + MIN_CHUNK_SIZE <= ChunkSize(t, p) && Aligned(nb)
    requires q in y.chunks + {p + nb} && q != y.top
    ensures Tiles(t', y.(chunks := y.chunks + {p + nb}), q) && Tagged(t', q)
  {
    hide HeadOf, FootOf, Aligned;
    assert Tiles(t, y, p) && Tagged(t, p);
    AlignedSum(ChunkSize(t, p), nb);
    NotBeforeTop(t, y, p);
    if q != p && q != p + nb {
      assert Tiles(t, y, q) && Tagged(t, q);
      NextsDiffer(t, y, p, q);
    }
  }

  /** Splitting top: `r = top + nb` becomes top, the old top a chunk in use. */
  ghost predicate CarvedTop(t: Tags, t': Tags, y: Layout, nb: nat) {
    && nb <= y.topsize
    && (forall a ::
          HeadOf(t', a) ==
          if a == y.top then Head(nb, true, true)
          else if a == y.top + nb then Head(y.topsize - nb, false, true)
          else HeadOf(t, a))
    && (forall a :: FootOf(t', a) == FootOf(t, a))
  }

  function TopCarved(y: Layout, nb: nat): Layout
    requires nb <= y.topsize
  {
    Layout(y.chunks + {y.top + nb}, y.base, y.top + nb, y.topsize - nb)
  }

  lemma CarveTop(t: Tags, t': Tags, y: Layout, nb: nat)
    requires TagsOk(t, y) && CarvedTop(t, t', y, nb)
    requires MIN_CHUNK_SIZE <= nb < y.topsize && Aligned(nb)
    ensures TagsOk(t', TopCarved(y, nb))
    ensures forall q :: At(t', TopCarved(y, nb), q) == if q == y.top then Used(nb) else At(t, y, q)
  {
    hide HeadOf, FootOf, Aligned, Tiles, Tagged, TopOk;
    CarveTopOk(t, t', y, nb);
    assert y.top + nb !in y.chunks;
  }

  lemma CarveTopOk(t: Tags, t': Tags, y: Layout, nb: nat)
    requires TagsOk(t, y) && CarvedTop(t, t', y, nb)
    requires MIN_CHUNK_SIZE <= nb < y.topsize && Aligned(nb)
    ensures TagsOk(t', TopCarved(y, nb))
  {
    hide HeadOf, FootOf, Aligned, Tiles, Tagged;
    var y' := TopCarved(y, nb);
    AlignedSum(y.top, nb);
    AlignedSum(y.topsize, nb);
    forall q | q in y'.chunks && q != y'.top
      ensures Tiles(t', y', q) && Tagged(t', q)
    {
      CarveTopAt(t, t', y, nb, q);
    }
  }

  lemma CarveTopAt(t: Tags, t': Tags, y: Layout, nb: nat, q: int)
    requires TagsOk(t, y) && CarvedTop(t, t', y, nb)
    requires MIN_CHUNK_SIZE <= nb < y.topsize && Aligned(nb)
    requires q in y.chunks
    ensures Tiles(t', TopCarved(y, nb), q) && Tagged(t', q)
  {
    hide HeadOf, FootOf, Aligned;
    if q != y.top {
      assert Tiles(t, y, q) && Tagged(t, q);
    }
  }

  /* --------------------------------- freeing a chunk --------------------------------- */

  /** One free chunk from `q` up to `e`: its head and foot, and the P bit behind it. */
  ghost predicate Coalesced(t: Tags, t': Tags, q: int, e: int) {
    && q < e
    && (forall a ::
          HeadOf(t', a) ==
          if a == q then Head(e - q, false, true)
          else if a == e then HeadOf(t, a).(pinuse := false)
          else HeadOf(t, a))
    && (forall a :: FootOf(t', a) == if a == e then e - q else FootOf(t, a))
  }

  ghost function Joined(y: Layout, q: int, e: int): Layout {
    y.(chunks := (set x | x in y.chunks && !(q < x < e)))
  }

  lemma Coalesce(t: Tags, t': Tags, y: Layout, q: int, e: int)
    requires TagsOk(t, y) && Coalesced(t, t', q, e)
    requires q in y.chunks && e in y.chunks && e != y.top
    requires HeadOf(t, q).pinuse && HeadOf(t, e).cinuse
    ensures TagsOk(t', Joined(y, q, e))
    ensures forall x ::
      At(t', Joined(y, q, e), x) ==
      if x == q then Free(e - q) else if q < x < e then Nothing else At(t, y, x)
  {
    hide HeadOf, FootOf, Aligned;
    hide Placed, TopOk, Tiles, Tagged, Coalesced, At;
    var y' := Joined(y, q, e);
    CoalesceEnds(t, t', y, q, e);
    forall x | x in y'.chunks && x != y'.top
      ensures Tiles(t', y', x) && Tagged(t', x)
    {
      CoalesceAt(t, t', y, q, e, x);
    }
    forall x
      ensures At(t', y', x) == if x == q then Free(e - q) else if q < x < e then Nothing else At(t, y, x)
    {
      CoalesceView(t, t', y, q, e, x);
    }
  }

  /** The ends of the segment after the merge. */
  lemma CoalesceEnds(t: Tags, t': Tags, y: Layout, q: int, e: int)
    requires TagsOk(t, y) && Coalesced(t, t', q, e) && q in y.chunks && e in y.chunks && e != y.top
    ensures Placed(Joined(y, q, e)) && TopOk(t', Joined(y, q, e)) && HeadOf(t', y.base).pinuse
    ensures q < e < y.top
  {
    hide HeadOf, FootOf, Aligned;
    assert HeadOf(t', y.top) == HeadOf(t, y.top);
    assert HeadOf(t', y.top + y.topsize) == HeadOf(t, y.top + y.topsize);
  }

  lemma CoalesceView(t: Tags, t': Tags, y: Layout, q: int, e: int, x: int)
    requires Coalesced(t, t', q, e) && q in y.chunks && q < e < y.top
    ensures At(t', Joined(y, q, e), x) ==
      if x == q then Free(e - q) else if q < x < e then Nothing else At(t, y, x)
  {
    hide HeadOf, FootOf;
  }

  lemma CoalesceAt(t: Tags, t': Tags, y: Layout, q: int, e: int, x: int)
    requires TagsOk(t, y) && Coalesced(t, t', q, e)
    requires q in y.chunks && e in y.chunks && e != y.top
    requires HeadOf(t, q).pinuse && HeadOf(t, e).cinuse
    requires x in y.chunks && !(q < x < e) && x != y.top
    ensures Tiles(t', Joined(y, q, e), x) && Tagged(t', x)
  {
    hide HeadOf, FootOf, Aligned;
    assert Aligned(e) && Aligned(q);
    AlignedSum(e, q);
    assert Tiles(t, y, x) && Tagged(t, x);
    assert Tiles(t, y, q) && Tiles(t, y, e);
  }

  /** Top grows downward to `q`. */
  ghost predicate CoalescedTop(t: Tags, t': Tags, y: Layout, q: int) {
    && q <= y.top
    && (forall a :: HeadOf(t', a) == if a == q then Head(y.top + y.topsize - q, false, true) else HeadOf(t, a))
    && (forall a :: FootOf(t', a) == FootOf(t, a))
  }

  ghost function TopFrom(y: Layout, q: int): Layout
    requires q <= y.top
  {
    Layout((set x | x in y.chunks && x <= q), y.base, q, y.top + y.topsize - q)
  }

  lemma CoalesceTop(t: Tags, t': Tags, y: Layout, q: int)
    requires TagsOk(t, y) && q <= y.top && CoalescedTop(t, t', y, q) && q in y.chunks && HeadOf(t, q).pinuse
    ensures TagsOk(t', TopFrom(y, q))
    ensures forall x :: At(t', TopFrom(y, q), x) == if x >= q then Nothing else At(t, y, x)
  {
    hide HeadOf, FootOf, Aligned, Placed, TopOk, Tiles, Tagged, CoalescedTop, At;
    var y' := TopFrom(y, q);
    CoalesceTopEnds(t, t', y, q);
    forall x | x in y'.chunks && x != y'.top
      ensures Tiles(t', y', x) && Tagged(t', x)
    {
      CoalesceTopAt(t, t', y, q, x);
    }
    forall x
      ensures At(t', y', x) == if x >= q then Nothing else At(t, y, x)
    {
      CoalesceTopView(t, t', y, q, x);
    }
  }

  lemma CoalesceTopEnds(t: Tags, t': Tags, y: Layout, q: int)
    requires TagsOk(t, y) && q <= y.top && CoalescedTop(t, t', y, q) && q in y.chunks && HeadOf(t, q).pinuse
    ensures Placed(TopFrom(y, q)) && TopOk(t', TopFrom(y, q)) && HeadOf(t', y.base).pinuse
  {
    hide HeadOf, FootOf, Aligned;
    AlignedSum(y.top, q);
    AlignedSum(y.top, y.topsize);
    AlignedSum(y.top + y.topsize, q);
    assert HeadOf(t', y.top + y.topsize) == HeadOf(t, y.top + y.topsize);
  }

  lemma CoalesceTopAt(t: Tags, t': Tags, y: Layout, q: int, x: int)
    requires TagsOk(t, y) && q <= y.top && CoalescedTop(t, t', y, q) && q in y.chunks && HeadOf(t, q).pinuse
    requires x in y.chunks && x < q
    ensures Tiles(t', TopFrom(y, q), x) && Tagged(t', x)
  {
    hide HeadOf, FootOf, Aligned;
    assert Tiles(t, y, x) && Tagged(t, x);
  }

  lemma CoalesceTopView(t: Tags, t': Tags, y: Layout, q: int, x: int)
    requires TagsOk(t, y) && q <= y.top && CoalescedTop(t, t', y, q) && q in y.chunks
    ensures At(t', TopFrom(y, q), x) == if x >= q then Nothing else At(t, y, x)
  {
    hide HeadOf, FootOf;
    assert x in y.chunks ==> y.base <= x <= y.top;
  }

  /** Every chunk but the first follows another one. */
  lemma {:induction false} PredecessorFrom(t: Tags, y: Layout, p: int, from: int) returns (q: int)
    requires TagsOk(t, y) && p in y.chunks && from in y.chunks && from < p
    ensures q in y.chunks && q != y.top && Next(t, q) == p
    decreases p - from
  {
    assert Tiles(t, y, from);
    if Next(t, from) == p {
      q := from;
    } else {
      q := PredecessorFrom(t, y, p, Next(t, from));
    }
  }

  /** A clear P bit means that the foot names the free chunk before. */
  lemma FreeBefore(t: Tags, y: Layout, p: int)
    requires TagsOk(t, y) && p in y.chunks && !HeadOf(t, p).pinuse
    ensures var q := p - FootOf(t, p);
      && q < p && At(t, y, q) == Free(FootOf(t, p)) && Next(t, q) == p && HeadOf(t, q).pinuse
  {
    var q := PredecessorFrom(t, y, p, y.base);
    assert Tiles(t, y, q) && Tagged(t, q);
  }

  /* ------------------------------ resizing a chunk in use ------------------------------ */

  /** `set_inuse(p, nb); set_inuse(r, rsize)`: a chunk in use becomes two. */
  ghost predicate SplitUsed(t: Tags, t': Tags, p: int, nb: nat) {
    && nb <= ChunkSize(t, p)
    && (forall a ::
          HeadOf(t', a) ==
          if a == p then HeadOf(t, p).(size := nb)
          else if a == p + nb then Head(ChunkSize(t, p) - nb, true, true)
          else HeadOf(t, a))
    && (forall a :: FootOf(t', a) == FootOf(t, a))
  }

  lemma SplitInUse(t: Tags, t': Tags, y: Layout, p: int, nb: nat)
    requires TagsOk(t, y) && At(t, y, p).Used? && SplitUsed(t, t', p, nb)
    requires MIN_CHUNK_SIZE <= nb && nb + MIN_CHUNK_SIZE <= ChunkSize(t, p) && Aligned(nb)
    ensures TagsOk(t', y.(chunks := y.chunks + {p + nb}))
    ensures forall q ::
      At(t', y.(chunks := y.chunks + {p + nb}), q) ==
      if q == p then Used(nb) else if q == p + nb then Used(ChunkSize(t, p) - nb) else At(t, y, q)
  {
    SplitInUseOk(t, t', y, p, nb);
    assert Tiles(t, y, p);
    assert p + nb !in y.chunks;
    hide HeadOf, FootOf, Aligned, Tiles, Tagged;
    forall q
      ensures At(t', y.(chunks := y.chunks + {p + nb}), q) ==
        if q == p then Used(nb) else if q == p + nb then Used(ChunkSize(t, p) - nb) else At(t, y, q)
    {
    }
    hide TagsOk, At;
  }

  lemma SplitInUseOk(t: Tags, t': Tags, y: Layout, p: int, nb: nat)
    requires TagsOk(t, y) && At(t, y, p).Used? && SplitUsed(t, t', p, nb)
    requires MIN_CHUNK_SIZE <= nb && nb + MIN_CHUNK_SIZE <= ChunkSize(t, p) && Aligned(nb)
    ensures TagsOk(t', y.(chunks := y.chunks + {p + nb}))
  {
    hide HeadOf, FootOf, Aligned;
    var y' := y.(chunks := y.chunks + {p + nb});
    AlignedSum(p, nb);
    assert Tiles(t, y, p);
    assert Placed(y') && TopOk(t', y') && HeadOf(t', y.base).pinuse;
    forall q | q in y'.chunks && q != y'.top
      ensures Tiles(t', y', q) && Tagged(t', q)
    {
      SplitInUseAt(t, t', y, p, nb, q);
    }
    hide Placed, TopOk, Tiles, Tagged;
  }

  lemma SplitInUseAt(t: Tags, t': Tags, y: Layout, p: int, nb: nat, q: int)
    requires TagsOk(t, y) && At(t, y, p).Used? && SplitUsed(t, t', p, nb)
    requires MIN_CHUNK_SIZE <= nb && nb + MIN_CHUNK_SIZE <= ChunkSize(t, p) && Aligned(nb)
    requires q in y.chunks + {p + nb} && q != y.top
    ensures Tiles(t', y.(chunks := y.chunks + {p + nb}), q) && Tagged(t', q)
  {
    hide HeadOf, FootOf, Aligned;
    assert Tiles(t, y, p) && Tagged(t, p);
    AlignedSum(ChunkSize(t, p), nb);
    if q != p && q != p + nb {
      assert Tiles(t, y, q) && Tagged(t, q);
      NextsDiffer(t, y, p, q);
    }
  }

  /** `set_inuse(p, newsize)` over the whole next chunk, free or in use. */
  ghost predicate Merged(t: Tags, t': Tags, p: int) {
    var n := Next(t, p);
    && (forall a ::
          HeadOf(t', a) ==
          if a == p then HeadOf(t, p).(size := ChunkSize(t, p) + ChunkSize(t, n))
          else if a == Next(t, n) then HeadOf(t, a).(pinuse := true)
          else HeadOf(t, a))
    && (forall a :: FootOf(t', a) == FootOf(t, a))
  }

  lemma MergeInUse(t: Tags, t': Tags, y: Layout, p: int)
    requires TagsOk(t, y) && At(t, y, p).Used? && Next(t, p) != y.top && Merged(t, t', p)
    ensures TagsOk(t', y.(chunks := y.chunks - {Next(t, p)}))
    ensures forall q ::
      At(t', y.(chunks := y.chunks - {Next(t, p)}), q) ==
      if q == p then Used(ChunkSize(t, p) + ChunkSize(t, Next(t, p)))
      else if q == Next(t, p) then Nothing else At(t, y, q)
  {
    MergeInUseOk(t, t', y, p);
    assert Tiles(t, y, p);
    assert p < Next(t, p) && Tiles(t, y, Next(t, p));
    hide HeadOf, FootOf, Aligned, Tiles, Tagged;
    forall q
      ensures At(t', y.(chunks := y.chunks - {Next(t, p)}), q) ==
        if q == p then Used(ChunkSize(t, p) + ChunkSize(t, Next(t, p)))
        else if q == Next(t, p) then Nothing else At(t, y, q)
    {
    }
    hide TagsOk, At;
  }

  lemma MergeInUseOk(t: Tags, t': Tags, y: Layout, p: int)
    requires TagsOk(t, y) && At(t, y, p).Used? && Next(t, p) != y.top && Merged(t, t', p)
    ensures TagsOk(t', y.(chunks := y.chunks - {Next(t, p)}))
  {
    hide HeadOf, FootOf, Aligned;
    var n := Next(t, p);
    var y' := y.(chunks := y.chunks - {n});
    assert Tiles(t, y, p);
    assert Tiles(t, y, n);
    MergeKeepsTop(t, y, n);
    assert Placed(y') && TopOk(t', y') && HeadOf(t', y.base).pinuse;
    forall q | q in y'.chunks && q != y'.top
      ensures Tiles(t', y', q) && Tagged(t', q)
    {
      MergeInUseAt(t, t', y, p, q);
    }
    hide Placed, TopOk, Tiles, Tagged;
  }

  lemma MergeKeepsTop(t: Tags, y: Layout, n: int)
    requires TagsOk(t, y) && n in y.chunks && n != y.top
    ensures Next(t, n) == y.top ==> HeadOf(t, n).cinuse
    ensures Next(t, n) <= y.top
  {
    assert Tagged(t, n) && Tiles(t, y, n);
  }

  lemma MergeInUseAt(t: Tags, t': Tags, y: Layout, p: int, q: int)
    requires TagsOk(t, y) && At(t, y, p).Used? && Next(t, p) != y.top && Merged(t, t', p)
    requires q in y.chunks && q != Next(t, p) && q != y.top
    ensures Tiles(t', y.(chunks := y.chunks - {Next(t, p)}), q) && Tagged(t', q)
  {
    hide HeadOf, FootOf, Aligned;
    var n := Next(t, p);
    assert Tiles(t, y, p) && Tagged(t, p);
    assert Tiles(t, y, n) && Tagged(t, n);
    AlignedSum(ChunkSize(t, p), ChunkSize(t, n));
    NextFreeOrUsed(t, y, n);
    if q != p {
      assert Tiles(t, y, q) && Tagged(t, q);
      NextsDiffer(t, y, p, q);
      NextsDiffer(t, y, n, q);
    }
  }

  /** What follows a free chunk is in use. */
  lemma NextFreeOrUsed(t: Tags, y: Layout, n: int)
    requires TagsOk(t, y) && n in y.chunks && n != y.top
    ensures HeadOf(t, n).cinuse || (Next(t, n) != y.top && HeadOf(t, Next(t, n)).cinuse)
  {
    if !HeadOf(t, n).cinuse {
      NotBeforeTop(t, y, n);
    }
  }

  /** A chunk in use takes `nb` bytes, the rest of the free chunk behind it stays free. */
  ghost predicate GrownFree(t: Tags, t': Tags, p: int, nb: nat) {
    var n := Next(t, p);
    var e := Next(t, n);
    && p + nb <= e
    && (forall a ::
          HeadOf(t', a) ==
          if a == p then HeadOf(t, p).(size := nb)
          else if a == p + nb then Head(e - (p + nb), false, true)
          else HeadOf(t, a))
    && (forall a :: FootOf(t', a) == if a == e then e - (p + nb) else FootOf(t, a))
  }

  lemma GrowFree(t: Tags, t': Tags, y: Layout, p: int, nb: nat)
    requires TagsOk(t, y) && At(t, y, p).Used? && At(t, y, Next(t, p)).Free? && GrownFree(t, t', p, nb)
    requires ChunkSize(t, p) < nb && p + nb + MIN_CHUNK_SIZE <= Next(t, Next(t, p)) && Aligned(nb)
    ensures TagsOk(t', y.(chunks := y.chunks - {Next(t, p)} + {p + nb}))
    ensures forall q ::
      At(t', y.(chunks := y.chunks - {Next(t, p)} + {p + nb}), q) ==
      if q == p then Used(nb) else if q == p + nb then Free(Next(t, Next(t, p)) - (p + nb))
      else if q == Next(t, p) then Nothing else At(t, y, q)
  {
    GrowFreeOk(t, t', y, p, nb);
    assert Tiles(t, y, p);
    assert Tiles(t, y, Next(t, p));
    assert p + nb !in y.chunks;
    hide HeadOf, FootOf, Aligned, Tiles, Tagged;
    forall q
      ensures At(t', y.(chunks := y.chunks - {Next(t, p)} + {p + nb}), q) ==
        if q == p then Used(nb) else if q == p + nb then Free(Next(t, Next(t, p)) - (p + nb))
        else if q == Next(t, p) then Nothing else At(t, y, q)
    {
    }
    hide TagsOk, At;
  }

  lemma GrowFreeOk(t: Tags, t': Tags, y: Layout, p: int, nb: nat)
    requires TagsOk(t, y) && At(t, y, p).Used? && At(t, y, Next(t, p)).Free? && GrownFree(t, t', p, nb)
    requires ChunkSize(t, p) < nb && p + nb + MIN_CHUNK_SIZE <= Next(t, Next(t, p)) && Aligned(nb)
    ensures TagsOk(t', y.(chunks := y.chunks - {Next(t, p)} + {p + nb}))
  {
    hide HeadOf, FootOf, Aligned;
    var n := Next(t, p);
    var y' := y.(chunks := y.chunks - {n} + {p + nb});
    AlignedSum(p, nb);
    assert Tiles(t, y, p);
    assert Tiles(t, y, n);
    NotBeforeTop(t, y, n);
    assert Placed(y') && TopOk(t', y') && HeadOf(t', y.base).pinuse;
    forall q | q in y'.chunks && q != y'.top
      ensures Tiles(t', y', q) && Tagged(t', q)
    {
      GrowFreeAt(t, t', y, p, nb, q);
    }
    hide Placed, TopOk, Tiles, Tagged;
  }

  lemma GrowFreeAt(t: Tags, t': Tags, y: Layout, p: int, nb: nat, q: int)
    requires TagsOk(t, y) && At(t, y, p).Used? && At(t, y, Next(t, p)).Free? && GrownFree(t, t', p, nb)
    requires ChunkSize(t, p) < nb && p + nb + MIN_CHUNK_SIZE <= Next(t, Next(t, p)) && Aligned(nb)
    requires q in y.chunks - {Next(t, p)} + {p + nb} && q != y.top
    ensures Tiles(t', y.(chunks := y.chunks - {Next(t, p)} + {p + nb}), q) && Tagged(t', q)
  {
    hide HeadOf, FootOf, Aligned;
    var n := Next(t, p);
    assert Tiles(t, y, p) && Tagged(t, p);
    assert Tiles(t, y, n) && Tagged(t, n);
    AlignedSum(p, nb);
    AlignedSum(Next(t, n), p + nb);
    NotBeforeTop(t, y, n);
    if q != p && q != p + nb {
      assert Tiles(t, y, q) && Tagged(t, q);
      NextsDiffer(t, y, p, q);
      NextsDiffer(t, y, n, q);
    }
  }

  /** A chunk in use grows into top, which starts later. */
  ghost predicate GrownTop(t: Tags, t': Tags, y: Layout, p: int, nb: nat) {
    && p + nb <= y.top + y.topsize
    && (forall a ::
          HeadOf(t', a) ==
          if a == p then HeadOf(t, p).(size := nb)
          else if a == p + nb then Head(y.top + y.topsize - (p + nb), false, true)
          else HeadOf(t, a))
    && (forall a :: FootOf(t', a) == FootOf(t, a))
  }

  function TopGrownInto(y: Layout, r: int): Layout
    requires r <= y.top + y.topsize
  {
    Layout(y.chunks - {y.top} + {r}, y.base, r, y.top + y.topsize - r)
  }

  lemma GrowTop(t: Tags, t': Tags, y: Layout, p: int, nb: nat)
    requires TagsOk(t, y) && At(t, y, p).Used? && Next(t, p) == y.top && GrownTop(t, t', y, p, nb)
    requires ChunkSize(t, p) < nb && p + nb < y.top + y.topsize && Aligned(nb)
    ensures TagsOk(t', TopGrownInto(y, p + nb))
    ensures forall q :: At(t', TopGrownInto(y, p + nb), q) == if q == p then Used(nb) else At(t, y, q)
  {
    GrowTopOk(t, t', y, p, nb);
    assert Tiles(t, y, p);
    assert p + nb !in y.chunks;
    hide HeadOf, FootOf, Aligned, Tiles, Tagged;
    forall q
      ensures At(t', TopGrownInto(y, p + nb), q) == if q == p then Used(nb) else At(t, y, q)
    {
    }
    hide TagsOk, At;
  }

  lemma GrowTopOk(t: Tags, t': Tags, y: Layout, p: int, nb: nat)
    requires TagsOk(t, y) && At(t, y, p).Used? && Next(t, p) == y.top && GrownTop(t, t', y, p, nb)
    requires ChunkSize(t, p) < nb && p + nb < y.top + y.topsize && Aligned(nb)
    ensures TagsOk(t', TopGrownInto(y, p + nb))
  {
    hide HeadOf, FootOf, Aligned;
    var y' := TopGrownInto(y, p + nb);
    AlignedSum(p, nb);
    AlignedSum(y.top, y.topsize);
    AlignedSum(y.top + y.topsize, p + nb);
    assert Tiles(t, y, p) && Tagged(t, p);
    assert Placed(y') && TopOk(t', y') && HeadOf(t', y.base).pinuse;
    forall q | q in y'.chunks && q != y'.top
      ensures Tiles(t', y', q) && Tagged(t', q)
    {
      assert Tiles(t, y, q) && Tagged(t, q);
      if q != p {
        NextsDiffer(t, y, p, q);
      }
    }
    hide Placed, TopOk, Tiles, Tagged;
  }

  /* ------------------------------------- top ------------------------------------- */

  /** `init_top` at the place where top is: the segment's end moved by `d`. */
  ghost predicate TopMoved(t: Tags, t': Tags, y: Layout, size: int) {
    && size > 0
    && (forall a ::
          HeadOf(t', a) ==
          if a == y.top + size then Head(TOP_FOOT_SIZE, false, false)
          else if a == y.top then Head(size, false, true)
          else HeadOf(t, a))
    && (forall a :: FootOf(t', a) == FootOf(t, a))
  }

  lemma MoveTop(t: Tags, t': Tags, y: Layout, size: int)
    requires TagsOk(t, y) && size > 0 && Aligned(size) && TopMoved(t, t', y, size)
    ensures TagsOk(t', y.(topsize := size))
    ensures forall q :: At(t', y.(topsize := size), q) == At(t, y, q)
  {
    hide HeadOf, FootOf, Aligned;
    forall q | q in y.chunks && q != y.top
      ensures Tiles(t', y.(topsize := size), q) && Tagged(t', q)
    {
      assert Tiles(t, y, q) && Tagged(t, q);
    }
  }

  /** The first `init_top`, on a fresh segment. */
  lemma InitTop(t: Tags, base: int, size: nat)
    requires base > 0 && Aligned(base) && size > 0 && Aligned(size)
    requires HeadOf(t, base) == Head(size, false, true) && HeadOf(t, base + size) == Head(TOP_FOOT_SIZE, false, false)
    ensures TagsOk(t, Layout({base}, base, base, size))
    ensures forall q :: At(t, Layout({base}, base, base, size), q) == Nothing
  {
  }
}
