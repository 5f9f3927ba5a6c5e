/** The macros that write head and foot words, and which transition of the heap each use is. */
module ChunkWrites {
  import opened BoundaryTags

  /** `p->head = s | bits`. */
  function SetHead(t: Tags, p: int, h: Head): Tags {
    t.(head := t.head[p := h])
  }

  function SetFoot(t: Tags, p: int, s: int): Tags {
    t.(foot := t.foot[p + s := s])
  }

  /** `n->head |= PINUSE_BIT` and `n->head &= ~PINUSE_BIT`. */
  function WithPinuse(t: Tags, n: int, b: bool): Tags {
    SetHead(t, n, HeadOf(t, n).(pinuse := b))
  }

  /** `set_inuse`. */
  function SetInuse(t: Tags, p: int, s: nat): Tags {
    WithPinuse(SetHead(t, p, Head(s, true, HeadOf(t, p).pinuse)), p + s, true)
  }

  /** `set_inuse_and_pinuse`. */
  function SetInuseAndPinuse(t: Tags, p: int, s: nat): Tags {
    WithPinuse(SetHead(t, p, Head(s, true, true)), p + s, true)
  }

  /** `set_size_and_pinuse_of_inuse_chunk`. */
  function SetUsedChunk(t: Tags, p: int, s: nat): Tags {
    SetHead(t, p, Head(s, true, true))
  }

  /** `set_size_and_pinuse_of_free_chunk`. */
  function SetFreeChunk(t: Tags, p: int, s: nat): Tags {
    SetFoot(SetHead(t, p, Head(s, false, true)), p, s)
  }

  /** `set_free_with_pinuse`. */
  function SetFreeWithPinuse(t: Tags, p: int, s: nat, n: int): Tags {
    SetFreeChunk(WithPinuse(t, n, false), p, s)
  }

  lemma WritesCarveAll(t: Tags, p: int)
    requires ChunkSize(t, p) > 0
    ensures CarvedAll(t, SetInuseAndPinuse(t, p, ChunkSize(t, p)), p)
  {
  }

  lemma WritesCarveSplit(t: Tags, p: int, nb: nat)
    requires 0 < nb < ChunkSize(t, p)
    ensures CarvedSplit(t, SetFreeChunk(SetUsedChunk(t, p, nb), p + nb, ChunkSize(t, p) - nb), p, nb)
    ensures CarvedSplit(t, SetUsedChunk(SetFreeChunk(t, p + nb, ChunkSize(t, p) - nb), p, nb), p, nb)
  {
  }

  lemma WritesCarveTop(t: Tags, y: Layout, nb: nat)
    requires 0 < nb < y.topsize
    ensures CarvedTop(t, SetUsedChunk(SetHead(t, y.top + nb, Head(y.topsize - nb, false, true)), y.top, nb), y, nb)
  {
  }

  /** A chunk up to `e`, where the P bit is cleared now or was clear before. */
  lemma WritesCoalesce(t: Tags, q: int, e: int)
    requires q < e
    ensures Coalesced(t, SetFreeWithPinuse(t, q, e - q, e), q, e)
    ensures !HeadOf(t, e).pinuse ==> Coalesced(t, SetFreeChunk(t, q, e - q), q, e)
  {
  }

  lemma WritesCoalesceTop(t: Tags, y: Layout, q: int)
    requires q <= y.top
    ensures CoalescedTop(t, SetHead(t, q, Head(y.top + y.topsize - q, false, true)), y, q)
  {
  }

  lemma WritesSplitUsed(t: Tags, p: int, nb: nat)
    requires 0 < nb < ChunkSize(t, p) && HeadOf(t, p).cinuse && HeadOf(t, Next(t, p)).pinuse
    ensures SplitUsed(t, SetInuse(SetInuse(t, p, nb), p + nb, ChunkSize(t, p) - nb), p, nb)
  {
  }

  /** The same two chunks written in the other order, as `internal_memalign` does. */
  lemma WritesSplitUsedBack(t: Tags, p: int, nb: nat)
    requires 0 < nb < ChunkSize(t, p) && HeadOf(t, p).cinuse && HeadOf(t, Next(t, p)).pinuse
    ensures SplitUsed(t, SetInuse(SetInuse(t, p + nb, ChunkSize(t, p) - nb), p, nb), p, nb)
  {
  }

  lemma WritesMerge(t: Tags, p: int)
    requires HeadOf(t, p).cinuse && ChunkSize(t, p) > 0 && ChunkSize(t, Next(t, p)) > 0
    ensures Merged(t, SetInuse(t, p, ChunkSize(t, p) + ChunkSize(t, Next(t, p))), p)
  {
  }

  lemma WritesGrowTop(t: Tags, y: Layout, p: int, nb: nat)
    requires HeadOf(t, p).cinuse && 0 < nb && p + nb <= y.top + y.topsize
    ensures GrownTop(t, SetHead(SetInuse(t, p, nb), p + nb, Head(y.top + y.topsize - (p + nb), false, true)), y, p, nb)
  {
  }

  lemma WritesMoveTop(t: Tags, y: Layout, size: nat)
    requires size > 0
    ensures var t1 := SetHead(t, y.top, Head(size, false, true));
      var t' := SetHead(t1, y.top + size, Head(TOP_FOOT_SIZE, false, false));
      TopMoved(t, t', y, size)
  {
  }

  /** The two chunks made of a chunk in use and the free one behind it, as if merged and split again. */
  lemma WritesMergeSplit(t: Tags, p: int, nb: nat)
    requires HeadOf(t, p).cinuse && 0 < ChunkSize(t, p) && 0 < ChunkSize(t, Next(t, p))
    requires 0 < nb < ChunkSize(t, p) + ChunkSize(t, Next(t, p))
    ensures var size := ChunkSize(t, p) + ChunkSize(t, Next(t, p));
      SplitUsed(SetInuse(t, p, size), SetInuse(SetInuse(t, p, nb), p + nb, size - nb), p, nb)
  {
  }

  /** The victim behind a chunk in use gives up its low end. */
  lemma WritesGrowFree(t: Tags, p: int, nb: nat)
    requires HeadOf(t, p).cinuse && HeadOf(t, Next(t, p)).pinuse
    requires var e := Next(t, Next(t, p)); p + nb < e && 0 < ChunkSize(t, p) < nb && !HeadOf(t, e).pinuse
    ensures var e := Next(t, Next(t, p));
      GrownFree(t, WithPinuse(SetFreeChunk(SetInuse(t, p, nb), p + nb, e - (p + nb)), e, false), p, nb)
  {
  }
}
