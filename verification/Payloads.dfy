/**
 The memory of the chunks. The model keeps each kind of word in a map of its own; here is why that
 loses nothing: no two words that the allocator keeps share an address, and none of them lies in
 the payload of a chunk in use. Payloads of different chunks are disjoint.
 */
module Payloads {
  import opened BoundaryTags
  import opened HeapView

  /** What the user gets of a chunk in use: all but the head, and the foot of the next chunk. */
  ghost predicate InPayload(h: Heap, p: int, a: int) {
    Has(h, p).Used? && p + 16 <= a < p + Has(h, p).size + 8
  }

  /** The word at `a` is kept for chunk `p`: its head, and if it is free, its links and its foot. */
  ghost predicate KeepsWord(h: Heap, p: int, a: int) {
    && p in h.y.chunks
    && (|| a == p + 8
        || (Has(h, p).Free? && (a == p + 16 || a == p + 24 || a == p + Has(h, p).size))
        || (Has(h, p).Free? && Has(h, p).size >= 256 && (a == p + 32 || a == p + 40 || a == p + 48 || a == p + 56)))
  }

  lemma ChunkExtent(h: Heap, p: int, q: int)
    requires TagsOk(h.t, h.y) && p in h.y.chunks && q in h.y.chunks && p < q
    ensures Has(h, p).Used? || Has(h, p).Free?
    ensures Has(h, p).size >= MIN_CHUNK_SIZE && p + Has(h, p).size <= q
    ensures Has(h, p).Free? ==> q == p + Has(h, p).size ==> Has(h, q).Used?
  {
    assert Tiles(h.t, h.y, p);
    if !HeadOf(h.t, p).cinuse {
      NotBeforeTop(h.t, h.y, p);
    }
  }

  /** What different allocations hand out does not overlap. */
  lemma PayloadsDisjoint(h: Heap, p: int, q: int, a: int)
    requires TagsOk(h.t, h.y) && InPayload(h, p, a) && InPayload(h, q, a)
    ensures p == q
  {
    if p < q {
      ChunkExtent(h, p, q);
    } else if q < p {
      ChunkExtent(h, q, p);
    }
  }

  /** No word of the allocator, eight bytes long, reaches into a payload. */
  lemma PayloadUntouched(h: Heap, p: int, q: int, w: int, a: int)
    requires TagsOk(h.t, h.y) && KeepsWord(h, p, w) && InPayload(h, q, a)
    ensures !(w <= a < w + 8)
  {
    hide TagsOk, Has;
    UsedInChunks(h, q);
    FreeExtent(h, p);
    if p < q {
      ChunkExtent(h, p, q);
    } else if q < p {
      ChunkExtent(h, q, p);
    }
  }

  lemma FreeExtent(h: Heap, p: int)
    requires TagsOk(h.t, h.y) && p in h.y.chunks
    ensures Has(h, p).Free? ==> Has(h, p).size >= MIN_CHUNK_SIZE
  {
    if Has(h, p).Free? {
      assert Tiles(h.t, h.y, p);
    }
  }

  lemma UsedInChunks(h: Heap, q: int)
    requires Has(h, q).Used?
    ensures q in h.y.chunks
  {
  }

  /** The words of different chunks are different words. */
  lemma WordsApart(h: Heap, p: int, q: int, w: int)
    requires TagsOk(h.t, h.y) && KeepsWord(h, p, w) && KeepsWord(h, q, w)
    ensures p == q
  {
    hide TagsOk, Has;
    if p < q {
      ChunkExtent(h, p, q);
    } else if q < p {
      ChunkExtent(h, q, p);
    }
  }
}
