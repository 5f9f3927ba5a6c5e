/**
 Coalescing leaves no choice: the chunks in use and the base determine every chunk boundary, which
 chunks are free, and where top is. Where top ends depends on what was trimmed: see `TrimOrder`.
 */
module CanonicalLayout {
  import opened BoundaryTags
  import opened HeapView

  /** The two heaps agree on everything from `p` on. */
  ghost predicate AgreeFrom(h: Heap, h': Heap, p: int) {
    && h.y.top == h'.y.top
    && (forall a :: a >= p ==> (a in h.y.chunks <==> a in h'.y.chunks))
    && (forall a :: a >= p ==> Has(h, a) == Has(h', a))
  }

  /** All chunks and top are at the same places, with the same sizes except that of top. */
  ghost predicate SameLayout(h: Heap, h': Heap) {
    h.y.(topsize := 0) == h'.y.(topsize := 0) && forall a :: Has(h, a) == Has(h', a)
  }

  /** Both segments end at the same place. */
  ghost predicate SameEnd(h: Heap, h': Heap) {
    h.y.top + h.y.topsize == h'.y.top + h'.y.topsize
  }

  /** A chunk is in use, or free and followed by one in use, or top with nothing in use behind it. */
  lemma ChunkShape(h: Heap, p: int)
    requires TagsOk(h.t, h.y) && p in h.y.chunks
    ensures p == h.y.top ==> forall a :: a >= p ==> InUse(h, a) == 0 && Has(h, a) == Nothing
    ensures p == h.y.top ==> forall a :: a > p ==> a !in h.y.chunks
    ensures p != h.y.top ==>
      && p < Next(h.t, p) <= h.y.top && Next(h.t, p) in h.y.chunks
      && (forall a :: p < a < Next(h.t, p) ==> InUse(h, a) == 0 && Has(h, a) == Nothing && a !in h.y.chunks)
      && (InUse(h, p) > 0 ==> Has(h, p) == Used(InUse(h, p)) && Next(h.t, p) == p + InUse(h, p))
      && (InUse(h, p) == 0 ==> Has(h, p) == Free(Next(h.t, p) - p) && InUse(h, Next(h.t, p)) > 0)
  {
    if p != h.y.top {
      assert Tiles(h.t, h.y, p);
      if !HeadOf(h.t, p).cinuse {
        NotBeforeTop(h.t, h.y, p);
        assert Tiles(h.t, h.y, Next(h.t, p));
      }
    }
  }

  lemma {:induction false} SameFrom(h: Heap, h': Heap, p: int)
    requires TagsOk(h.t, h.y) && TagsOk(h'.t, h'.y) && SameUse(h, h') && p in h.y.chunks && p in h'.y.chunks
    ensures AgreeFrom(h, h', p)
    decreases h.y.top - p
  {
    hide TagsOk, Has, InUse, Next;
    ChunkShape(h, p);
    ChunkShape(h', p);
    assert p <= h.y.top && p <= h'.y.top;
    if p != h.y.top && p != h'.y.top {
      assert Next(h.t, p) == Next(h'.t, p);
      SameFrom(h, h', Next(h.t, p));
    }
  }

  /** The layout is a function of what is in use, whatever order the frees came in. */
  lemma LayoutIsCanonical(h: Heap, h': Heap)
    requires TagsOk(h.t, h.y) && TagsOk(h'.t, h'.y) && SameUse(h, h') && h.y.base == h'.y.base
    ensures SameLayout(h, h') && (h.y == h'.y <==> SameEnd(h, h'))
  {
    SameFrom(h, h', h.y.base);
    assert forall a :: a < h.y.base ==> a !in h.y.chunks && a !in h'.y.chunks && Has(h, a) == Has(h', a);
    forall a
      ensures a in h.y.chunks <==> a in h'.y.chunks
    {
      assert a < h.y.base || a >= h.y.base;
    }
    assert h.y.chunks == h'.y.chunks;
  }

  /* -------------------------- freeing in bulk and one by one -------------------------- */

  ghost function Pointers(s: seq<int>): set<int> {
    set x | x in s && x != 0
  }

  predicate DistinctPointers(s: seq<int>) {
    forall i, j :: 0 <= i < j < |s| && s[i] == s[j] ==> s[i] == 0
  }

  /** The pointers in `s` are still to be freed; those in `all` but no longer in `s` are freed. */
  ghost predicate Freeing(h0: Heap, h: Heap, all: set<int>, s: seq<int>) {
    && DistinctPointers(s)
    && (forall i :: 0 <= i < |s| && s[i] != 0 ==> s[i] in all && InUse(h, s[i] - 16) > 0)
    && (forall a :: a + 16 !in all ==> InUse(h, a) == InUse(h0, a))
    && (forall a :: a + 16 in all && a + 16 !in Pointers(s) ==> InUse(h, a) == 0)
  }

  lemma FreeingStarts(h: Heap, s: seq<int>)
    requires DistinctPointers(s) && forall i :: 0 <= i < |s| && s[i] != 0 ==> InUse(h, s[i] - 16) > 0
    ensures Freeing(h, h, Pointers(s), s)
  {
  }

  lemma FreeingSkips(h0: Heap, h: Heap, all: set<int>, s: seq<int>)
    requires Freeing(h0, h, all, s) && s != [] && s[0] == 0
    ensures Freeing(h0, h, all, s[1..])
  {
    hide Has, InUse;
    RestPointers(s);
  }

  lemma RestPointers(s: seq<int>)
    requires s != [] && DistinctPointers(s)
    ensures Pointers(s[1..]) == Pointers(s) - {s[0]} && DistinctPointers(s[1..])
  {
    assert s == [s[0]] + s[1..];
    if s[0] != 0 {
      forall i | 0 <= i < |s[1..]|
        ensures s[1..][i] != s[0]
      {
        assert s[1..][i] == s[i + 1];
      }
    }
  }

  lemma FreeingOne(h0: Heap, h: Heap, h': Heap, all: set<int>, s: seq<int>)
    requires Freeing(h0, h, all, s) && s != [] && s[0] != 0 && Freed(h, h', s[0] - 16)
    ensures Freeing(h0, h', all, s[1..])
  {
    hide InUse;
    RestPointers(s);
  }

  /** Two adjacent chunks, next to each other in the array: the second pointer is dropped. */
  lemma FreeingMerged(h0: Heap, h: Heap, h': Heap, all: set<int>, s: seq<int>, size: nat)
    requires Freeing(h0, h, all, s) && |s| > 1 && s[0] != 0 && s[1] != 0 && size > 0
    requires forall a :: InUse(h', a) == if a == s[0] - 16 then size else if a == s[1] - 16 then 0 else InUse(h, a)
    ensures Freeing(h0, h', all, [s[0]] + s[2..])
  {
    hide InUse, Pointers, DistinctPointers;
    SecondDropped(s);
    var u := [s[0]] + s[2..];
    forall i | 0 <= i < |u| && u[i] != 0
      ensures u[i] in all && InUse(h', u[i] - 16) > 0
    {
      if i > 0 {
        assert u[i] == s[i + 1];
        assert s[i + 1] in all;
      }
    }
  }

  lemma SecondDropped(s: seq<int>)
    requires DistinctPointers(s) && |s| > 1 && s[0] != 0 && s[1] != 0
    ensures var u := [s[0]] + s[2..]; DistinctPointers(u) && Pointers(u) == Pointers(s) - {s[1]}
    ensures s[0] != s[1] && forall i :: 1 < i < |s| ==> s[i] != s[1]
  {
    var u := [s[0]] + s[2..];
    assert forall i :: 0 < i < |u| ==> u[i] == s[i + 1];
    assert s == [s[0], s[1]] + s[2..];
  }

  lemma FreeingEnds(h0: Heap, h: Heap, all: set<int>)
    requires Freeing(h0, h, all, [])
    ensures FreedAll(h0, h, all)
  {
    hide InUse;
    assert Pointers([]) == {};
  }
}
