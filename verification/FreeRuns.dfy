/** Programs that free many pointers, in some order or in bulk, and what they leave. */
module FreeRuns {
  import opened BoundaryTags
  import opened HeapView
  import opened CanonicalLayout
  import opened TrimOrder
  import opened Dlmalloc

  ghost predicate AllUsed(h: Heap, mems: seq<int>) {
    forall i :: 0 <= i < |mems| && mems[i] != 0 ==> Has(h, mems[i] - 16).Used?
  }

  /** `dlfree`, called on one pointer after the other. */
  method FreeEach(m: MallocState, mems: seq<int>, gives: bool)
    requires m.Valid() && DistinctPointers(mems) && AllUsed(m.View(), mems)
    modifies m
    ensures m.Valid() && m.faults == old(m.faults) && m.segBase == old(m.segBase)
    ensures m.top == 0 <==> old(m.top) == 0
    ensures FreedAll(old(m.View()), m.View(), Pointers(mems))
    ensures m.Limit() == EndAfter(old(m.View()), mems, old(m.Limit()), gives)
  {
    hide MallocState.Valid, Has, Freeing, FreedAll, InUse, Pointers, DistinctPointers, EndAfter, Trimmed, Freed;
    ghost var h, all, e := m.View(), Pointers(mems), m.Limit();
    m.UsedSizes(mems);
    FreeingStarts(h, mems);
    NothingFreed(h, e, gives);
    assert mems[..0] == [] && mems[0..] == mems;
    for i := 0 to |mems|
      invariant m.Valid() && m.faults == old(m.faults) && m.segBase == old(m.segBase)
      invariant m.top == 0 <==> old(m.top) == 0
      invariant Freeing(h, m.View(), all, mems[i..])
      invariant FreedAll(h, m.View(), Pointers(mems[..i])) && m.Limit() == EndAfter(h, mems[..i], e, gives)
    {
      ghost var s := mems[i..];
      assert s[0] == mems[i] && s[1..] == mems[i + 1..] && mems[..i + 1] == mems[..i] + [mems[i]];
      ghost var v, check := m.View(), m.trimCheck;
      if mems[i] == 0 {
        m.DlFree(0, gives);
        FreeingSkips(h, v, all, s);
        NullStepEnd(h, mems[..i], e, gives);
      } else {
        FreeingIsUsed(h, v, all, s, 0);
        FreeOne(m, mems[i], gives);
        FreeingOne(h, v, m.View(), all, s);
        FreeStepEnd(h, mems[..i], v, check, m.View(), m.trimCheck, mems[i], gives, e);
      }
    }
    assert mems[..|mems|] == mems;
  }

  method FreeOne(m: MallocState, mem: int, gives: bool)
    requires m.Valid() && mem != 0 && m.ChunkAt(mem - 16).Used?
    modifies m
    ensures m.Valid() && m.faults == old(m.faults) && m.segBase == old(m.segBase) && old(m.top) != 0 && m.top != 0
    ensures TagsOk(old(m.View()).t, old(m.View()).y) && Freed(old(m.View()), m.View(), mem - 16)
    ensures FreeStep(old(m.View()), old(m.trimCheck), m.View(), m.trimCheck, mem, gives)
    ensures TopEnd(old(m.View()), old(m.trimCheck)) == old(m.Limit())
    ensures TopEnd(m.View(), m.trimCheck) == m.Limit()
  {
    hide Has, Freed, Trimmed, TagsOk, MallocState.Valid, MallocState.InHand;
    m.UsedInHand(mem - 16);
    m.InHandIsValid();
    m.TagsInHand();
    m.DlFree(mem, gives);
    m.TopInHand();
    m.TagsInHand();
  }

  lemma NothingFreed(h: Heap, e: End, gives: bool)
    ensures FreedAll(h, h, Pointers([])) && EndAfter(h, [], e, gives) == e
  {
    NoPointers();
    hide InUse;
  }

  /** Two allocators that differ at most in where top ends, after the same pointers were freed. */
  lemma SameAfter(m: MallocState, m': MallocState, h: Heap, all: set<int>)
    requires m.Valid() && m'.Valid() && m.Base() == m'.Base() && (m.top == 0 <==> m'.top == 0)
    requires FreedAll(h, m.View(), all) && FreedAll(h, m'.View(), all)
    ensures SameLayout(m.View(), m'.View())
    ensures m.View().y == m'.View().y <==> m.Limit().at == m'.Limit().at
  {
    hide HeapOk, TagsOk, InUse, Has;
    if m.top == 0 {
      Empty(m);
      Empty(m');
    } else {
      m.TagsInHand();
      m'.TagsInHand();
      LayoutIsCanonical(m.View(), m'.View());
    }
  }

  lemma Empty(m: MallocState)
    requires m.Valid() && m.top == 0
    ensures m.topsize == 0 && m.chunks == {} && forall a :: Has(m.View(), a) == Nothing
  {
  }

  lemma StartsOf(m: MallocState)
    requires m.Valid() && m.top != 0
    ensures Starts(m.View(), m.Limit()) && TopWithout(m.View(), {}) == m.top
  {
    hide HeapOk, TagsOk, TopWithout, InUse;
    m.TagsInHand();
    TopIs(m.View());
    BaseChunk(m.View());
  }

  lemma NotNull(mems: seq<int>)
    ensures 0 !in Pointers(mems)
  {
  }

  /** The same pointers, freed in two orders on two allocators in the same state. */
  method FreeInTwoOrders(m: MallocState, m': MallocState, mems: seq<int>, mems': seq<int>, gives: bool)
    requires m != m' && m.Valid() && m'.Valid() && m.View() == m'.View() && m.trimCheck == m'.trimCheck
    requires DistinctPointers(mems) && DistinctPointers(mems') && Pointers(mems) == Pointers(mems')
    requires AllUsed(m.View(), mems) && AllUsed(m.View(), mems')
    modifies m, m'
    ensures m.Valid() && m'.Valid() && SameLayout(m.View(), m'.View())
    ensures !gives || (forall a :: !Strands(old(m.View()), Pointers(mems), old(m.Limit()), a)) ==>
      m.View().y == m'.View().y
  {
    hide MallocState.Valid, InUse, Has, FreedAll, Pointers, DistinctPointers, EndAfter, Strands, Starts, SameLayout;
    ghost var h, all, e := m.View(), Pointers(mems), m.Limit();
    if m.top != 0 {
      StartsOf(m);
      NotNull(mems);
      OrdersAgreeIff(h, all, e, gives);
    }
    FreeEach(m, mems, gives);
    FreeEach(m', mems', gives);
    SameAfter(m, m', h, all);
    if old(m.top) == 0 {
      Empty(m);
      Empty(m');
    } else {
      assert Lists(mems, all) && Lists(mems', all);
    }
  }

  /** The same pointers, freed one by one and in bulk. */
  method FreeEachAndBulk(m: MallocState, m': MallocState, mems: seq<int>, pointers: array<int>, gives: bool)
    requires m != m' && m.Valid() && m'.Valid() && m.View() == m'.View() && m.trimCheck == m'.trimCheck
    requires DistinctPointers(mems) && DistinctPointers(pointers[..]) && Pointers(mems) == Pointers(pointers[..])
    requires AllUsed(m.View(), mems) && AllUsed(m.View(), pointers[..])
    modifies m, m', pointers
    ensures m.Valid() && m'.Valid() && SameLayout(m.View(), m'.View())
    ensures m'.topsize <= m.topsize
    ensures !gives ==> m.View().y == m'.View().y
    ensures (forall a :: !Strands(old(m.View()), Pointers(mems), old(m.Limit()), a)) && m.top < old(m.top) ==>
      m.View().y == m'.View().y
  {
    hide MallocState.Valid, InUse, Has, FreedAll, Pointers, DistinctPointers, EndAfter, Strands, Starts, Trimmed;
    ghost var h, all, e := m.View(), Pointers(mems), m.Limit();
    if m.top != 0 {
      StartsOf(m);
      NotNull(mems);
      BulkAgreesIff(h, all, e, gives);
    }
    FreeEach(m, mems, gives);
    var unfreed := m'.BulkFree(pointers, gives);
    SameAfter(m, m', h, all);
    if old(m.top) == 0 {
      Empty(m);
      Empty(m');
    } else {
      assert Lists(mems, all);
      m.TopFreed(h, all);
      KeptBounds(h, all, e, mems, gives);
    }
  }
}
