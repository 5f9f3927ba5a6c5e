/**
 Freeing many pointers, one by one or in bulk: the layout depends on the set of the pointers alone
 (`CanonicalLayout`), but what goes back to the system on the way, and with it the size of top,
 depends on their order.

 All of it is computed from the chunks in use before the first free: without the chunks of `gone`,
 top starts where the last of the others ends.
 */
module TrimOrder {
  import opened BoundaryTags
  import opened HeapView
  import opened Requests
  import opened CanonicalLayout

  /* ---------------------------------- where top is ---------------------------------- */

  ghost function EndOf(h: Heap, a: int): int {
    a + InUse(h, a)
  }

  ghost predicate Stays(h: Heap, gone: set<int>, a: int) {
    InUse(h, a) > 0 && a + 16 !in gone
  }

  /** `t` is the highest end of the chunks in use that stay, or the base if there is none. */
  ghost predicate IsTop(h: Heap, gone: set<int>, t: int) {
    && h.y.base <= t && (t == h.y.base || exists a :: Stays(h, gone, a) && EndOf(h, a) == t)
    && forall a :: Stays(h, gone, a) ==> EndOf(h, a) <= t
  }

  lemma Inhabited(s: set<int>)
    ensures s == {} || exists a :: a in s
  {
    if forall a :: a !in s {
      assert s == {};
    }
  }

  ghost function HighestEnd(h: Heap, s: set<int>, least: int): (t: int)
    ensures least <= t && (t == least || exists a :: a in s && EndOf(h, a) == t)
    ensures forall a :: a in s ==> EndOf(h, a) <= t
  {
    Inhabited(s);
    if s == {} then least
    else
      var a :| a in s;
      var t := HighestEnd(h, s - {a}, least);
      assert forall b :: b in s ==> b == a || b in s - {a};
      if EndOf(h, a) > t then EndOf(h, a) else t
  }

  /** Where top starts after the chunks of the pointers `gone` were freed. */
  ghost function TopWithout(h: Heap, gone: set<int>): (t: int)
    ensures IsTop(h, gone, t)
  {
    hide EndOf;
    var s := set a | a in h.y.chunks && Stays(h, gone, a);
    assert forall a :: Stays(h, gone, a) ==> a in s;
    HighestEnd(h, s, h.y.base)
  }

  lemma IsTopUnique(h: Heap, gone: set<int>, t: int, u: int)
    requires IsTop(h, gone, t) && IsTop(h, gone, u)
    ensures t == u
  {
  }

  lemma TopFalls(h: Heap, gone: set<int>, more: set<int>)
    requires gone <= more
    ensures TopWithout(h, more) <= TopWithout(h, gone)
  {
    hide EndOf, InUse;
    var t := TopWithout(h, more);
    if t != h.y.base {
      var a :| Stays(h, more, a) && EndOf(h, a) == t;
      assert Stays(h, gone, a);
    }
  }

  /** Top follows a chunk in use, unless it is all there is. */
  lemma {:induction false} UsedBeforeTop(h: Heap, p: int) returns (a: int)
    requires TagsOk(h.t, h.y) && p in h.y.chunks && p != h.y.top
    ensures InUse(h, a) > 0 && EndOf(h, a) == h.y.top
    decreases h.y.top - p
  {
    hide TagsOk, Has, InUse, Next;
    ChunkShape(h, p);
    if Next(h.t, p) == h.y.top {
      a := p;
      ChunkShape(h, h.y.top);
    } else {
      a := UsedBeforeTop(h, Next(h.t, p));
    }
  }

  lemma TopIs(h: Heap)
    requires TagsOk(h.t, h.y)
    ensures h.y.top == TopWithout(h, {})
  {
    hide Has, InUse, Next;
    BaseChunk(h);
    forall a | Stays(h, {}, a)
      ensures EndOf(h, a) <= h.y.top
    {
      UsedChunk(h, a);
      ChunkShape(h, a);
      ChunkShape(h, h.y.top);
    }
    if h.y.top != h.y.base {
      var a := UsedBeforeTop(h, h.y.base);
      assert Stays(h, {}, a);
    }
    IsTopUnique(h, {}, h.y.top, TopWithout(h, {}));
  }

  lemma BaseChunk(h: Heap)
    requires TagsOk(h.t, h.y)
    ensures h.y.base in h.y.chunks && h.y.top in h.y.chunks && h.y.base <= h.y.top && 0 < h.y.topsize
  {
  }

  lemma UsedChunk(h: Heap, a: int)
    requires InUse(h, a) > 0
    ensures a in h.y.chunks
  {
  }

  lemma TopAfter(h: Heap, h': Heap, gone: set<int>)
    requires TagsOk(h'.t, h'.y) && h'.y.base == h.y.base && FreedAll(h, h', gone)
    ensures h'.y.top == TopWithout(h, gone)
  {
    TopIs(h');
    hide InUse, TagsOk;
    assert forall a :: Stays(h', {}, a) <==> Stays(h, gone, a);
    assert forall a :: Stays(h, gone, a) ==> EndOf(h', a) == EndOf(h, a);
    assert IsTop(h, gone, h'.y.top);
    IsTopUnique(h, gone, h'.y.top, TopWithout(h, gone));
  }

  /* ------------------------------ what a trim leaves of top ------------------------------ */

  /** Where top ends, and the size beyond which it is trimmed: `trim_check`. */
  datatype End = End(at: int, check: nat)

  ghost function TopEnd(h: Heap, check: nat): End {
    End(h.y.top + h.y.topsize, check)
  }

  /** What `sys_trim` without pad takes off. */
  function Extra(topsize: int): (n: nat) {
    if topsize > TOP_FOOT_SIZE then TrimSize(topsize, TOP_FOOT_SIZE) else 0
  }

  /** What `sys_trim` takes off a top of `topsize` bytes, if it is to leave more than `pad`. */
  function Released(topsize: int, pad: nat): (n: nat) {
    if pad < MAX_REQUEST && topsize > pad + TOP_FOOT_SIZE then TrimSize(topsize, pad + TOP_FOOT_SIZE) else 0
  }

  /** `sys_trim(m, pad)` with top at `t`: if nothing can be taken off, it is not tried again. */
  ghost function PadTrimmed(t: int, e: End, pad: nat, gives: bool): End {
    if gives && Released(e.at - t, pad) > 0 then End(e.at - Released(e.at - t, pad), TRIM_THRESHOLD)
    else if pad < MAX_REQUEST && e.at - t > e.check then End(e.at, MAX_SIZE_T)
    else e
  }

  /** `if (should_trim(m, m->topsize)) sys_trim(m, 0);` with top at `t`. */
  ghost function Trimmed(t: int, e: End, gives: bool): End {
    if e.at - t <= e.check then e
    else if gives && Extra(e.at - t) > 0 then End(e.at - Extra(e.at - t), TRIM_THRESHOLD)
    else End(e.at, MAX_SIZE_T)
  }

  /** Where a top at `t` ends once it is trimmed, if it ended at `at`. */
  ghost function PageEnd(at: int, t: int): int {
    at - Extra(at - t)
  }

  /** A trim leaves at most a page, and it takes whole pages. */
  lemma ExtraIs(topsize: nat) returns (k: nat)
    requires topsize > TOP_FOOT_SIZE
    ensures Extra(topsize) == k * PAGE_SIZE
    ensures TOP_FOOT_SIZE < topsize - k * PAGE_SIZE <= TOP_FOOT_SIZE + PAGE_SIZE
  {
    k := (topsize - TOP_FOOT_SIZE + (PAGE_SIZE - 1)) / PAGE_SIZE - 1;
  }

  /** So it does not matter what was trimmed before. */
  lemma PageEndAgain(at: int, t: int, t': int)
    requires t' <= t && t + TOP_FOOT_SIZE < at
    ensures t + TOP_FOOT_SIZE < PageEnd(at, t) <= t + TOP_FOOT_SIZE + PAGE_SIZE
    ensures PageEnd(at, t) <= at && PageEnd(PageEnd(at, t), t') == PageEnd(at, t')
    ensures PageEnd(at, t') <= PageEnd(at, t)
  {
    var k := ExtraIs(at - t);
    var k' := ExtraIs(at - t');
    var k'' := ExtraIs(PageEnd(at, t) - t');
    hide Extra;
  }

  lemma TrimmedIs(t: int, e: End)
    requires TRIM_THRESHOLD <= e.check && t < e.at
    ensures Trimmed(t, e, true) == if e.at - t <= e.check then e else End(PageEnd(e.at, t), TRIM_THRESHOLD)
    ensures e.at - t > e.check ==> PageEnd(e.at, t) < e.at
    ensures Trimmed(t, e, false).at == e.at && TRIM_THRESHOLD <= Trimmed(t, e, false).check
  {
    if e.at - t > e.check {
      var k := ExtraIs(e.at - t);
    }
  }

  /* ------------------------------ one free after the other ------------------------------ */

  /** What `dlfree` does to the chunks in use and, when the freed chunk joins top, to the end of top. */
  ghost predicate FreeStep(h: Heap, check: nat, h': Heap, check': nat, mem: int, gives: bool) {
    && Freed(h, h', mem - 16) && TagsOk(h'.t, h'.y) && h'.y.base == h.y.base
    && TopEnd(h', check') ==
       if h'.y.top < h.y.top then Trimmed(h'.y.top, TopEnd(h, check), gives) else TopEnd(h, check)
  }

  /** The end of top after the pointers `mems` were freed one by one; null pointers are skipped. */
  ghost function EndAfter(h: Heap, mems: seq<int>, e: End, gives: bool): End {
    if mems == [] then e
    else
      var u := mems[..|mems| - 1];
      var t, t' := TopWithout(h, Pointers(u)), TopWithout(h, Pointers(mems));
      if t' < t then Trimmed(t', EndAfter(h, u, e, gives), gives) else EndAfter(h, u, e, gives)
  }

  lemma PointersAdd(s: seq<int>, u: seq<int>)
    ensures Pointers(s + u) == Pointers(s) + Pointers(u)
  {
  }

  lemma EndAfterOne(h: Heap, u: seq<int>, mem: int, e: End, gives: bool)
    ensures Pointers(u + [mem]) == Pointers(u) + Pointers([mem])
    ensures var t, t' := TopWithout(h, Pointers(u)), TopWithout(h, Pointers(u + [mem]));
      EndAfter(h, u + [mem], e, gives) ==
      if t' < t then Trimmed(t', EndAfter(h, u, e, gives), gives) else EndAfter(h, u, e, gives)
  {
    PointersAdd(u, [mem]);
    assert (u + [mem])[..|u|] == u;
  }

  /** `dlfree` called on one pointer after the other ends where `EndAfter` says. */
  lemma FreeStepEnd(
    h0: Heap, u: seq<int>, h: Heap, check: nat, h': Heap, check': nat, mem: int, gives: bool, e: End)
    requires FreedAll(h0, h, Pointers(u)) && TagsOk(h.t, h.y) && h.y.base == h0.y.base
    requires TopEnd(h, check) == EndAfter(h0, u, e, gives)
    requires mem != 0 && FreeStep(h, check, h', check', mem, gives)
    ensures FreedAll(h0, h', Pointers(u + [mem]))
    ensures TopEnd(h', check') == EndAfter(h0, u + [mem], e, gives)
  {
    hide InUse, TagsOk, TopWithout, Trimmed, TopEnd;
    PointersAdd(u, [mem]);
    assert Pointers([mem]) == {mem};
    assert FreedAll(h0, h', Pointers(u + [mem]));
    TopAfter(h0, h, Pointers(u));
    TopAfter(h0, h', Pointers(u + [mem]));
    EndAfterOne(h0, u, mem, e, gives);
  }

  lemma NullStepEnd(h: Heap, u: seq<int>, e: End, gives: bool)
    ensures Pointers(u + [0]) == Pointers(u)
    ensures EndAfter(h, u + [0], e, gives) == EndAfter(h, u, e, gives)
  {
    EndAfterOne(h, u, 0, e, gives);
    assert Pointers([0]) == {};
  }

  /* ------------------------------ the order of the frees ------------------------------ */

  /** `mems` is the pointers `all` in some order, and possibly null pointers. */
  ghost predicate Lists(mems: seq<int>, all: set<int>) {
    DistinctPointers(mems) && Pointers(mems) == all
  }

  ghost predicate OrdersAgree(h: Heap, all: set<int>, e: End, gives: bool) {
    forall m, m' :: Lists(m, all) && Lists(m', all) ==> EndAfter(h, m, e, gives).at == EndAfter(h, m', e, gives).at
  }

  /**
   Top can be made to start behind the chunk at `a`, by freeing what is behind it first; it is then
   trimmed, and what is freed afterwards does not suffice for another trim, but has whole pages.
   */
  ghost predicate Strands(h: Heap, all: set<int>, e: End, a: int) {
    && a + 16 in all && InUse(h, a) > 0
    && TopWithout(h, all) < EndOf(h, a) < TopWithout(h, {}) && e.at - EndOf(h, a) > e.check
    && TopWithout(h, all) < PageEnd(e.at, TopWithout(h, all)) < PageEnd(e.at, EndOf(h, a))
    && PageEnd(e.at, EndOf(h, a)) <= TopWithout(h, all) + TRIM_THRESHOLD
  }

  /** Top, and the threshold before the frees. */
  ghost predicate Starts(h: Heap, e: End) {
    TopWithout(h, {}) < e.at && TRIM_THRESHOLD <= e.check
  }

  /** Nothing was trimmed, or the last trim was when top started where it does after `k` frees. */
  ghost predicate TrimmedAt(h: Heap, mems: seq<int>, e: End, k: nat)
    requires Starts(h, e) && k <= |mems|
  {
    var t, tk, r := TopWithout(h, Pointers(mems)), TopWithout(h, Pointers(mems[..k])), EndAfter(h, mems, e, true);
    || (r == e && (t == TopWithout(h, {}) || e.at - t <= e.check))
    || (&& t <= tk < TopWithout(h, {}) && e.at - tk > e.check
        && r == End(PageEnd(e.at, tk), TRIM_THRESHOLD) && r.at - t <= TRIM_THRESHOLD)
  }

  lemma {:induction false} LastTrim(h: Heap, mems: seq<int>, e: End) returns (k: nat)
    requires Starts(h, e)
    ensures k <= |mems| && TrimmedAt(h, mems, e, k)
    decreases |mems|
  {
    hide TopWithout, Pointers, PageEnd, Trimmed;
    k := |mems|;
    NoPointers();
    if mems != [] {
      var n := |mems| - 1;
      var u := mems[..n];
      assert mems == u + [mems[n]];
      var j := LastTrim(h, u, e);
      assert u[..j] == mems[..j] && mems[..k] == mems;
      PointersAdd(u, [mems[n]]);
      TopFalls(h, Pointers(u), Pointers(mems));
      FirstTop(h, Pointers(u));
      k := LastTrimStep(h, u, mems, e, j);
    }
  }

  lemma NoPointers()
    ensures Pointers([]) == {}
  {
  }

  lemma FirstTop(h: Heap, gone: set<int>)
    ensures TopWithout(h, gone) <= TopWithout(h, {})
  {
    TopFalls(h, {}, gone);
  }

  lemma LastTrimStep(h: Heap, u: seq<int>, mems: seq<int>, e: End, j: nat) returns (k: nat)
    requires Starts(h, e) && mems != [] && u == mems[..|mems| - 1] && j <= |u| && TrimmedAt(h, u, e, j)
    requires mems[..|mems|] == mems && u[..j] == mems[..j]
    requires TopWithout(h, Pointers(mems)) <= TopWithout(h, Pointers(u)) <= TopWithout(h, {})
    ensures k <= |mems| && TrimmedAt(h, mems, e, k)
  {
    hide TopWithout, Pointers, PageEnd, Trimmed;
    k := j;
    var t, r := TopWithout(h, Pointers(mems)), EndAfter(h, u, e, true);
    if t < TopWithout(h, Pointers(u)) {
      TrimmedIs(t, e);
      if r != e {
        PageEndAgain(e.at, TopWithout(h, Pointers(mems[..j])), t);
        TrimmedIs(t, r);
      }
      if r.at - t > r.check {
        PageEndAgain(e.at, t, t);
        k := |mems|;
      }
    }
  }

  /** Without a trim that leaves something behind, every order ends like one trim at the end. */
  lemma OneTrimEnd(h: Heap, all: set<int>, e: End, mems: seq<int>)
    requires Starts(h, e) && Lists(mems, all) && forall a :: !Strands(h, all, e, a)
    ensures var t := TopWithout(h, all);
      EndAfter(h, mems, e, true).at == if t < TopWithout(h, {}) then Trimmed(t, e, true).at else e.at
  {
    hide TopWithout, Pointers, PageEnd, Trimmed, DistinctPointers, EndOf;
    var k := LastTrim(h, mems, e);
    var t, tk := TopWithout(h, all), TopWithout(h, Pointers(mems[..k]));
    FirstTop(h, all);
    TrimmedIs(t, e);
    if EndAfter(h, mems, e, true) != e {
      PageEndAgain(e.at, tk, t);
      if tk != t {
        var a := LastOfThese(h, all, Pointers(mems[..k]));
        assert !Strands(h, all, e, a);
        PageEndAgain(e.at, t, t);
      }
    }
  }

  /** While top is higher than at the end, it follows a chunk that is freed later. */
  lemma LastOfThese(h: Heap, all: set<int>, gone: set<int>) returns (a: int)
    requires TopWithout(h, all) < TopWithout(h, gone)
    ensures a + 16 in all && a + 16 !in gone && InUse(h, a) > 0 && EndOf(h, a) == TopWithout(h, gone)
  {
    hide EndOf, InUse;
    a :| Stays(h, gone, a) && EndOf(h, a) == TopWithout(h, gone);
    assert Stays(h, all, a) ==> EndOf(h, a) <= TopWithout(h, all);
  }

  /* An order for every end that can be reached. */

  ghost function Listing(all: set<int>): (s: seq<int>)
    requires 0 !in all
    ensures Lists(s, all)
  {
    Inhabited(all);
    if all == {} then []
    else
      var x :| x in all;
      ListsAdd(Listing(all - {x}), all - {x}, [x], {x});
      assert all - {x} + {x} == all;
      Listing(all - {x}) + [x]
  }

  lemma ListsAdd(s: seq<int>, a: set<int>, u: seq<int>, b: set<int>)
    requires Lists(s, a) && Lists(u, b) && a !! b
    ensures Lists(s + u, a + b)
  {
    PointersAdd(s, u);
    var w := s + u;
    forall i, j | 0 <= i < j < |w| && w[i] == w[j]
      ensures w[i] == 0
    {
      var x := w[i];
      if i < |s| <= j {
        assert x in s && x in u;
        assert x in Pointers(s) || x == 0;
        assert x in Pointers(u) || x == 0;
      }
    }
  }

  lemma ListsOne(x: int)
    requires x != 0
    ensures Lists([x], {x})
  {
  }

  /** Frees that leave top where it is do not trim. */
  lemma {:induction false} Steady(h: Heap, m: seq<int>, u: seq<int>, e: End, gives: bool)
    requires TopWithout(h, Pointers(m + u)) == TopWithout(h, Pointers(m))
    ensures EndAfter(h, m + u, e, gives) == EndAfter(h, m, e, gives)
    decreases |u|
  {
    hide TopWithout, Pointers, Trimmed;
    if u == [] {
      assert m + u == m;
    } else {
      var n := |u| - 1;
      assert m + u == (m + u[..n]) + [u[n]];
      PointersAdd(m + u[..n], [u[n]]);
      PointersAdd(m, u[..n]);
      TopFalls(h, Pointers(m), Pointers(m + u[..n]));
      TopFalls(h, Pointers(m + u[..n]), Pointers(m + u));
      EndAfterOne(h, m + u[..n], u[n], e, gives);
      Steady(h, m, u[..n], e, gives);
    }
  }

  /** `some` first, the chunk before top last among them: top moves once. */
  lemma MovesOnce(h: Heap, m: seq<int>, some: set<int>, last: int, e: End, gives: bool) returns (u: seq<int>)
    requires 0 !in some && last in some && some !! Pointers(m) && DistinctPointers(m)
    requires InUse(h, last - 16) > 0 && EndOf(h, last - 16) == TopWithout(h, Pointers(m))
    ensures Lists(m + u, Pointers(m) + some)
    ensures var t, t' := TopWithout(h, Pointers(m)), TopWithout(h, Pointers(m) + some);
      EndAfter(h, m + u, e, gives) ==
      if t' < t then Trimmed(t', EndAfter(h, m, e, gives), gives) else EndAfter(h, m, e, gives)
  {
    hide InUse, EndOf, Pointers, DistinctPointers, Trimmed;
    var v := Listing(some - {last});
    ListsOne(last);
    ListsAdd(m, Pointers(m), v, some - {last});
    ListsAdd(m + v, Pointers(m) + (some - {last}), [last], {last});
    u := v + [last];
    assert m + u == m + v + [last];
    assert Pointers(m) + (some - {last}) + {last} == Pointers(m) + some;
    assert Stays(h, Pointers(m + v), last - 16);
    TopFalls(h, Pointers(m), Pointers(m + v));
    Steady(h, m, v, e, gives);
    EndAfterOne(h, m + v, last, e, gives);
  }

  /** One trim at the end is always possible. */
  lemma OneTrimOrder(h: Heap, all: set<int>, e: End, gives: bool) returns (u: seq<int>)
    requires 0 !in all && TopWithout(h, all) < TopWithout(h, {})
    ensures Lists(u, all) && EndAfter(h, u, e, gives) == Trimmed(TopWithout(h, all), e, gives)
  {
    hide Trimmed, TopWithout, EndOf, InUse;
    NoPointers();
    var a := LastOfThese(h, all, {});
    u := MovesOnce(h, [], all, a + 16, e, gives);
    assert [] + u == u && {} + all == all;
  }

  /** And so is a trim before the chunk at `a` and the chunks below it are freed. */
  lemma TwoTrimOrder(h: Heap, all: set<int>, e: End, a: int) returns (u: seq<int>)
    requires 0 !in all && Starts(h, e) && Strands(h, all, e, a)
    ensures Lists(u, all)
    ensures EndAfter(h, u, e, true).at == PageEnd(e.at, EndOf(h, a))
  {
    hide Trimmed, Pointers, InUse, EndOf, PageEnd;
    NoPointers();
    var t := EndOf(h, a);
    var behind := set x | x in all && EndOf(h, x - 16) > t && InUse(h, x - 16) > 0;
    BehindTop(h, all, a, behind);
    var b := LastOfThese(h, behind, {});
    var m := MovesOnce(h, [], behind, b + 16, e, true);
    assert [] + m == m && {} + behind == behind;
    var u' := MovesOnce(h, m, all - behind, a + 16, e, true);
    assert behind + (all - behind) == all;
    u := m + u';
    TrimmedIs(t, e);
    PageEndAgain(e.at, t, TopWithout(h, all));
    TrimmedIs(TopWithout(h, all), End(PageEnd(e.at, t), TRIM_THRESHOLD));
  }

  lemma BehindTop(h: Heap, all: set<int>, a: int, behind: set<int>)
    requires a + 16 in all && InUse(h, a) > 0 && TopWithout(h, all) < EndOf(h, a)
    requires behind == set x | x in all && EndOf(h, x - 16) > EndOf(h, a) && InUse(h, x - 16) > 0
    ensures TopWithout(h, behind) == EndOf(h, a)
  {
    hide InUse, EndOf, TopWithout;
    assert IsTop(h, all, TopWithout(h, all));
    assert Stays(h, behind, a);
    forall b | Stays(h, behind, b)
      ensures EndOf(h, b) <= EndOf(h, a)
    {
      assert Stays(h, all, b) || (b + 16 in all && InUse(h, b) > 0);
      assert (b + 16) - 16 == b;
    }
    IsTopUnique(h, behind, EndOf(h, a), TopWithout(h, behind));
  }

  /**
   What is kept of top does not depend on the order of the frees exactly if no memory goes back to
   the system, or nothing can be left behind by an early trim.
   */
  lemma OrdersAgreeIff(h: Heap, all: set<int>, e: End, gives: bool)
    requires 0 !in all && Starts(h, e)
    ensures OrdersAgree(h, all, e, gives) <==> !gives || forall a :: !Strands(h, all, e, a)
  {
    hide Lists, Strands, Trimmed, TopWithout;
    if !gives {
      forall m | Lists(m, all)
        ensures EndAfter(h, m, e, false).at == e.at
      {
        NothingTaken(h, m, e);
      }
    } else if forall a :: !Strands(h, all, e, a) {
      forall m, m' | Lists(m, all) && Lists(m', all)
        ensures EndAfter(h, m, e, gives).at == EndAfter(h, m', e, gives).at
      {
        OneTrimEnd(h, all, e, m);
        OneTrimEnd(h, all, e, m');
      }
    } else {
      var a :| Strands(h, all, e, a);
      OrdersDiffer(h, all, e, a);
    }
  }

  lemma OrdersDiffer(h: Heap, all: set<int>, e: End, a: int)
    requires 0 !in all && Starts(h, e) && Strands(h, all, e, a)
    ensures !OrdersAgree(h, all, e, true)
  {
    hide Trimmed, TopWithout, EndOf, InUse, PageEnd;
    var u := OneTrimOrder(h, all, e, true);
    var u' := TwoTrimOrder(h, all, e, a);
    TrimmedIs(TopWithout(h, all), e);
  }

  /** If the system takes nothing, the segment ends where it did. */
  lemma {:induction false} NothingTaken(h: Heap, mems: seq<int>, e: End)
    requires Starts(h, e)
    ensures EndAfter(h, mems, e, false).at == e.at && TRIM_THRESHOLD <= EndAfter(h, mems, e, false).check
  {
    hide TopWithout, Pointers;
    if mems != [] {
      NothingTaken(h, mems[..|mems| - 1], e);
    }
  }

  /** Whether anything goes back at all does not depend on the order. */
  lemma TakenIff(h: Heap, all: set<int>, e: End, mems: seq<int>, gives: bool)
    requires Starts(h, e) && Lists(mems, all)
    ensures EndAfter(h, mems, e, gives).at == e.at <==>
      !gives || TopWithout(h, all) == TopWithout(h, {}) || e.at - TopWithout(h, all) <= e.check
  {
    hide TopWithout, Pointers, PageEnd, Trimmed, DistinctPointers;
    if gives {
      var k := LastTrim(h, mems, e);
      TrimmedIs(TopWithout(h, Pointers(mems[..k])), e);
      FirstTop(h, all);
    } else {
      NothingTaken(h, mems, e);
    }
  }

  /** One trim at the end keeps least; no order that trims keeps more than the trim threshold. */
  lemma KeptBounds(h: Heap, all: set<int>, e: End, mems: seq<int>, gives: bool)
    requires Starts(h, e) && Lists(mems, all)
    ensures var t, r := TopWithout(h, all), EndAfter(h, mems, e, gives).at;
      Trimmed(t, e, gives).at <= r && (r == e.at || r <= t + TRIM_THRESHOLD)
  {
    hide TopWithout, Pointers, PageEnd, Trimmed, DistinctPointers;
    var t := TopWithout(h, all);
    FirstTop(h, all);
    TrimmedIs(t, e);
    if gives {
      var k := LastTrim(h, mems, e);
      if EndAfter(h, mems, e, true) != e {
        PageEndAgain(e.at, TopWithout(h, Pointers(mems[..k])), t);
      }
    } else {
      NothingTaken(h, mems, e);
    }
  }

  /** Bulk free trims once, at the end; when every order of single frees keeps as much as that. */
  lemma BulkAgreesIff(h: Heap, all: set<int>, e: End, gives: bool)
    requires 0 !in all && Starts(h, e)
    ensures var t := TopWithout(h, all);
      (forall m :: Lists(m, all) ==> EndAfter(h, m, e, gives).at == Trimmed(t, e, gives).at) <==>
      !gives || ((forall a :: !Strands(h, all, e, a)) && (t < TopWithout(h, {}) || e.at - t <= e.check))
  {
    hide Lists, Strands, Trimmed, TopWithout, PageEnd;
    var t := TopWithout(h, all);
    FirstTop(h, all);
    TrimmedIs(t, e);
    OrdersAgreeIff(h, all, e, gives);
    var u := Listing(all);
    if !gives {
      forall m | Lists(m, all)
        ensures EndAfter(h, m, e, gives).at == e.at
      {
        NothingTaken(h, m, e);
      }
    } else if forall a :: !Strands(h, all, e, a) {
      forall m | Lists(m, all)
        ensures EndAfter(h, m, e, gives).at == if t < TopWithout(h, {}) then Trimmed(t, e, true).at else e.at
      {
        OneTrimEnd(h, all, e, m);
      }
    }
  }

  /* ------------------------------------ an example ------------------------------------ */

  const A: int := 0x1_0000
  const B: int := 0x11_0000
  const TOP: int := 0x31_0000

  /** A chunk of 1 MB, one of 2 MB, and a top of less than a page. */
  ghost function TwoChunks(): Heap {
    Heap(
      Tags(
        map[
          A := Head(0x10_0000, true, true), B := Head(0x20_0000, true, true), TOP := Head(4016, false, true),
          TOP + 4016 := Head(TOP_FOOT_SIZE, false, false)
        ],
        map[]),
      Layout({A, B, TOP}, A, TOP, 4016), 0, 0, map[])
  }

  lemma TwoChunksOk()
    ensures HeapOk(TwoChunks(), {})
    ensures forall a :: InUse(TwoChunks(), a) == if a == A then 0x10_0000 else if a == B then 0x20_0000 else 0
  {
  }

  /** Freed from the lower chunk on, less than a page is kept; the other way round, 1 MB more. */
  lemma OrderDecides()
    ensures var h, e := TwoChunks(), TopEnd(TwoChunks(), TRIM_THRESHOLD);
      && TopWithout(h, Pointers([A + 16, B + 16])) == TopWithout(h, Pointers([B + 16, A + 16])) == A
      && EndAfter(h, [A + 16, B + 16], e, true).at == A + 4016
      && EndAfter(h, [B + 16, A + 16], e, true).at == A + 0x10_0000 + 4016
  {
    hide InUse, HeapOk, TopWithout, Pointers, Trimmed, TwoChunks, EndAfter;
    ExampleEnd();
    ExampleTrims();
    var h, e := TwoChunks(), TopEnd(TwoChunks(), TRIM_THRESHOLD);
    var a, b := A + 16, B + 16;
    ExamplePointers(a, b);
    TopsOfTwo(h, a, b);
    NoPointers();
    EndAfterOne(h, [], a, e, true);
    EndAfterOne(h, [], b, e, true);
    EndAfterOne(h, [a], b, e, true);
    EndAfterOne(h, [b], a, e, true);
    assert [] + [a] == [a] && [] + [b] == [b] && [a] + [b] == [a, b] && [b] + [a] == [b, a];
  }

  lemma ExampleEnd()
    ensures TopEnd(TwoChunks(), TRIM_THRESHOLD) == End(TOP + 4016, TRIM_THRESHOLD)
    ensures EndAfter(TwoChunks(), [], End(TOP + 4016, TRIM_THRESHOLD), true) == End(TOP + 4016, TRIM_THRESHOLD)
  {
  }

  lemma ExampleTrims()
    ensures Trimmed(A, End(TOP + 4016, TRIM_THRESHOLD), true) == End(A + 4016, TRIM_THRESHOLD)
    ensures Trimmed(B, End(TOP + 4016, TRIM_THRESHOLD), true) == End(B + 4016, TRIM_THRESHOLD)
    ensures Trimmed(A, End(B + 4016, TRIM_THRESHOLD), true) == End(B + 4016, TRIM_THRESHOLD)
  {
  }

  lemma ExamplePointers(a: int, b: int)
    requires a != 0 && b != 0
    ensures Pointers([a]) == {a} && Pointers([b]) == {b} && Pointers([a, b]) == {a, b} == Pointers([b, a])
  {
  }

  lemma TopsOfTwo(h: Heap, a: int, b: int)
    requires h == TwoChunks() && a == A + 16 && b == B + 16
    ensures TopWithout(h, {}) == TOP == TopWithout(h, {a})
    ensures TopWithout(h, {b}) == B && TopWithout(h, {a, b}) == A
  {
    hide InUse, HeapOk, TopWithout;
    TwoChunksOk();
    assert Stays(h, {}, B) && Stays(h, {a}, B) && Stays(h, {b}, A);
    IsTopUnique(h, {}, TOP, TopWithout(h, {}));
    IsTopUnique(h, {a}, TOP, TopWithout(h, {a}));
    IsTopUnique(h, {b}, B, TopWithout(h, {b}));
    IsTopUnique(h, {a, b}, A, TopWithout(h, {a, b}));
  }
}