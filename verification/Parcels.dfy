/** A chunk cut into adjacent chunks, all in use: what `ialloc` makes of the aggregate it allocates. */
module Parcels {
  import opened BoundaryTags
  import opened ChunkWrites
  import opened HeapView
  import opened HeapSteps
  import opened Requests

  function Sum(s: seq<nat>): nat {
    if s == [] then 0 else s[0] + Sum(s[1..])
  }

  /** The size of the part that starts at `a`, if the parts lie one behind the other from `base` on. */
  ghost function PartAt(base: int, parts: seq<nat>, a: int, otherwise: nat): nat
    decreases |parts|
  {
    if parts == [] then otherwise
    else if a == base then parts[0]
    else PartAt(base + parts[0], parts[1..], a, otherwise)
  }

  ghost predicate Positive(s: seq<nat>) {
    forall i :: 0 <= i < |s| ==> s[i] > 0
  }

  /** Nothing was in use in the area of the parts before; now the parts are, and the rest is as it was. */
  ghost predicate Parceled(h: Heap, h': Heap, base: int, parts: seq<nat>) {
    NoneUsed(h, base, Sum(parts)) && forall a :: InUse(h', a) == PartAt(base, parts, a, InUse(h, a))
  }

  lemma {:induction false} SumAdd(s: seq<nat>, u: seq<nat>)
    ensures Sum(s + u) == Sum(s) + Sum(u)
  {
    if s == [] {
      assert s + u == u;
    } else {
      SumAdd(s[1..], u);
      assert (s + u)[1..] == s[1..] + u;
    }
  }

  lemma SumOne(x: nat)
    ensures Sum([x]) == x
  {
    assert [x][1..] == [];
  }

  lemma {:induction false} SumPrefix(s: seq<nat>, i: nat)
    requires i < |s|
    ensures Sum(s[..i + 1]) == Sum(s[..i]) + s[i] && Sum(s[..i + 1]) <= Sum(s)
  {
    assert s[..i + 1] == s[..i] + [s[i]];
    SumAdd(s[..i], [s[i]]);
    SumOne(s[i]);
    assert s == s[..i + 1] + s[i + 1..];
    SumAdd(s[..i + 1], s[i + 1..]);
  }

  /** Before the parts start, nothing is a part. */
  lemma {:induction false} PartsBehind(base: int, parts: seq<nat>, a: int, d: nat)
    requires a < base
    ensures PartAt(base, parts, a, d) == d
    decreases |parts|
  {
    if parts != [] {
      PartsBehind(base + parts[0], parts[1..], a, d);
    }
  }

  /** Cutting one part in two. */
  lemma {:induction false} PartSplit(base: int, pre: seq<nat>, x: nat, y: nat, post: seq<nat>, a: int, d: nat)
    requires Positive(pre) && x > 0 && y > 0
    ensures PartAt(base, pre + [x, y] + post, a, d) ==
      if a == base + Sum(pre) then x
      else if a == base + Sum(pre) + x then y
      else PartAt(base, pre + [x + y] + post, a, d)
    decreases |pre|
  {
    var two, one := pre + [x, y] + post, pre + [x + y] + post;
    if pre == [] {
      assert two[1..] == [y] + post && two[1..][1..] == post && one[1..] == post;
    } else {
      assert two[1..] == pre[1..] + [x, y] + post && one[1..] == pre[1..] + [x + y] + post;
      PartSplit(base + pre[0], pre[1..], x, y, post, a, d);
      assert Positive(pre[1..]);
    }
  }

  /** The parts start behind one another. */
  function StartOf(base: int, parts: seq<nat>, i: nat): int
    requires i <= |parts|
  {
    base + Sum(parts[..i])
  }

  lemma {:induction false} PartHere(base: int, parts: seq<nat>, i: nat, d: nat)
    requires Positive(parts) && i < |parts|
    ensures PartAt(base, parts, StartOf(base, parts, i), d) == parts[i]
    decreases |parts|
  {
    if i > 0 {
      assert parts[..i][1..] == parts[1..][..i - 1];
      SumPrefix(parts[..i], 0);
      PartHere(base + parts[0], parts[1..], i - 1, d);
    }
  }

  lemma {:induction false} PartNowhere(base: int, parts: seq<nat>, a: int, d: nat)
    requires forall i :: 0 <= i < |parts| ==> StartOf(base, parts, i) != a
    ensures PartAt(base, parts, a, d) == d
    decreases |parts|
  {
    if parts != [] {
      assert StartOf(base, parts, 0) != a;
      var base', rest := base + parts[0], parts[1..];
      forall i | 0 <= i < |rest|
        ensures StartOf(base', rest, i) != a
      {
        assert parts[..i + 1][1..] == rest[..i];
        assert StartOf(base, parts, i + 1) != a;
      }
      PartNowhere(base', rest, a, d);
    }
  }

  /** The parts start at different places. */
  lemma {:induction false} StartsRise(base: int, parts: seq<nat>, i: nat, j: nat)
    requires Positive(parts) && i < j <= |parts|
    ensures StartOf(base, parts, i) < StartOf(base, parts, j)
    decreases j
  {
    SumPrefix(parts, j - 1);
    if i < j - 1 {
      StartsRise(base, parts, i, j - 1);
    }
  }

  lemma ParcelSplit(h: Heap, h1: Heap, h2: Heap, base: int, pre: seq<nat>, x: nat, y: nat, post: seq<nat>)
    requires Positive(pre) && x > 0 && y > 0 && Parceled(h, h1, base, pre + [x + y] + post)
    requires CutInTwo(h1, h2, base + Sum(pre), x, y)
    ensures Parceled(h, h2, base, pre + [x, y] + post)
  {
    SumAdd(pre + [x + y], post);
    SumAdd(pre + [x, y], post);
    SumAdd(pre, [x + y]);
    SumAdd(pre, [x, y]);
    SumOne(x + y);
    PartsSum([x], y);
    SumOne(x);
    assert [x, y] == [x] + [y];
    forall a
      ensures InUse(h2, a) == PartAt(base, pre + [x, y] + post, a, InUse(h, a))
    {
      PartSplit(base, pre, x, y, post, a, InUse(h, a));
    }
  }

  lemma ParcelStart(h: Heap, h1: Heap, base: int, n: nat)
    requires Gained(h, h1, base, n) && NoneUsed(h, base, n)
    ensures Parceled(h, h1, base, [n])
  {
    SumOne(n);
    forall a
      ensures InUse(h1, a) == PartAt(base, [n], a, InUse(h, a))
    {
      assert [n][1..] == [];
    }
  }

  /* ------------------------------ the writes of `ialloc` ------------------------------ */

  /** The heap as it would be with the remainder's head already written at `p`. */
  ghost function WithRemainder(h: Heap, p: int, r: nat): Heap {
    h.(t := SetUsedChunk(h.t, p, r))
  }

  lemma AlreadyThere(h: Heap, p: int, r: nat)
    requires HeadOf(h.t, p) == Head(r, true, true)
    ensures WithRemainder(h, p, r) == h
  {
    assert h.t.head[p := Head(r, true, true)] == h.t.head;
  }

  /** Writing one element's head moves the remainder behind it. */
  lemma CutElement(h: Heap, p: int, r: nat, x: nat)
    requires HeapOk(WithRemainder(h, p, r), {}) && Has(WithRemainder(h, p, r), p) == Used(r)
    requires MIN_CHUNK_SIZE <= x && x % 16 == 0 && x + MIN_CHUNK_SIZE <= r
    ensures var h' := h.(t := SetUsedChunk(h.t, p, x), y := h.y.(chunks := h.y.chunks + {p + x}));
      var v' := WithRemainder(h', p + x, r - x);
      && HeapOk(v', {}) && Has(v', p + x) == Used(r - x) && CutInTwo(WithRemainder(h, p, r), v', p, x, r - x)
  {
    hide HeapOk, Has;
    var v := WithRemainder(h, p, r);
    WritesCutElement(h.t, p, r, x);
    SplitByHeads(v, SetUsedChunk(SetUsedChunk(h.t, p, x), p + x, r - x), p, x);
  }

  lemma WritesCutElement(t: Tags, p: int, r: nat, x: nat)
    requires 0 < x < r
    ensures SplitUsed(SetUsedChunk(t, p, r), SetUsedChunk(SetUsedChunk(t, p, x), p + x, r - x), p, x)
  {
  }

  lemma SplitByHeads(v: Heap, t': Tags, p: int, x: nat)
    requires HeapOk(v, {}) && Has(v, p).Used? && SplitUsed(v.t, t', p, x)
    requires MIN_CHUNK_SIZE <= x && x % 16 == 0 && x + MIN_CHUNK_SIZE <= Has(v, p).size
    ensures var v' := v.(t := t', y := v.y.(chunks := v.y.chunks + {p + x}));
      && HeapOk(v', {}) && Has(v', p + x) == Used(Has(v, p).size - x) && CutInTwo(v, v', p, x, Has(v, p).size - x)
  {
    hide HeapOk, Has, SplitUsed, TagsOk;
    UsedSize(v, {}, p);
    InsideIsNothing(v, p, p + x);
    SplitUsedChunk(v, {}, t', p, x);
  }

  /** The pointer array's head is written behind the elements, before the elements are cut. */
  lemma CutArray(h: Heap, p: int, r: nat, x: nat)
    requires HeapOk(WithRemainder(h, p, r), {}) && Has(WithRemainder(h, p, r), p) == Used(r)
    requires MIN_CHUNK_SIZE <= x && x % 16 == 0 && x + MIN_CHUNK_SIZE <= r
    ensures var h' := h.(t := SetUsedChunk(h.t, p + x, r - x), y := h.y.(chunks := h.y.chunks + {p + x}));
      var v' := WithRemainder(h', p, x);
      && HeapOk(v', {}) && Has(v', p) == Used(x) && CutInTwo(WithRemainder(h, p, r), v', p, x, r - x)
  {
    hide HeapOk, Has;
    CutElement(h, p, r, x);
    var h' := h.(t := SetUsedChunk(h.t, p + x, r - x), y := h.y.(chunks := h.y.chunks + {p + x}));
    var w := h.(t := SetUsedChunk(h.t, p, x), y := h.y.(chunks := h.y.chunks + {p + x}));
    HeadsCommute(h.t, p, x, p + x, r - x);
    assert WithRemainder(h', p, x) == WithRemainder(w, p + x, r - x);
    CutIsUsed(WithRemainder(h, p, r), WithRemainder(h', p, x), p, x, r - x);
  }

  lemma HeadsCommute(t: Tags, p: int, x: nat, q: int, y: nat)
    requires p != q
    ensures SetUsedChunk(SetUsedChunk(t, p, x), q, y) == SetUsedChunk(SetUsedChunk(t, q, y), p, x)
  {
    assert t.head[p := Head(x, true, true)][q := Head(y, true, true)] ==
      t.head[q := Head(y, true, true)][p := Head(x, true, true)];
  }

  lemma CutIsUsed(h: Heap, h': Heap, p: int, x: nat, y: nat)
    requires CutInTwo(h, h', p, x, y) && x > 0
    ensures Has(h', p) == Used(x)
  {
    assert InUse(h', p) == x;
  }

  /* ----------------------------------- the sizes ----------------------------------- */

  /** The padded size of element `i`; with `same`, all elements have the first size. */
  function ElementSize(sizes: seq<nat>, same: bool, i: nat): nat
    requires if same then sizes != [] else i < |sizes|
  {
    Request2Size(if same then sizes[0] else sizes[i])
  }

  /** The padded sizes of all elements, without wrap-around. */
  function Elements(n: nat, sizes: seq<nat>, same: bool): (es: seq<nat>)
    requires n > 0 ==> if same then sizes != [] else n <= |sizes|
    ensures |es| == n
  {
    if n == 0 then [] else Elements(n - 1, sizes, same) + [TrueSize(if same then sizes[0] else sizes[n - 1])]
  }

  /** What all the elements, and the pointer array unless it is given, take up. */
  function Total(n: nat, sizes: seq<nat>, same: bool, given: bool): nat
    requires n > 0 ==> if same then sizes != [] else n <= |sizes|
  {
    Sum(Elements(n, sizes, same)) + if given then 0 else TrueSize(8 * n)
  }

  predicate Words(sizes: seq<nat>) {
    forall s :: s in sizes ==> s < WORD
  }

  lemma {:induction false} ElementsAre(n: nat, sizes: seq<nat>, same: bool)
    requires n > 0 ==> if same then sizes != [] else n <= |sizes|
    ensures var es := Elements(n, sizes, same);
      forall i: nat :: i < n ==>
        es[i] == TrueSize(if same then sizes[0] else sizes[i]) && es[i] >= 32 && es[i] % 16 == 0
  {
    hide TrueSize;
    if n > 0 {
      ElementsAre(n - 1, sizes, same);
      TrueSizeOk(if same then sizes[0] else sizes[n - 1]);
    }
  }

  /** As long as the total fits into a word, the computed size of an element is the true one. */
  lemma ElementIs(n: nat, sizes: seq<nat>, same: bool, i: nat)
    requires i < n && Words(sizes) && (if same then sizes != [] else n <= |sizes|)
    requires Sum(Elements(n, sizes, same)) < WORD
    ensures ElementSize(sizes, same, i) == Elements(n, sizes, same)[i]
  {
    hide TrueSize, Request2Size, Sum;
    ElementsAre(n, sizes, same);
    var s := if same then sizes[0] else sizes[i];
    assert s in sizes;
    Request2SizeIs(s);
    SumPrefix(Elements(n, sizes, same), i);
  }

  lemma {:induction false} SumOfSame(n: nat, sizes: seq<nat>)
    requires sizes != []
    ensures Sum(Elements(n, sizes, true)) == n * TrueSize(sizes[0])
  {
    hide TrueSize;
    if n > 0 {
      SumOfSame(n - 1, sizes);
      PartsSum(Elements(n - 1, sizes, true), TrueSize(sizes[0]));
      OneMore(n - 1, TrueSize(sizes[0]));
    }
  }

  lemma OneMore(n: nat, x: nat)
    ensures n * x + x == (n + 1) * x
  {
  }

  lemma MulWraps(n: nat, x: nat)
    ensures n * (x % WORD) % WORD == n * x % WORD
  {
    var q, r := x / WORD, x % WORD;
    MulSplit(n, q, r);
    WrapsAway(n * r, n * q);
  }

  lemma MulSplit(n: nat, q: nat, r: nat)
    ensures n * (q * WORD + r) == n * q * WORD + n * r
  {
  }

  lemma WrapsAway(a: nat, k: nat)
    ensures (a + k * WORD) % WORD == a % WORD
  {
  }

  lemma SumWraps(a: nat, b: nat)
    ensures (a % WORD + b % WORD) % WORD == (a + b) % WORD
  {
  }

  /**
   The first part of `ialloc`: the total of the padded sizes, modulo 2^64; it is the true total
   exactly if that is below 2^64.
   */
  method ContentsSize(n: nat, sizes: seq<nat>, same: bool) returns (total: nat)
    requires Words(sizes) && (n > 0 ==> if same then sizes != [] else n <= |sizes|)
    ensures total == Sum(Elements(n, sizes, same)) % WORD
    ensures total == Sum(Elements(n, sizes, same)) <==> Sum(Elements(n, sizes, same)) < WORD
  {
    hide Request2Size, Sum, Elements;
    NoElements(sizes, same);
    if same && n > 0 {
      SameWraps(n, sizes);
      total := n * Request2Size(sizes[0]) % WORD;
    } else {
      total := 0;
      for i := 0 to n
        invariant total == Sum(Elements(i, sizes, same)) % WORD
      {
        AddWraps(i, sizes, same);
        total := (total + Request2Size(sizes[i])) % WORD;
      }
    }
  }

  lemma NoElements(sizes: seq<nat>, same: bool)
    ensures Sum(Elements(0, sizes, same)) == 0
  {
  }

  lemma SameWraps(n: nat, sizes: seq<nat>)
    requires Words(sizes) && sizes != []
    ensures n * Request2Size(sizes[0]) % WORD == Sum(Elements(n, sizes, true)) % WORD
  {
    hide TrueSize, Request2Size, Sum, Elements;
    assert sizes[0] in sizes;
    SumOfSame(n, sizes);
    Request2SizeIs(sizes[0]);
    MulWraps(n, TrueSize(sizes[0]));
  }

  lemma AddWraps(i: nat, sizes: seq<nat>, same: bool)
    requires Words(sizes) && i < |sizes| && !same
    ensures (Sum(Elements(i, sizes, same)) % WORD + Request2Size(sizes[i])) % WORD ==
      Sum(Elements(i + 1, sizes, same)) % WORD
  {
    hide TrueSize, Request2Size, Sum;
    assert sizes[i] in sizes;
    Request2SizeIs(sizes[i]);
    PartsSum(Elements(i, sizes, same), TrueSize(sizes[i]));
    SumWraps(Sum(Elements(i, sizes, same)), TrueSize(sizes[i]));
  }

  /** Two more elements after the first `i` fit as long as the total does. */
  lemma NextElementFits(es: seq<nat>, i: nat, total: nat)
    requires i + 1 < |es| && Sum(es) <= total && es[i + 1] >= 32
    ensures Sum(es[..i]) + es[i] + 32 <= total
  {
    SumPrefix(es, i);
    SumPrefix(es, i + 1);
  }

  /** The bytes that `ialloc` asks `malloc` for, in 64-bit arithmetic. */
  function AggregateBytes(n: nat, sizes: seq<nat>, same: bool, given: bool): nat
    requires n > 0 ==> if same then sizes != [] else n <= |sizes|
  {
    (Sum(Elements(n, sizes, same)) % WORD + (if given then 0 else Request2Size(8 * n % WORD)) + WORD - 8) % WORD
  }

  /** What `ialloc` makes room for: the computed total is the true one exactly if that fits into a word. */
  method AggregateSize(n: nat, sizes: seq<nat>, same: bool, given: bool) returns (contentsSize: nat, size: nat)
    requires n > 0 && Words(sizes) && (if same then sizes != [] else n <= |sizes|)
    ensures contentsSize == Sum(Elements(n, sizes, same)) % WORD && size < WORD
    ensures size == Total(n, sizes, same, given) <==> Total(n, sizes, same, given) < WORD
    ensures Total(n, sizes, same, given) < WORD ==>
      && contentsSize == Sum(Elements(n, sizes, same)) && contentsSize % 16 == 0 && contentsSize >= 32
      && size % 16 == 0 && size >= contentsSize
    ensures (size + WORD - 8) % WORD == AggregateBytes(n, sizes, same, given)
  {
    hide Sum, Elements, Request2Size, TrueSize, Words;
    ElementsTotal(n, sizes, same);
    contentsSize := ContentsSize(n, sizes, same);
    if Total(n, sizes, same, given) < WORD {
      ArraySizeOk(n, contentsSize);
    }
    var arraySize := if given then 0 else Request2Size(8 * n % WORD);
    size := (contentsSize + arraySize) % WORD;
    WrapTwice(contentsSize, arraySize);
  }

  lemma WrapTwice(a: nat, b: nat)
    ensures ((a + b) % WORD + WORD - 8) % WORD == (a + b + WORD - 8) % WORD
  {
  }

  lemma TotalSize(size: nat)
    requires size % 16 == 0 && 32 <= size < WORD
    ensures (size + WORD - 8) % WORD == size - 8
    ensures size <= MAX_REQUEST ==> RequestedSize(size - 8) == size
    ensures size > MAX_REQUEST ==> size - 8 >= MAX_REQUEST
  {
  }

  lemma {:induction false} ElementsTotal(n: nat, sizes: seq<nat>, same: bool)
    requires n > 0 ==> if same then sizes != [] else n <= |sizes|
    ensures Sum(Elements(n, sizes, same)) % 16 == 0 && Sum(Elements(n, sizes, same)) >= 32 * n
  {
    hide TrueSize;
    if n > 0 {
      ElementsTotal(n - 1, sizes, same);
      TrueSizeOk(if same then sizes[0] else sizes[n - 1]);
      PartsSum(Elements(n - 1, sizes, same), TrueSize(if same then sizes[0] else sizes[n - 1]));
    }
  }

  lemma SumOfNone()
    ensures forall s: seq<nat> :: Sum(s[..0]) == 0
  {
  }

  lemma PartsSum(s: seq<nat>, x: nat)
    ensures Sum(s + [x]) == Sum(s) + x
  {
    SumAdd(s, [x]);
    SumOne(x);
  }

  lemma NoParcels(h: Heap)
    ensures Parceled(h, h, 0, [])
  {
  }

  /**
   How `ialloc` has laid out the elements `es` from `first` on: one behind the other, each of
   its padded size, except that the last one absorbs the excess; or the pointer array does, when
   it is the last part.
   */
  ghost predicate Laid(
    es: seq<nat>, given: bool, arrayBytes: nat, first: int, parts: seq<nat>, ptrs: seq<int>, marray: int)
  {
    var n := |es|;
    && n > 0 && |parts| == (if given then n else n + 1) && |ptrs| == n
    && parts[..n - 1] == es[..n - 1]
    && (if given then parts[n - 1] >= es[n - 1] else parts[n - 1] == es[n - 1])
    && (!given ==> parts[n] >= TrueSize(arrayBytes) && marray == first + Sum(parts[..n]) + 16)
    && (forall i: nat :: i < n ==> ptrs[i] == first + Sum(parts[..i]) + 16)
    && Sum(parts) < Sum(es) + (if given then 0 else TrueSize(arrayBytes)) + MIN_CHUNK_SIZE
  }

  lemma LaidWithoutArray(es: seq<nat>, arrayBytes: nat, first: int, parts: seq<nat>, ptrs: seq<int>)
    requires |es| > 0 && |parts| == |es| == |ptrs| && parts[..|es| - 1] == es[..|es| - 1]
    requires parts[|es| - 1] >= es[|es| - 1]
    requires Sum(parts) < Sum(es) + MIN_CHUNK_SIZE
    requires forall i: nat :: i < |es| ==> ptrs[i] == first + Sum(parts[..i]) + 16
    ensures Laid(es, true, arrayBytes, first, parts, ptrs, 0)
  {
  }

  lemma LaidWithArray(es: seq<nat>, arrayBytes: nat, first: int, parts: seq<nat>, ptrs: seq<int>, arraySize: nat)
    requires |es| > 0 && |parts| == |es| == |ptrs| && parts[..|es| - 1] == es[..|es| - 1]
    requires Sum(parts) == Sum(es) && TrueSize(arrayBytes) <= arraySize < TrueSize(arrayBytes) + MIN_CHUNK_SIZE
    requires forall i: nat :: i < |es| ==> ptrs[i] == first + Sum(parts[..i]) + 16
    ensures Laid(es, false, arrayBytes, first, parts + [arraySize], ptrs, first + Sum(es) + 16)
  {
    hide TrueSize, Sum;
    var n, all := |es|, parts + [arraySize];
    PartsSum(parts, arraySize);
    LastSame(es, parts);
    WithLast(parts, arraySize);
    SameFronts(parts, all);
  }

  lemma LastSame(es: seq<nat>, parts: seq<nat>)
    requires |es| == |parts| > 0 && parts[..|es| - 1] == es[..|es| - 1] && Sum(parts) == Sum(es)
    ensures parts[|es| - 1] == es[|es| - 1]
  {
    hide Sum;
    var n := |es|;
    PartsSum(es[..n - 1], es[n - 1]);
    PartsSum(parts[..n - 1], parts[n - 1]);
    assert es == es[..n - 1] + [es[n - 1]] && parts == parts[..n - 1] + [parts[n - 1]];
  }

  lemma WithLast(parts: seq<nat>, x: nat)
    requires parts != []
    ensures var all, n := parts + [x], |parts|;
      |all| == n + 1 && all[..n] == parts && all[..n - 1] == parts[..n - 1] && all[n - 1] == parts[n - 1] && all[n] == x
  {
  }

  lemma SameFronts(parts: seq<nat>, all: seq<nat>)
    requires parts <= all
    ensures forall i: nat :: i < |parts| ==> Sum(all[..i]) == Sum(parts[..i])
  {
    hide Sum;
    forall i: nat | i < |parts|
      ensures Sum(all[..i]) == Sum(parts[..i])
    {
      assert all[..i] == parts[..i];
    }
  }

  lemma ArraySizeOk(n: nat, total: nat)
    requires n > 0 && total >= 32 * n && total < WORD
    ensures Request2Size(8 * n % WORD) == TrueSize(8 * n) >= 32 && TrueSize(8 * n) % 16 == 0
  {
    hide Request2Size, TrueSize;
    var x := 8 * n;
    assert x < MAX_REQUEST && x % WORD == x;
    Request2SizeIs(x);
    TrueSizeOk(x);
    assert TrueSize(x) % WORD == TrueSize(x);
  }

  /** The layout `ialloc` promises exists only if the total fits into a word. */
  lemma LaidNeedsTotal(
    n: nat, sizes: seq<nat>, same: bool, given: bool, first: int, parts: seq<nat>, ptrs: seq<int>, marray: int)
    requires n > 0 && (if same then sizes != [] else n <= |sizes|)
    requires Laid(Elements(n, sizes, same), given, 8 * n, first, parts, ptrs, marray) && Sum(parts) < WORD
    ensures Total(n, sizes, same, given) < WORD
  {
    hide TrueSize, Sum;
    var es := Elements(n, sizes, same);
    assert es == es[..n - 1] + [es[n - 1]] && parts[..n] == parts[..n - 1] + [parts[n - 1]];
    PartsSum(es[..n - 1], es[n - 1]);
    PartsSum(parts[..n - 1], parts[n - 1]);
    if given {
      assert parts[..n] == parts;
    } else {
      assert parts == parts[..n] + [parts[n]];
      PartsSum(parts[..n], parts[n]);
    }
  }

  /** Beyond that, no layout of a chunk of the computed size is what `ialloc` promises. */
  lemma NoLayout(n: nat, sizes: seq<nat>, same: bool, given: bool, first: int, whole: nat)
    requires n > 0 && (if same then sizes != [] else n <= |sizes|)
    requires Total(n, sizes, same, given) >= WORD && whole < WORD
    ensures forall parts: seq<nat>, ptrs, marray ::
      Laid(Elements(n, sizes, same), given, 8 * n, first, parts, ptrs, marray) ==> Sum(parts) != whole
  {
    hide Laid, Sum, Elements;
    forall parts: seq<nat>, ptrs, marray | Laid(Elements(n, sizes, same), given, 8 * n, first, parts, ptrs, marray)
      ensures Sum(parts) != whole
    {
      if Sum(parts) == whole {
        LaidNeedsTotal(n, sizes, same, given, first, parts, ptrs, marray);
      }
    }
  }

  lemma EndsByTop(t: Tags, y: Layout, p: int)
    requires TagsOk(t, y) && p in y.chunks && p != y.top
    ensures Next(t, p) <= y.top
  {
    assert Tiles(t, y, p);
  }

  /**
   Two elements of 2^63 bytes: the sizes add up to 32, the pointer array needs 32 more, and `malloc`
   is asked for 56 bytes. The head of the first element then makes a chunk that reaches beyond top.
   */
  lemma TotalWraps(h: Heap, p: int, chunks: set<int>)
    requires HeapOk(h, {}) && Has(h, p) == Used(64) && h.y.top <= 0x8000_0000_0000_0000 && p in chunks
    ensures var big := 0x8000_0000_0000_0000;
      && Total(2, [big, big], false, true) == WORD + 32 && Total(2, [big, big], false, false) == WORD + 64
      && (Request2Size(big) + Request2Size(big)) % WORD == 32 && RequestedSize(32 + Request2Size(8 * 2) - 8) == 64
      && !TagsOk(SetUsedChunk(h.t, p, Request2Size(big)), h.y.(chunks := chunks))
  {
    var big := 0x8000_0000_0000_0000;
    assert Sum(Elements(2, [big, big], false)) == WORD + 32 by {
      assert Elements(2, [big, big], false) == [TrueSize(big), TrueSize(big)] by {
        hide TrueSize;
        assert Elements(1, [big, big], false) == [TrueSize(big)];
      }
      hide TrueSize;
      SumOne(TrueSize(big));
      PartsSum([TrueSize(big)], TrueSize(big));
    }
    hide Sum, Elements;
    var t' := SetUsedChunk(h.t, p, Request2Size(big));
    assert p in h.y.chunks && 0 < p < h.y.top;
    if TagsOk(t', h.y.(chunks := chunks)) {
      EndsByTop(t', h.y.(chunks := chunks), p);
    }
  }
}
