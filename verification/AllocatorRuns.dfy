/**
 Whole runs of a program that uses the allocator: any sequence of requests, where only pointers that
 are still held are freed or resized, and of stores into what they point to. What the program holds
 after each step follows from the step, and what it has stored stays.
 */
module AllocatorRuns {
  import opened PowersOfTwo
  import opened TrieWalk
  import opened Bins
  import opened BoundaryTags
  import opened HeapView
  import opened HeapSteps
  import opened Requests
  import opened Alignment
  import opened Parcels
  import opened CanonicalLayout
  import opened TrimOrder
  import opened Payloads
  import opened Stores
  import opened Handing
  import opened Dlmalloc

  datatype Op =
    | Malloc(bytes: nat)
    | Free(mem: int)
    | Realloc(mem: int, bytes: nat)
    | ReallocInPlace(mem: int, bytes: nat)
    | Memalign(alignment: nat, bytes: nat)
    | Independent(n: nat, sizes: seq<nat>, same: bool, given: bool)
    | BulkFree(mems: seq<int>)
    | Trim(pad: nat)
    | Store(w: int, value: int, head: Head)

  /** A request, what MORECORE can give at that moment, and whether it takes memory back. */
  datatype Step = Step(op: Op, sys: Morecore, gives: bool)

  /**
   Arguments of type `size_t`; alignments up to the largest power of two; independent elements with
   a total below 2^64.
   */
  predicate WordSized(op: Op) {
    match op
    case Malloc(bytes) => bytes <= MAX_SIZE_T
    case Free(mem) => true
    case Realloc(mem, bytes) => bytes <= MAX_SIZE_T
    case ReallocInPlace(mem, bytes) => bytes <= MAX_SIZE_T
    case Memalign(alignment, bytes) => alignment <= 0x8000_0000_0000_0000 && bytes <= MAX_SIZE_T
    case Independent(n, sizes, same, given) =>
      && Words(sizes) && (n > 0 ==> if same then sizes != [] else n <= |sizes|)
      && Total(n, sizes, same, given) < WORD
    case BulkFree(mems) => true
    case Trim(pad) => pad <= MAX_SIZE_T
    case Store(w, value, head) => w % 8 == 0
  }

  /** The break starts at `start` throughout, and the segment stays below the size bound. */
  predicate Within(s: Step, start: nat) {
    WordSized(s.op) && s.sys.start == start && s.sys.limit < SIZE_BOUND + start
  }

  /** Different pointers, all of them held. */
  predicate Freeable(mems: seq<int>, live: map<int, nat>) {
    DistinctPointers(mems) && forall i :: 0 <= i < |mems| && mems[i] != 0 ==> mems[i] in live
  }

  /** Whether a step does something: the program may ask for it, and the allocator can do it. */
  ghost predicate Serves(was: Snapshot, s: Step, live: map<int, nat>)
    requires WordSized(s.op)
  {
    match s.op
    case Malloc(bytes) => CanServe(was, RequestedSize(bytes), s.sys)
    case Free(mem) => mem in live
    case Realloc(mem, bytes) => mem in live && CanRealloc(was, mem, bytes, s.sys)
    case ReallocInPlace(mem, bytes) =>
      mem in live && bytes < MAX_REQUEST && Request2Size(bytes) <= Room(was.heap, mem - 16)
    case Memalign(alignment, bytes) => exists a :: RoundedTo(alignment, a) && CanAlign(was, a, bytes, s.sys)
    case Independent(n, sizes, same, given) => CanParcel(was, n, sizes, same, given, s.sys)
    case BulkFree(mems) => Freeable(mems, live)
    case Trim(pad) => true
    case Store(w, value, head) => exists mem :: Owns(live, mem, w)
  }

  ghost predicate Owns(live: map<int, nat>, mem: int, w: int) {
    mem in live && mem <= w < mem + live[mem]
  }

  /** One pointer more, to `bytes` bytes. */
  ghost predicate OneMore(live: map<int, nat>, now: map<int, nat>, mem: int, bytes: nat) {
    mem !in live && now == live[mem := bytes]
  }

  ghost predicate AlignedMore(live: map<int, nat>, now: map<int, nat>, mem: int, a: nat, alignment: nat, bytes: nat) {
    RoundedTo(alignment, a) && a > 0 && mem % a == 0 && OneMore(live, now, mem, bytes)
  }

  /** Some different pointers more, one for each of `bytes`. */
  ghost predicate SomeMore(live: map<int, nat>, now: map<int, nat>, ptrs: seq<int>, bytes: seq<nat>) {
    && |ptrs| == |bytes| && (forall i :: 0 <= i < |ptrs| ==> ptrs[i] !in live)
    && (forall i, j :: 0 <= i < j < |ptrs| ==> ptrs[i] != ptrs[j])
    && now == Handed(live, ptrs, bytes)
  }

  /** The pointer `was` is `mem` now, with room for `bytes` bytes. */
  ghost predicate Replaced(live: map<int, nat>, now: map<int, nat>, was: int, mem: int, bytes: nat) {
    was in live && (mem == was || mem !in live) && now == (live - {was})[mem := bytes]
  }

  /** What the program holds after a request, if it was served: exactly what it asked for has changed. */
  ghost predicate Follows(op: Op, live: map<int, nat>, now: map<int, nat>)
    requires WordSized(op)
  {
    match op
    case Malloc(bytes) => exists mem :: OneMore(live, now, mem, bytes)
    case Free(mem) => now == live - {mem}
    case Realloc(was, bytes) => exists mem :: Replaced(live, now, was, mem, bytes)
    case ReallocInPlace(was, bytes) => Replaced(live, now, was, was, bytes)
    case Memalign(alignment, bytes) => exists mem, a :: AlignedMore(live, now, mem, a, alignment, bytes)
    case Independent(n, sizes, same, given) =>
      if n == 0 && given then now == live
      else exists ptrs :: SomeMore(live, now, ptrs, AllAsked(n, sizes, same, given))
    case BulkFree(mems) => now == live - Pointers(mems)
    case Trim(pad) => now == live
    case Store(w, value, head) => now == live
  }

  /* --------------------------------- from state to state --------------------------------- */

  const ALIGNED_SLACK: nat := MIN_CHUNK_SIZE + 1

  /** The new pointer's chunk, where nothing was in use. */
  ghost predicate GotChunk(
    h: Heap, h': Heap, live: map<int, nat>, now: map<int, nat>, mem: int, n: nat, bytes: nat, slack: nat) {
    && OneMore(live, now, mem, bytes) && Gained(h, h', mem - 16, n)
    && RequestedSize(bytes) <= n < RequestedSize(bytes) + slack
  }

  /** The chunk of a pointer that was resized, in place or elsewhere. */
  ghost predicate MovedChunk(
    h: Heap, h': Heap, live: map<int, nat>, now: map<int, nat>, was: int, mem: int, n: nat, bytes: nat) {
    && Replaced(live, now, was, mem, bytes) && Moved(h, h', was - 16, mem - 16, n)
    && RequestedSize(bytes) <= n < RequestedSize(bytes) + MIN_CHUNK_SIZE
  }

  /** The chunks of independent elements, and of the pointer array. */
  ghost predicate CutUp(
    op: Op, h: Heap, h': Heap, live: map<int, nat>, now: map<int, nat>, ptrs: seq<int>, marray: int,
    first: int, parts: seq<nat>)
    requires op.Independent? && WordSized(op)
  {
    && SomeMore(live, now, AllPointers(ptrs, marray, op.given), AllAsked(op.n, op.sizes, op.same, op.given))
    && Parceled(h, h', first, parts)
    && if op.n > 0 then Laid(Elements(op.n, op.sizes, op.same), op.given, 8 * op.n, first, parts, ptrs, marray)
       else |parts| == 1 && 32 <= parts[0] < 64 && marray == first + 16 && ptrs == []
  }

  /** What is in use after a step that was served: exactly what was asked for has changed. */
  ghost predicate UseFollows(op: Op, h: Heap, h': Heap, live: map<int, nat>, now: map<int, nat>)
    requires WordSized(op)
  {
    match op
    case Malloc(bytes) => exists mem, n :: GotChunk(h, h', live, now, mem, n, bytes, MIN_CHUNK_SIZE)
    case Free(mem) => Freed(h, h', mem - 16)
    case Realloc(was, bytes) => exists mem, n :: MovedChunk(h, h', live, now, was, mem, n, bytes)
    case ReallocInPlace(was, bytes) => exists n :: MovedChunk(h, h', live, now, was, was, n, bytes)
    case Memalign(alignment, bytes) =>
      exists mem, n :: GotChunk(h, h', live, now, mem, n, bytes, ALIGNED_SLACK)
    case Independent(n, sizes, same, given) =>
      if n == 0 && given then SameUse(h, h')
      else exists ptrs, marray, first, parts :: CutUp(op, h, h', live, now, ptrs, marray, first, parts)
    case BulkFree(mems) => FreedAll(h, h', Pointers(mems))
    case Trim(pad) => SameUse(h, h')
    case Store(w, value, head) => SameUse(h, h')
  }

  /** Where top ends, and when it is trimmed, after a step that was served. */
  ghost predicate EndFollows(s: Step, was: Snapshot, now: Snapshot)
    requires WordSized(s.op)
  {
    var top := now.heap.y.top;
    match s.op
    case Malloc(bytes) => LimitOf(now) == ServedEnd(was, RequestedSize(bytes), s.sys)
    case Free(mem) => LimitOf(now) == FreedEnd(LimitOf(was), was.heap, mem - 16, top, s.gives)
    case Realloc(mem, bytes) => LimitOf(now) == ReallocEnd(was, mem, bytes, s.sys, s.gives, top)
    case ReallocInPlace(mem, bytes) => LimitOf(now) == LimitOf(was)
    case Memalign(alignment, bytes) =>
      exists a :: RoundedTo(alignment, a) && LimitOf(now) == AlignedEnd(was, a, bytes, s.sys)
    case Independent(n, sizes, same, given) => LimitOf(now) == ParceledEnd(was, n, sizes, same, given, s.sys)
    case BulkFree(mems) =>
      LimitOf(now) ==
        if top == 0 then LimitOf(was) else Trimmed(TopWithout(was.heap, Pointers(mems)), LimitOf(was), s.gives)
    case Trim(pad) =>
      top == was.heap.y.top
      && LimitOf(now) == if top == 0 then LimitOf(was) else PadTrimmed(top, LimitOf(was), pad, s.gives)
    case Store(w, value, head) => LimitOf(now) == LimitOf(was)
  }

  /** The segment stays where it is, and the footprint limit is not touched. */
  ghost predicate Settled(was: Snapshot, now: Snapshot, start: nat) {
    && now.footprintLimit == was.footprintLimit
    && if was.heap.y.top != 0 then now.heap.y.top != 0 && now.segBase == was.segBase
       else now.heap.y.top != 0 ==> now.segBase == start
  }

  /** The state after a step that was served. */
  ghost predicate StateFollows(s: Step, was: Snapshot, now: Snapshot, live: map<int, nat>, held: map<int, nat>)
    requires WordSized(s.op)
  {
    Settled(was, now, s.sys.start) && UseFollows(s.op, was.heap, now.heap, live, held) && EndFollows(s, was, now)
  }

  /* ------------------------------------ the bytes ------------------------------------ */

  /** Byte `k` of a word. */
  function ByteOf(value: int, k: nat): int {
    value / Pow2(8 * k) % 256
  }

  /** The value of the first `n` bytes. */
  function Joined(value: int, n: nat): int {
    if n == 0 then 0 else Joined(value, n - 1) + Pow2(8 * (n - 1)) * ByteOf(value, n - 1)
  }

  /** Low byte first, the bytes are the word. */
  lemma {:induction false} BytesJoin(value: int, n: nat)
    ensures Joined(value, n) == value % Pow2(8 * n)
  {
    if n > 0 {
      BytesJoin(value, n - 1);
      var p, q := Pow2(8 * (n - 1)), value / Pow2(8 * (n - 1));
      Pow2Add(8 * (n - 1), 8);
      NextByte(value, p, q);
    }
  }

  lemma NextByte(value: int, p: nat, q: int)
    requires p > 0 && q == value / p
    ensures value % p + p * (q % 256) == value % (p * 256)
  {
    assert value == p * q + value % p && q == 256 * (q / 256) + q % 256;
    assert p * q == p * (256 * (q / 256)) + p * (q % 256);
    assert p * (256 * (q / 256)) == (p * 256) * (q / 256);
    MulMono(p, q % 256, 255);
    ModUnique(value, p * 256, q / 256, value % p + p * (q % 256));
  }

  lemma ModUnique(x: int, m: nat, q: int, r: int)
    requires m > 0 && x == m * q + r && 0 <= r < m
    ensures x % m == r
  {
    var q' := x / m;
    assert x == m * q' + x % m;
    if q < q' {
      MulMono(m, q + 1, q');
    } else if q' < q {
      MulMono(m, q' + 1, q);
    }
  }

  /** The first `n` bytes of a word are at `w`. */
  function StoredBytes(payload: map<int, int>, w: int, value: int, n: nat): map<int, int> {
    if n == 0 then payload else StoredBytes(payload, w, value, n - 1)[w + n - 1 := ByteOf(value, n - 1)]
  }

  predicate Overwrites(op: Op, a: int) {
    op.Store? && op.w <= a < op.w + 8
  }

  /** The first bytes behind `was`, as many as were asked for before and now, are behind `mem`. */
  ghost predicate BytesMoved(
    live: map<int, nat>, was: int, mem: int, bytes: nat, before: map<int, int>, after: map<int, int>) {
    was in live && forall a {:trigger ByteAt(after, a)} ::
      mem <= a < mem + live[was] && a < mem + bytes ==> ByteAt(after, a) == ByteAt(before, was + (a - mem))
  }

  /** What a step leaves alone: all bytes behind pointers that are held before and after it. */
  ghost predicate BytesKept(
    op: Op, live: map<int, nat>, now: map<int, nat>, before: map<int, int>, after: map<int, int>) {
    forall mem, a :: Owns(live, mem, a) && Owns(now, mem, a) && !Overwrites(op, a) ==>
      ByteAt(after, a) == ByteAt(before, a)
  }

  /** What a step that was served did to the bytes that the program can see. */
  ghost predicate BytesFollow(
    op: Op, live: map<int, nat>, now: map<int, nat>, before: map<int, int>, after: map<int, int>) {
    && BytesKept(op, live, now, before, after)
    && (op.Store? ==> forall k: nat :: k < 8 ==> ByteAt(after, op.w + k) == ByteOf(op.value, k))
    && (op.Realloc? ==> exists mem ::
          Replaced(live, now, op.mem, mem, op.bytes) && BytesMoved(live, op.mem, mem, op.bytes, before, after))
  }

  /**
   What a step does: it is served exactly if it can be, and then pointers, bytes and state change as
   was asked; otherwise nothing changes.
   */
  ghost predicate Outcome(
    s: Step, was: Snapshot, now: Snapshot, live: map<int, nat>, held: map<int, nat>, before: map<int, int>,
    after: map<int, int>, served: bool)
    requires WordSized(s.op)
  {
    && (served <==> Serves(was, s, live))
    && if served then
         && Follows(s.op, live, held) && BytesFollow(s.op, live, held, before, after)
         && StateFollows(s, was, now, live, held)
       else held == live && after == before && now == was
  }

  lemma SameBytes(op: Op, live: map<int, nat>, now: map<int, nat>, bytes: map<int, int>)
    ensures BytesKept(op, live, now, bytes, bytes)
  {
  }

  lemma {:induction false} WordStored(before: map<int, int>, w: int, value: int, n: nat)
    ensures var after := StoredBytes(before, w, value, n);
      && (forall k: nat :: k < n ==> ByteAt(after, w + k) == ByteOf(value, k))
      && forall a :: !(w <= a < w + n) ==> ByteAt(after, a) == ByteAt(before, a)
  {
    hide ByteOf;
    if n > 0 {
      WordStored(before, w, value, n - 1);
    }
  }

  /** Different pointers' bytes do not overlap. */
  ghost predicate Apart(live: map<int, nat>) {
    forall p: int, q: int :: p in live && q in live && p < q ==> p + live[p] < q
  }

  lemma TwoApart(live: map<int, nat>, p: int, q: int)
    requires Apart(live) && p in live && q in live && p != q
    ensures p + live[p] < q || q + live[q] < p
  {
    if q < p {
      assert q + live[q] < p;
    }
  }

  /** A pointer that was copied to is not in the way of the others. */
  lemma CopyKeeps(
    live: map<int, nat>, now: map<int, nat>, was: int, mem: int, bytes: nat, n: int, before: map<int, int>,
    after: map<int, int>)
    requires Replaced(live, now, was, mem, bytes) && Apart(now) && Copied(before, after, was, mem, n)
    requires n <= bytes && (n >= live[was] || n >= bytes)
    ensures BytesKept(Realloc(was, bytes), live, now, before, after)
    ensures BytesMoved(live, was, mem, bytes, before, after)
  {
    hide ByteAt, Copied;
    forall q, a | Owns(live, q, a) && Owns(now, q, a)
      ensures ByteAt(after, a) == ByteAt(before, a)
    {
      CopiedByte(before, after, was, mem, n, a);
      assert mem in now && q in now;
      if q != mem {
        TwoApart(now, q, mem);
      }
    }
    forall a | mem <= a < mem + live[was] && a < mem + bytes
      ensures ByteAt(after, a) == ByteAt(before, was + (a - mem))
    {
      CopiedByte(before, after, was, mem, n, a);
    }
  }

  lemma CopiedByte(before: map<int, int>, after: map<int, int>, from: int, to: int, n: int, a: int)
    requires Copied(before, after, from, to, n)
    ensures ByteAt(after, a) == if to <= a < to + n then ByteAt(before, from + (a - to)) else ByteAt(before, a)
  {
  }

  /* --------------------------------- pointers and chunks --------------------------------- */

  lemma HoldsMoved(h: Heap, h': Heap, live: map<int, nat>, was: int, mem: int, bytes: nat, n: nat)
    requires Holds(h, live) && Moved(h, h', was - 16, mem - 16, n)
    requires mem != 0 && mem % 16 == 0 && bytes + 8 <= n && (was in live || InUse(h, was - 16) == 0)
    ensures Holds(h', (live - {was})[mem := bytes])
  {
    hide InUse;
  }

  lemma HoldsGained(h: Heap, h': Heap, live: map<int, nat>, mem: int, bytes: nat, n: nat)
    requires Holds(h, live) && Gained(h, h', mem - 16, n) && mem != 0 && mem % 16 == 0 && bytes + 8 <= n
    ensures Holds(h', live[mem := bytes])
  {
    hide InUse;
  }

  lemma HoldsFreed(h: Heap, h': Heap, live: map<int, nat>, mem: int)
    requires Holds(h, live) && Freed(h, h', mem - 16)
    ensures Holds(h', live - {mem})
  {
    hide InUse;
  }

  lemma HeldIsUsed(h: Heap, live: map<int, nat>, mem: int)
    requires Holds(h, live) && mem in live
    ensures mem != 0 && mem % 16 == 0 && Has(h, mem - 16).Used?
  {
    hide Has;
    assert live[mem] + 8 <= InUse(h, mem - 16);
  }

  lemma EnoughRoom(m: MallocState, mem: int, bytes: nat, n: nat)
    requires m.Valid() && InUse(m.View(), mem - 16) == n >= RequestedSize(bytes)
    ensures bytes + 8 <= n
  {
    hide MallocState.Valid, Has, PadRequest;
    if bytes < MAX_REQUEST {
      Request2SizeIsLeast(bytes);
    }
    m.UsedFits(mem - 16);
  }

  lemma TookIsThere(h: Heap, h': Heap, p: int, n: nat)
    requires Took(h, h', p, n)
    ensures Gained(h, h', p, n) && InUse(h', p) == n
  {
  }

  /** What different pointers stand for never overlaps. */
  lemma LiveApart(m: MallocState, live: map<int, nat>, p: int, q: int)
    requires m.Valid() && Holds(m.View(), live) && p in live && q in live && p < q
    ensures p + live[p] < q
  {
    hide MallocState.Valid, Has;
    HeldIsUsed(m.View(), live, p);
    HeldIsUsed(m.View(), live, q);
    TagsOfValid(m, p - 16);
    UsedInChunks(m.View(), p - 16);
    UsedInChunks(m.View(), q - 16);
    ChunkExtent(m.View(), p - 16, q - 16);
  }

  lemma MovedIsThere(h: Heap, h': Heap, p: int, q: int, n: nat)
    requires Moved(h, h', p, q, n)
    ensures InUse(h', q) == n
  {
  }

  lemma HeldApart(m: MallocState, live: map<int, nat>)
    requires m.Valid() && Holds(m.View(), live)
    ensures Apart(live)
  {
    hide MallocState.Valid, Holds;
    forall p: int, q: int | p in live && q in live && p < q
      ensures p + live[p] < q
    {
      LiveApart(m, live, p, q);
    }
  }

  /** Where nothing is in use, nothing is held. */
  lemma NotHeld(h: Heap, live: map<int, nat>, mem: int)
    requires Holds(h, live) && InUse(h, mem - 16) == 0
    ensures mem !in live
  {
    hide InUse;
  }

  lemma GainedIsNew(h: Heap, h': Heap, p: int, n: nat)
    requires Gained(h, h', p, n)
    ensures InUse(h, p) == 0
  {
  }

  lemma MovedIsNew(h: Heap, h': Heap, p: int, q: int, n: nat)
    requires Moved(h, h', p, q, n)
    ensures q == p || InUse(h, q) == 0
  {
  }

  /** The parts of a new aggregate were not held. */
  lemma ParcelsAreNew(
    h: Heap, h': Heap, live: map<int, nat>, first: int, parts: seq<nat>, ptrs: seq<int>, bytes: seq<nat>)
    requires Holds(h, live) && Parceled(h, h', first, parts) && Fitting(first, parts, ptrs, bytes)
    ensures SomeMore(live, Handed(live, ptrs, bytes), ptrs, bytes)
  {
    hide InUse, Handed, Sum;
    PtrsDiffer(first, parts, ptrs, bytes);
    forall i | 0 <= i < |ptrs|
      ensures ptrs[i] !in live
    {
      PartInside(first, parts, i);
      assert ptrs[i] - 16 == StartOf(first, parts, i);
      NotHeld(h, live, ptrs[i]);
    }
  }

  lemma PartInside(first: int, parts: seq<nat>, i: nat)
    requires i < |parts| && Positive(parts)
    ensures first <= StartOf(first, parts, i) < first + Sum(parts)
  {
    hide Sum;
    StartsRise(first, parts, i, |parts|);
    assert parts[..|parts|] == parts;
  }

  lemma NothingHeld(m: MallocState)
    requires m.Valid() && m.top == 0
    ensures Holds(m.View(), map[])
  {
  }

  lemma TagsOfValid(m: MallocState, p: int)
    requires m.Valid() && Has(m.View(), p).Used?
    ensures TagsOk(m.View().t, m.View().y)
  {
  }

  /** `ialloc`, and the pointers that the program holds from then on. */
  method DoIndependent(
    m: MallocState, n: nat, sizes: seq<nat>, same: bool, given: bool, sys: Morecore, live: map<int, nat>)
      returns (served: bool, now: map<int, nat>)
    requires m.Valid() && m.Bounded(sys) && WordSized(Independent(n, sizes, same, given)) && Holds(m.View(), live)
    modifies m
    ensures m.Valid() && m.faults == old(m.faults) && Holds(m.View(), now)
    ensures m.payload == old(m.payload) && Settled(old(m.Snap()), m.Snap(), sys.start)
    ensures served <==> old(CanParcel(m.Snap(), n, sizes, same, given, sys))
    ensures if served then
        && Follows(Independent(n, sizes, same, given), live, now)
        && UseFollows(Independent(n, sizes, same, given), old(m.View()), m.View(), live, now)
        && m.Limit() == old(ParceledEnd(m.Snap(), n, sizes, same, given, sys))
      else now == live && m.Snap() == old(m.Snap())
  {
    hide MallocState.Valid, CanParcel, Holds, Has, Parceled, Laid, Handed, Fitting, TrueSize, Sum, Elements;
    hide SomeMore, ParceledEnd, InUse;
    ghost var h := m.View();
    var short, ptrs, marray; ghost var first, parts;
    served, short, ptrs, marray, first, parts := m.Ialloc(n, sizes, same, given, sys);
    now := live;
    if served && n > 0 {
      LaidLengths(n, sizes, same, given, first, parts, ptrs, marray);
      ParcelsAligned(m, h, first, parts);
      LaidFits(n, sizes, same, given, first, parts, ptrs, marray);
      var all := AllPointers(ptrs, marray, given);
      HoldsParceled(h, m.View(), live, first, parts, all, AllAsked(n, sizes, same, given));
      ParcelsAreNew(h, m.View(), live, first, parts, all, AllAsked(n, sizes, same, given));
      now := Handed(live, all, AllAsked(n, sizes, same, given));
      assert CutUp(Independent(n, sizes, same, given), h, m.View(), live, now, ptrs, marray, first, parts);
    } else if served && !given {
      ParcelsAligned(m, h, first, parts);
      OneFits(first, parts, marray);
      HoldsParceled(h, m.View(), live, first, parts, [marray], [0]);
      ParcelsAreNew(h, m.View(), live, first, parts, [marray], [0]);
      assert AllAsked(n, sizes, same, given) == [0];
      now := Handed(live, [marray], [0]);
      assert AllPointers([], marray, given) == [marray];
      assert CutUp(Independent(n, sizes, same, given), h, m.View(), live, now, [], marray, first, parts);
    }
  }

  lemma LaidLengths(
    n: nat, sizes: seq<nat>, same: bool, given: bool, first: int, parts: seq<nat>, ptrs: seq<int>, marray: int)
    requires n > 0 && (if same then sizes != [] else n <= |sizes|)
    requires Laid(Elements(n, sizes, same), given, 8 * n, first, parts, ptrs, marray)
    ensures parts != [] && parts[0] > 0 && |AllPointers(ptrs, marray, given)| == |AllAsked(n, sizes, same, given)|
  {
    hide Sum, TrueSize, Elements;
    var es := Elements(n, sizes, same);
    ElementsAre(n, sizes, same);
    if n > 1 {
      assert parts[0] == parts[..n - 1][0] == es[..n - 1][0];
    }
  }

  lemma OneFits(first: int, parts: seq<nat>, marray: int)
    requires |parts| == 1 && parts[0] >= 32 && marray == first + 16 && first > 0 && first % 16 == 0
    ensures Fitting(first, parts, [marray], [0])
  {
  }

  /** The first parcel is a chunk in use, so it is aligned. */
  lemma ParcelsAligned(m: MallocState, h: Heap, first: int, parts: seq<nat>)
    requires m.Valid() && Parceled(h, m.View(), first, parts) && parts != [] && parts[0] > 0
    ensures first > 0 && first % 16 == 0
  {
    hide MallocState.Valid;
    assert PartAt(first, parts, first, InUse(h, first)) == parts[0];
    assert InUse(m.View(), first) > 0;
    TagsOfValid(m, first);
    UsedAligned(h, m.View(), first, parts);
  }

  /** `bulk_free` of pointers that are held. */
  method DoBulkFree(m: MallocState, mems: seq<int>, gives: bool, live: map<int, nat>) returns (now: map<int, nat>)
    requires m.Valid() && Holds(m.View(), live) && Freeable(mems, live)
    modifies m
    ensures m.Valid() && m.faults == old(m.faults) && Holds(m.View(), now) && now == live - Pointers(mems)
    ensures m.payload == old(m.payload) && Settled(old(m.Snap()), m.Snap(), 0)
    ensures FreedAll(old(m.View()), m.View(), Pointers(mems)) && (m.top == 0 <==> old(m.top) == 0)
    ensures m.Limit() ==
      if m.top == 0 then old(m.Limit()) else Trimmed(TopWithout(old(m.View()), Pointers(mems)), old(m.Limit()), gives)
  {
    hide MallocState.Valid, Holds, Has, FreedAll, DistinctPointers, Trimmed, TopWithout;
    ghost var h := m.View();
    var pointers := new int[|mems|](i requires 0 <= i < |mems| => mems[i]);
    assert pointers[..] == mems;
    forall i | 0 <= i < |mems| && mems[i] != 0
      ensures m.ChunkAt(mems[i] - 16).Used?
    {
      HeldIsUsed(h, live, mems[i]);
    }
    var unfreed := m.BulkFree(pointers, gives);
    var all := set x | x in mems && x != 0;
    HoldsFreedAll(h, m.View(), live, all);
    now := live - all;
  }

  /** The program stores a word where a pointer it holds points. */
  method DoStore(m: MallocState, mem: int, w: int, value: int, head: Head, ghost live: map<int, nat>)
    requires m.Valid() && Holds(m.View(), live) && Owns(live, mem, w)
    modifies m`tags, m`links, m`payload
    ensures m.Valid() && Holds(m.View(), live) && m.payload == StoredBytes(old(m.payload), w, value, 8)
    ensures m.tags == StoredTags(old(m.tags), w, value, head) && m.links == StoredLinks(old(m.links), w, value)
    ensures SameUse(old(m.View()), m.View())
  {
    hide MallocState.Valid, Holds, Has, InPayload, HeapOk, BinsOk, StoredTags, StoredLinks, StoredBytes;
    HeldIsUsed(m.View(), live, mem);
    m.UsedInHand(mem - 16);
    InHeldPayload(m.View(), live, mem, w);
    StoreKeepsHeap(m.View(), {}, mem - 16, w, value, head);
    StoreKeepsLinks(m.View(), mem - 16, w, value, m.links);
    BinsFrame(m.BinView(), m.contents, StoredLinks(m.links, w, value));
    ghost var h := m.View();
    m.tags := StoredTags(m.tags, w, value, head);
    m.links := StoredLinks(m.links, w, value);
    m.payload := StoredBytes(m.payload, w, value, 8);
    assert m.View() == h.(t := m.tags);
    SameUseOf(h, m.View());
    HoldsSame(h, m.View(), live);
    m.InHandIsValid();
  }

  lemma InHeldPayload(h: Heap, live: map<int, nat>, mem: int, w: int)
    requires Holds(h, live) && Owns(live, mem, w)
    ensures InPayload(h, mem - 16, w)
  {
    hide Has;
    assert live[mem] + 8 <= InUse(h, mem - 16);
  }

  lemma SameUseOf(h: Heap, h': Heap)
    requires forall a :: Has(h', a) == Has(h, a)
    ensures SameUse(h, h')
  {
    hide Has;
  }

  method DoMalloc(m: MallocState, bytes: nat, sys: Morecore, live: map<int, nat>)
      returns (served: bool, now: map<int, nat>)
    requires m.Valid() && m.Bounded(sys) && bytes <= MAX_SIZE_T && Holds(m.View(), live)
    modifies m
    ensures m.Valid() && m.faults == old(m.faults) && Holds(m.View(), now)
    ensures m.payload == old(m.payload) && Settled(old(m.Snap()), m.Snap(), sys.start)
    ensures served <==> old(CanServe(m.Snap(), RequestedSize(bytes), sys))
    ensures if served then
        && Follows(Malloc(bytes), live, now) && UseFollows(Malloc(bytes), old(m.View()), m.View(), live, now)
        && m.Limit() == old(ServedEnd(m.Snap(), RequestedSize(bytes), sys))
      else now == live && m.Snap() == old(m.Snap())
  {
    hide MallocState.Valid, CanServe, Holds, Has, Gained, Took, RequestedSize, NothingFits, ServedEnd;
    now := live;
    ghost var h := m.View();
    var mem, n := m.DlMalloc(bytes, sys);
    served := mem != 0;
    if served {
      TookIsThere(h, m.View(), mem - 16, n);
      EnoughRoom(m, mem, bytes, n);
      HoldsGained(h, m.View(), live, mem, bytes, n);
      GainedIsNew(h, m.View(), mem - 16, n);
      NotHeld(h, live, mem);
      now := live[mem := bytes];
      assert OneMore(live, now, mem, bytes);
      assert GotChunk(h, m.View(), live, now, mem, n, bytes, MIN_CHUNK_SIZE);
    }
  }

  method DoMemalign(m: MallocState, alignment: nat, bytes: nat, sys: Morecore, live: map<int, nat>)
      returns (served: bool, now: map<int, nat>)
    requires m.Valid() && m.Bounded(sys) && WordSized(Memalign(alignment, bytes)) && Holds(m.View(), live)
    modifies m
    ensures m.Valid() && m.faults == old(m.faults) && Holds(m.View(), now)
    ensures m.payload == old(m.payload) && Settled(old(m.Snap()), m.Snap(), sys.start)
    ensures served <==> old(exists a :: RoundedTo(alignment, a) && CanAlign(m.Snap(), a, bytes, sys))
    ensures if served then
        && Follows(Memalign(alignment, bytes), live, now)
        && UseFollows(Memalign(alignment, bytes), old(m.View()), m.View(), live, now)
        && exists a :: RoundedTo(alignment, a) && m.Limit() == old(AlignedEnd(m.Snap(), a, bytes, sys))
      else now == live && m.Snap() == old(m.Snap())
  {
    hide MallocState.Valid, CanAlign, Holds, Has, Gained, Took, Request2Size, MemAligned, RoundedTo, CutOut, AlignedEnd;
    now := live;
    ghost var h := m.View();
    var mem, a, n, p, whole, got := m.InternalMemalign(alignment, bytes, sys);
    served := mem != 0;
    OneRounding(alignment, a);
    if served {
      Request2SizeIsLeast(bytes);
      HoldsGained(h, m.View(), live, mem, bytes, n);
      GainedIsNew(h, m.View(), mem - 16, n);
      NotHeld(h, live, mem);
      now := live[mem := bytes];
      assert AlignedMore(live, now, mem, a, alignment, bytes);
      assert GotChunk(h, m.View(), live, now, mem, n, bytes, ALIGNED_SLACK);
    }
  }

  /** An alignment is rounded in one way only. */
  lemma OneRounding(alignment: nat, a: nat)
    requires RoundedTo(alignment, a)
    ensures forall b :: RoundedTo(alignment, b) ==> b == a
  {
  }

  method DoRealloc(m: MallocState, was: int, bytes: nat, sys: Morecore, gives: bool, live: map<int, nat>)
      returns (served: bool, now: map<int, nat>)
    requires m.Valid() && m.Bounded(sys) && bytes <= MAX_SIZE_T && Holds(m.View(), live) && was in live
    modifies m
    ensures m.Valid() && m.faults == old(m.faults) && Holds(m.View(), now)
    ensures Settled(old(m.Snap()), m.Snap(), sys.start)
    ensures served <==> old(CanRealloc(m.Snap(), was, bytes, sys))
    ensures if served then
        && BytesFollow(Realloc(was, bytes), live, now, old(m.payload), m.payload)
        && UseFollows(Realloc(was, bytes), old(m.View()), m.View(), live, now)
        && m.Limit() == ReallocEnd(old(m.Snap()), was, bytes, sys, gives, m.top)
      else now == live && m.payload == old(m.payload) && m.Snap() == old(m.Snap())
  {
    hide MallocState.Valid, CanRealloc, Holds, Has, Moved, RequestedSize, Copied, InUse, BytesMoved;
    hide BytesKept, ReallocEnd;
    now, served := live, false;
    ghost var h, before := m.View(), m.payload;
    HeldIsUsed(h, live, was);
    HeldFits(h, live, was);
    var mem, n := m.DlRealloc(was, bytes, sys, gives);
    served := mem != 0;
    if served {
      MovedIsThere(h, m.View(), was - 16, mem - 16, n);
      EnoughRoom(m, mem, bytes, n);
      HoldsMoved(h, m.View(), live, was, mem, bytes, n);
      MovedIsNew(h, m.View(), was - 16, mem - 16, n);
      if mem != was {
        NotHeld(h, live, mem);
      }
      now := (live - {was})[mem := bytes];
      HeldApart(m, now);
      assert MovedChunk(h, m.View(), live, now, was, mem, n, bytes);
      CopyKeeps(live, now, was, mem, bytes, Dlmalloc.Least(bytes, InUse(h, was - 16) - 8), before, m.payload);
    }
  }

  lemma HeldFits(h: Heap, live: map<int, nat>, mem: int)
    requires Holds(h, live) && mem in live
    ensures live[mem] + 8 <= InUse(h, mem - 16)
  {
    hide InUse;
  }

  method DoReallocInPlace(m: MallocState, was: int, bytes: nat, live: map<int, nat>)
      returns (served: bool, now: map<int, nat>)
    requires m.Valid() && bytes <= MAX_SIZE_T && Holds(m.View(), live) && was in live
    modifies m
    ensures m.Valid() && m.faults == old(m.faults) && Holds(m.View(), now)
    ensures m.payload == old(m.payload) && Settled(old(m.Snap()), m.Snap(), 0) && old(m.top) != 0
    ensures served <==> bytes < MAX_REQUEST && Request2Size(bytes) <= old(Room(m.View(), was - 16))
    ensures if served then
        && Follows(ReallocInPlace(was, bytes), live, now)
        && UseFollows(ReallocInPlace(was, bytes), old(m.View()), m.View(), live, now) && m.Limit() == old(m.Limit())
      else now == live && m.Snap() == old(m.Snap())
  {
    hide MallocState.Valid, Holds, Has, Moved, Resized, Request2Size, Room;
    now, served := live, false;
    ghost var h := m.View();
    HeldIsUsed(h, live, was);
    m.UsedInHand(was - 16);
    m.InHandIsValid();
    var mem, n := m.DlReallocInPlace(was, bytes);
    served := mem != 0;
    if served {
      Request2SizeIsLeast(bytes);
      ResizedIsMoved(h, m.View(), was - 16, n);
      HoldsMoved(h, m.View(), live, was, mem, bytes, n);
      now := (live - {was})[mem := bytes];
      assert MovedChunk(h, m.View(), live, now, was, was, n, bytes);
    }
  }

  method DoFree(m: MallocState, mem: int, gives: bool, live: map<int, nat>) returns (now: map<int, nat>)
    requires m.Valid() && Holds(m.View(), live) && mem in live
    modifies m
    ensures m.Valid() && m.faults == old(m.faults) && Holds(m.View(), now) && now == live - {mem}
    ensures m.payload == old(m.payload) && Settled(old(m.Snap()), m.Snap(), 0) && old(m.top) != 0
    ensures Freed(old(m.View()), m.View(), mem - 16)
    ensures m.Limit() == FreedEnd(old(m.Limit()), old(m.View()), mem - 16, m.top, gives)
  {
    hide MallocState.Valid, Holds, Has, Freed, FreedEnd;
    ghost var h := m.View();
    HeldIsUsed(h, live, mem);
    m.UsedInHand(mem - 16);
    m.InHandIsValid();
    m.DlFree(mem, gives);
    HoldsFreed(h, m.View(), live, mem);
    now := live - {mem};
  }

  method DoTrim(m: MallocState, pad: nat, gives: bool, live: map<int, nat>)
    requires m.Valid() && Holds(m.View(), live)
    modifies m
    ensures m.Valid() && m.faults == old(m.faults) && Holds(m.View(), live) && SameUse(old(m.View()), m.View())
    ensures m.payload == old(m.payload) && Settled(old(m.Snap()), m.Snap(), 0) && m.top == old(m.top)
    ensures m.Limit() == if m.top == 0 then old(m.Limit()) else PadTrimmed(m.top, old(m.Limit()), pad, gives)
  {
    hide MallocState.Valid, Holds, SameUse, PadTrimmed;
    ghost var h := m.View();
    var done := m.DlMallocTrim(pad, gives);
    HoldsSame(h, m.View(), live);
  }

  /** A store, if it is behind a pointer that is held. */
  method DoStoreIfOwn(m: MallocState, w: int, value: int, head: Head, live: map<int, nat>) returns (served: bool)
    requires m.Valid() && Holds(m.View(), live)
    modifies m`tags, m`links, m`payload
    ensures m.Valid() && Holds(m.View(), live)
    ensures served <==> exists mem :: Owns(live, mem, w)
    ensures if served then
        && BytesFollow(Store(w, value, head), live, live, old(m.payload), m.payload)
        && SameUse(old(m.View()), m.View())
      else m.payload == old(m.payload) && m.Snap() == old(m.Snap())
  {
    hide MallocState.Valid, Holds, BytesKept, StoredBytes;
    served := false;
    if mem :| mem in live && mem <= w < mem + live[mem] {
      ghost var before := m.payload;
      assert Owns(live, mem, w);
      DoStore(m, mem, w, value, head, live);
      served := true;
      WordStored(before, w, value, 8);
      StoreKeeps(Store(w, value, head), live, before, m.payload);
    }
  }

  lemma StoreKeeps(op: Op, live: map<int, nat>, before: map<int, int>, after: map<int, int>)
    requires op.Store? && forall a :: !(op.w <= a < op.w + 8) ==> ByteAt(after, a) == ByteAt(before, a)
    ensures BytesKept(op, live, live, before, after)
  {
    hide ByteAt;
  }

  /** A request that can get a new chunk. */
  predicate Allocates(op: Op) {
    op.Malloc? || op.Realloc? || op.Memalign? || op.Independent?
  }

  method DoAllocation(m: MallocState, s: Step, live: map<int, nat>) returns (served: bool, now: map<int, nat>)
    requires m.Valid() && m.Bounded(s.sys) && WordSized(s.op) && Holds(m.View(), live) && Allocates(s.op)
    modifies m
    ensures m.Valid() && m.faults == old(m.faults) && Holds(m.View(), now)
    ensures Outcome(s, old(m.Snap()), m.Snap(), live, now, old(m.payload), m.payload, served)
  {
    hide MallocState.Valid, CanServe, CanAlign, CanRealloc, CanParcel, ServedEnd, ReallocEnd, AlignedEnd, ParceledEnd;
    hide Holds, Has, RequestedSize, Request2Size, Room, RoundedTo, BytesKept, BytesMoved, Replaced, OneMore;
    hide SomeMore, AlignedMore, AllAsked, Total, SameUse, GotChunk, MovedChunk, CutUp;
    now, served := live, false;
    match s.op {
      case Malloc(bytes) =>
        served, now := DoMalloc(m, bytes, s.sys, live);
        SameBytes(s.op, live, now, m.payload);
      case Realloc(was, bytes) =>
        if was in live {
          served, now := DoRealloc(m, was, bytes, s.sys, s.gives, live);
        }
      case Memalign(alignment, bytes) =>
        served, now := DoMemalign(m, alignment, bytes, s.sys, live);
        SameBytes(s.op, live, now, m.payload);
      case Independent(n, sizes, same, given) =>
        served, now := DoIndependent(m, n, sizes, same, given, s.sys, live);
        SameBytes(s.op, live, now, m.payload);
    }
  }

  method DoOther(m: MallocState, s: Step, live: map<int, nat>) returns (served: bool, now: map<int, nat>)
    requires m.Valid() && WordSized(s.op) && Holds(m.View(), live) && !Allocates(s.op)
    modifies m
    ensures m.Valid() && m.faults == old(m.faults) && Holds(m.View(), now)
    ensures Outcome(s, old(m.Snap()), m.Snap(), live, now, old(m.payload), m.payload, served)
  {
    hide MallocState.Valid, FreedEnd, PadTrimmed, Trimmed, TopWithout, MovedChunk, FreedAll;
    hide Holds, Has, Freed, RequestedSize, Request2Size, Room, BytesKept, BytesMoved, Replaced, StoredBytes, SameUse;
    now, served := live, false;
    match s.op {
      case Free(mem) =>
        if mem in live {
          now := DoFree(m, mem, s.gives, live);
          served := true;
          SameBytes(s.op, live, now, m.payload);
        }
      case ReallocInPlace(was, bytes) =>
        if was in live {
          served, now := DoReallocInPlace(m, was, bytes, live);
          SameBytes(s.op, live, now, m.payload);
        }
      case BulkFree(mems) =>
        if Freeable(mems, live) {
          now := DoBulkFree(m, mems, s.gives, live);
          served := true;
          SameBytes(s.op, live, now, m.payload);
        }
      case Trim(pad) =>
        DoTrim(m, pad, s.gives, live);
        served := true;
        SameBytes(s.op, live, now, m.payload);
      case Store(w, value, head) =>
        served := DoStoreIfOwn(m, w, value, head, live);
    }
  }

  /** One request, for which a pointer that is not held is left alone, as a correct program does. */
  method Do(m: MallocState, s: Step, live: map<int, nat>) returns (served: bool, now: map<int, nat>)
    requires m.Valid() && m.Bounded(s.sys) && WordSized(s.op) && Holds(m.View(), live)
    modifies m
    ensures m.Valid() && m.faults == old(m.faults) && Holds(m.View(), now)
    ensures Outcome(s, old(m.Snap()), m.Snap(), live, now, old(m.payload), m.payload, served)
    ensures Settled(old(m.Snap()), m.Snap(), s.sys.start)
  {
    hide MallocState.Valid, Holds, Serves, Follows, BytesFollow, UseFollows, EndFollows;
    if Allocates(s.op) {
      served, now := DoAllocation(m, s, live);
    } else {
      served, now := DoOther(m, s, live);
    }
  }

  /* -------------------------------------- runs -------------------------------------- */

  /**
   A run: the state of the allocator and what the program held and saw before each step and at the
   end, and whether each step was served.
   */
  datatype Trace = Trace(
    states: seq<Snapshot>, live: seq<map<int, nat>>, bytes: seq<map<int, int>>, served: seq<bool>)
  {
    predicate Shaped() {
      |states| == |live| == |bytes| == |served| + 1
    }

    function Then(state: Snapshot, now: map<int, nat>, seen: map<int, int>, r: bool): Trace {
      Trace(states + [state], live + [now], bytes + [seen], served + [r])
    }
  }

  /** The heap fills its segment, and the footprint is that of the segment. */
  ghost predicate Fills(state: Snapshot) {
    if state.heap.y.top == 0 then state.footprint == 0
    else
      && HeapOk(state.heap, {}) && state.footprint == state.segSize
      && state.heap.y.base == state.segBase + AlignOffset(state.segBase)
      && state.segBase + state.segSize == LimitOf(state).at + TOP_FOOT_SIZE
  }

  /** The heap is intact, and the pointers held are exactly the chunks in use, large enough and apart. */
  ghost predicate Sound(state: Snapshot, live: map<int, nat>) {
    Fills(state) && Holds(state.heap, live) && Apart(live)
  }

  /**
   What is in use, where the segment starts and where top ends decide what can be served: of two states
   that agree on these, whatever happened before, both can serve a request or neither.
   */
  lemma ServiceDetermined(was: Snapshot, other: Snapshot)
    requires Fills(was) && Fills(other) && was.heap.y.top != 0 && other.heap.y.top != 0
    requires SameUse(was.heap, other.heap) && was.segBase == other.segBase && LimitOf(was) == LimitOf(other)
    requires was.footprintLimit == other.footprintLimit
    ensures forall nb, sys :: CanServe(was, nb, sys) <==> CanServe(other, nb, sys)
  {
    hide TagsOk, InUse, SystemSize, AlignOffset, Has;
    var h, h' := was.heap, other.heap;
    LayoutIsCanonical(h, h');
    assert h.y == h'.y;
    forall nb: nat
      ensures NothingFits(h, nb) <==> NothingFits(h', nb)
    {
      SameRoom(h, h', nb);
    }
    hide NothingFits;
    assert was.segSize == other.segSize;
  }

  lemma SameRoom(h: Heap, h': Heap, nb: nat)
    requires h.y == h'.y && forall a :: Has(h, a) == Has(h', a)
    ensures NothingFits(h, nb) <==> NothingFits(h', nb)
  {
    hide Has;
  }

  /** Step `i` had its outcome; a step beyond the bounds of the model was skipped. */
  ghost predicate StepFollows(steps: seq<Step>, start: nat, t: Trace, i: nat)
    requires t.Shaped() && i < |t.served| <= |steps|
  {
    if Within(steps[i], start) then
      Outcome(
        steps[i], t.states[i], t.states[i + 1], t.live[i], t.live[i + 1], t.bytes[i], t.bytes[i + 1], t.served[i])
    else
      && !t.served[i] && t.states[i + 1] == t.states[i]
      && t.live[i + 1] == t.live[i] && t.bytes[i + 1] == t.bytes[i]
  }

  ghost predicate Ran(steps: seq<Step>, start: nat, t: Trace) {
    && t.Shaped() && |t.served| <= |steps| && t.live[0] == map[]
    && (forall i: nat :: i < |t.live| ==> Sound(t.states[i], t.live[i]))
    && forall i: nat :: i < |t.served| ==> StepFollows(steps, start, t, i)
  }

  lemma RanOn(
    steps: seq<Step>, start: nat, t: Trace, r: bool, state: Snapshot, now: map<int, nat>, after: map<int, int>)
    requires Ran(steps, start, t) && |t.served| < |steps| && Sound(state, now)
    requires var i := |t.served|;
      if Within(steps[i], start) then
        Outcome(steps[i], t.states[i], state, t.live[i], now, t.bytes[i], after, r)
      else !r && now == t.live[i] && after == t.bytes[i] && state == t.states[i]
    ensures Ran(steps, start, t.Then(state, now, after, r))
  {
    hide Within, Outcome, Sound;
    var more := t.Then(state, now, after, r);
    forall i: nat | i < |more.served|
      ensures StepFollows(steps, start, more, i)
    {
      if i < |t.served| {
        assert StepFollows(steps, start, t, i);
      }
    }
  }

  /** The state of an allocator, and of one that was never used. */
  lemma SoundState(m: MallocState, live: map<int, nat>)
    requires m.Valid() && Holds(m.View(), live)
    ensures Sound(m.Snap(), live)
  {
    hide Holds, HeapOk, BinsOk;
    HeldApart(m, live);
  }

  /**
   A run from a zeroed allocator; steps beyond the bounds of the model are skipped. At every moment the
   heap is intact and the pointers held are exactly the chunks in use: aligned, large enough, and
   apart. No run-time check ever fails. Every step is served exactly if it can be, and changes what it
   was asked to change and nothing else.
   */
  method Run(m: MallocState, start: nat, steps: seq<Step>) returns (live: map<int, nat>, ghost t: Trace)
    requires m.Valid() && m.top == 0 && m.faults == 0 && 0 < start < HALF_MAX_SIZE_T
    modifies m
    ensures m.Valid() && m.faults == 0 && Holds(m.View(), live)
    ensures Ran(steps, start, t) && |t.served| == |steps|
    ensures t.states[0] == old(m.Snap()) && t.bytes[0] == old(m.payload)
    ensures t.states[|steps|] == m.Snap() && t.live[|steps|] == live && t.bytes[|steps|] == m.payload
  {
    hide MallocState.Valid, Holds, Ran, Sound, Outcome, WordSized;
    live := map[];
    t := Trace([m.Snap()], [live], [m.payload], []);
    NothingHeld(m);
    SoundState(m, live);
    NothingRan(steps, start, m.Snap(), m.payload);
    for i := 0 to |steps|
      invariant m.Valid() && m.faults == 0 && Holds(m.View(), live) && (m.top != 0 ==> m.segBase == start)
      invariant Ran(steps, start, t) && t.Shaped() && |t.served| == i
      invariant t.states[0] == old(m.Snap()) && t.bytes[0] == old(m.payload)
      invariant t.states[i] == m.Snap() && t.live[i] == live && t.bytes[i] == m.payload
    {
      var served, now := false, live;
      if Within(steps[i], start) {
        served, now := Do(m, steps[i], live);
      }
      SoundState(m, now);
      RanOn(steps, start, t, served, m.Snap(), now, m.payload);
      t := t.Then(m.Snap(), now, m.payload, served);
      live := now;
    }
  }

  lemma NothingRan(steps: seq<Step>, start: nat, state: Snapshot, bytes: map<int, int>)
    requires Sound(state, map[])
    ensures Ran(steps, start, Trace([state], [map[]], [bytes], []))
  {
  }

  /**
   What was stored stays: from step `i` to step `j` of a run, a byte behind a pointer that is held all
   the time is the same, unless the program stores there itself.
   */
  lemma {:induction false} BytesStay(steps: seq<Step>, start: nat, t: Trace, i: nat, j: nat, mem: int, a: int)
    requires Ran(steps, start, t) && i <= j < |t.live|
    requires forall k: nat :: i <= k <= j ==> Owns(t.live[k], mem, a)
    requires forall k: nat :: i <= k < j ==> !Overwrites(steps[k].op, a)
    ensures ByteAt(t.bytes[j], a) == ByteAt(t.bytes[i], a)
    decreases j
  {
    hide StepFollows, Sound, ByteAt;
    if i < j {
      BytesStay(steps, start, t, i, j - 1, mem, a);
      assert StepFollows(steps, start, t, j - 1);
      ByteInStep(steps, start, t, j - 1, mem, a);
    }
  }

  lemma ByteInStep(steps: seq<Step>, start: nat, t: Trace, i: nat, mem: int, a: int)
    requires t.Shaped() && i < |t.served| <= |steps| && StepFollows(steps, start, t, i)
    requires Owns(t.live[i], mem, a) && Owns(t.live[i + 1], mem, a) && !Overwrites(steps[i].op, a)
    ensures ByteAt(t.bytes[i + 1], a) == ByteAt(t.bytes[i], a)
  {
    hide Follows, StateFollows, Serves, ByteAt, Within;
  }
}
