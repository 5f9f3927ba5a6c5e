/**
 The allocator: `malloc_state` and the routines that work on it.

 `faults` counts the runs of CORRUPTION_ERROR_ACTION and USAGE_ERROR_ACTION. Every method leaves
 it as it was: on an intact heap with valid pointers no run-time check ever fails.
 */
module Dlmalloc {
  import opened PowersOfTwo
  import opened TreeIndex
  import opened BinMap
  import opened FreeLinks
  import opened SizeTrie
  import opened TrieRemove
  import opened TrieSearch
  import opened Bins
  import opened TreeBins
  import opened TrieWalk
  import opened BinChecks
  import opened Choices
  import opened BoundaryTags
  import opened ChunkWrites
  import opened HeapView
  import opened HeapSteps
  import opened Requests
  import opened Alignment
  import opened Parcels
  import opened CanonicalLayout
  import opened TrimOrder
  import opened Payloads

  /**
   MORECORE, as seen by one call of the allocator: the break at the start, if the allocator has
   no segment yet, and the address up to which the break can be moved.
   */
  datatype Morecore = Morecore(start: nat, limit: nat)

  /** CALL_MORECORE of `n` bytes at the break `at`. */
  predicate Moves(sys: Morecore, at: int, n: nat) {
    at + n <= sys.limit
  }

  /** All of the state that decides which requests can be met, and when memory goes back. */
  datatype Snapshot = Snapshot(
    heap: Heap, segBase: int, segSize: nat, footprint: nat, footprintLimit: nat, trimCheck: nat)

  /** With `n` bytes more the footprint stays within its limit, if there is one. */
  ghost predicate WithinLimit(was: Snapshot, n: nat) {
    was.footprintLimit == 0 || was.footprint + n <= MinOf(was.footprintLimit, MAX_SIZE_T)
  }

  /** MORECORE has a first segment for `asize` bytes, or as much as top lacks for `nb`. */
  ghost predicate Extends(was: Snapshot, nb: nat, asize: nat, sys: Morecore) {
    if was.heap.y.top == 0 then
      var ssize := FirstSize(sys.start, asize);
      ssize < HALF_MAX_SIZE_T && WithinLimit(was, ssize) && Moves(sys, sys.start, ssize)
    else
      && was.heap.y.topsize <= nb && ExtraSize(nb, was.heap.y.topsize) < HALF_MAX_SIZE_T
      && Moves(sys, was.segBase + was.segSize, ExtraSize(nb, was.heap.y.topsize))
  }

  /** The system can be asked for a chunk of `nb` bytes, may be asked, and gives it. */
  ghost predicate SystemServes(was: Snapshot, nb: nat, sys: Morecore) {
    SystemSize(nb) > nb && WithinLimit(was, SystemSize(nb)) && Extends(was, nb, SystemSize(nb), sys)
  }

  /** A request for a chunk of `nb` bytes can be met: from free space, or by the system. */
  ghost predicate CanServe(was: Snapshot, nb: nat, sys: Morecore) {
    !NothingFits(was.heap, nb) || SystemServes(was, nb, sys)
  }

  ghost function LimitOf(was: Snapshot): End {
    TopEnd(was.heap, was.trimCheck)
  }

  /** Where top ends once a chunk of `nb` bytes was had: the system is asked only if nothing fits. */
  ghost function ServedEnd(was: Snapshot, nb: nat, sys: Morecore): End {
    if !NothingFits(was.heap, nb) then LimitOf(was) else GrownEnd(was, nb, sys)
  }

  lemma FittingEnd(was: Snapshot, nb: nat, sys: Morecore)
    ensures !NothingFits(was.heap, nb) ==> ServedEnd(was, nb, sys) == LimitOf(was)
  {
  }

  ghost function GrownEnd(was: Snapshot, nb: nat, sys: Morecore): End {
    if was.heap.y.top == 0 then
      End(sys.start + FirstSize(sys.start, SystemSize(nb)) - TOP_FOOT_SIZE, TRIM_THRESHOLD)
    else
      var size := if was.heap.y.topsize <= nb then ExtraSize(nb, was.heap.y.topsize) else 0;
      End(LimitOf(was).at + size, TRIM_THRESHOLD)
  }

  /** There is room in place, or a new chunk can be had; the null pointer asks for a new chunk. */
  ghost predicate CanRealloc(was: Snapshot, oldmem: int, bytes: nat, sys: Morecore) {
    if oldmem == 0 then CanServe(was, RequestedSize(bytes), sys)
    else
      && bytes < MAX_REQUEST
      && (Request2Size(bytes) <= Room(was.heap, oldmem - 16) || CanServe(was, Request2Size(bytes), sys))
  }

  /** Arguments that `internal_memalign` does not refuse, and a chunk with room to align in. */
  ghost predicate CanAlign(was: Snapshot, a: nat, bytes: nat, sys: Morecore) {
    bytes < MAX_REQUEST - a && CanServe(was, RequestedSize(Request2Size(bytes) + a + MIN_CHUNK_SIZE - 8), sys)
  }

  /** Where a top that is at `top` now ends after the chunk at `p` was freed: it is trimmed if that joined it. */
  ghost function FreedEnd(e: End, h: Heap, p: int, top: int, gives: bool): End {
    if top < p + InUse(h, p) then Trimmed(top, e, gives) else e
  }

  lemma FreedEndIs(e: End, h: Heap, p: int, n: nat, gives: bool)
    requires Has(h, p) == Used(n)
    ensures forall t :: FreedEnd(e, h, p, t, gives) == if t < p + n then Trimmed(t, e, gives) else e
  {
  }

  lemma SameFreedEnd(e: End, h: Heap, h': Heap, p: int)
    requires InUse(h', p) == InUse(h, p)
    ensures forall t, gives :: FreedEnd(e, h', p, t, gives) == FreedEnd(e, h, p, t, gives)
  {
  }

  ghost function ReallocEnd(was: Snapshot, oldmem: int, bytes: nat, sys: Morecore, gives: bool, top: int): End {
    if oldmem == 0 then ServedEnd(was, RequestedSize(bytes), sys)
    else if Request2Size(bytes) <= Room(was.heap, oldmem - 16) then LimitOf(was)
    else FreedEnd(ServedEnd(was, Request2Size(bytes), sys), was.heap, oldmem - 16, top, gives)
  }

  ghost function AlignedEnd(was: Snapshot, a: nat, bytes: nat, sys: Morecore): End {
    ServedEnd(was, RequestedSize(Request2Size(bytes) + a + MIN_CHUNK_SIZE - 8), sys)
  }

  /** What `ialloc` asks `malloc` for can be had. */
  ghost predicate CanParcel(was: Snapshot, n: nat, sizes: seq<nat>, same: bool, given: bool, sys: Morecore)
    requires n > 0 ==> if same then sizes != [] else n <= |sizes|
  {
    if n == 0 then given || CanServe(was, RequestedSize(0), sys)
    else CanServe(was, RequestedSize(AggregateBytes(n, sizes, same, given)), sys)
  }

  ghost function ParceledEnd(was: Snapshot, n: nat, sizes: seq<nat>, same: bool, given: bool, sys: Morecore): End
    requires n > 0 ==> if same then sizes != [] else n <= |sizes|
  {
    if n == 0 then if given then LimitOf(was) else ServedEnd(was, RequestedSize(0), sys)
    else ServedEnd(was, RequestedSize(AggregateBytes(n, sizes, same, given)), sys)
  }

  class MallocState {
    var smallmap: bv32
    var treemap: bv32
    var treebins: seq<int>
    var links: Links
    var tags: Tags
    var leastAddr: int
    var dv: int
    var dvsize: nat
    var top: int
    var topsize: nat
    var segBase: int
    var segSize: nat
    var footprint: nat
    var maxFootprint: nat
    var footprintLimit: nat
    var trimCheck: nat
    var faults: nat
    var payload: map<int, int>
    ghost var contents: Contents
    ghost var chunks: set<int>

    /** A zeroed `malloc_state`. */
    constructor ()
      ensures Valid() && top == 0 && faults == 0
    {
      smallmap, treemap, treebins := 0, 0, seq(NTREEBINS, i => 0);
      links := Links(map[], map[], map[], map[], map[], map[]);
      tags := Tags(map[], map[]);
      leastAddr, dv, dvsize, top, topsize, segBase, segSize := 0, 0, 0, 0, 0, 0, 0;
      footprint, maxFootprint, footprintLimit, trimCheck, faults := 0, 0, 0, 0, 0;
      payload := map[];
      contents := Contents(seq(NSMALLBINS, i => []), seq(NTREEBINS, i => Leaf), map[]);
      chunks := {};
      new;
      ZeroBinsOk(links);
    }

    ghost function BinView(): BinState
      reads `links, `treebins, `smallmap, `treemap
    {
      BinState(links, treebins, smallmap, treemap)
    }

    /** The bins are intact, and the binned chunks are where and as large as they should be. */
    ghost predicate BinsReady()
      reads `links, `treebins, `smallmap, `treemap, `contents, `tags, `leastAddr
    {
      && BinsOk(BinView(), contents)
      && HeadsHoldSizes()
    }

    ghost predicate HeadsHoldSizes()
      reads this`tags, this`contents, this`leastAddr
    {
      forall a :: a in contents.sz ==> ChunkSize(tags, a) == contents.sz[a] && a >= leastAddr
    }

    /** `ok_address`. */
    predicate OkAddress(a: int)
      reads this`leastAddr
    {
      a >= leastAddr
    }

    /* ---------------------------------- the invariant ---------------------------------- */

    /** The address of the first chunk: `align_as_chunk(seg.base)`. */
    ghost function Base(): int
      reads `segBase
    {
      segBase + AlignOffset(segBase)
    }

    ghost function View(): Heap
      reads `tags, `chunks, `segBase, `top, `topsize, `dv, `dvsize, `contents
    {
      Heap(tags, Layout(chunks, Base(), top, topsize), dv, dvsize, contents.sz)
    }

    ghost function Snap(): Snapshot
      reads `tags, `chunks, `segBase, `top, `topsize, `dv, `dvsize, `contents
      reads `segSize, `footprint, `footprintLimit, `trimCheck
    {
      Snapshot(View(), segBase, segSize, footprint, footprintLimit, trimCheck)
    }

    /** The chunk at `a`, as the boundary tags have it. */
    ghost function ChunkAt(a: int): Chunk
      reads `tags, `chunks, `segBase, `top, `topsize, `dv, `dvsize, `contents
    {
      Has(View(), a)
    }

    ghost predicate SegmentOk()
      reads `segBase, `segSize, `leastAddr, `top, `topsize, `footprint, `maxFootprint, `trimCheck
    {
      && 0 < segBase == leastAddr && segBase + segSize == top + topsize + TOP_FOOT_SIZE
      && segSize < SIZE_BOUND && footprint == segSize <= maxFootprint
      && (trimCheck == TRIM_THRESHOLD || trimCheck == MAX_SIZE_T)
    }

    /** The invariant, while the chunks in `loose` are between two places. */
    ghost predicate InHand(loose: set<int>)
      reads this
    {
      BinsOk(BinView(), contents) && HeapOk(View(), loose) && SegmentOk()
    }

    /** Nothing was allocated yet; memory was never obtained. */
    ghost predicate Untouched()
      reads this
    {
      && BinsOk(BinView(), contents) && contents.sz == map[] && chunks == {}
      && smallmap == 0 && treemap == 0 && dv == 0 && dvsize == 0 && top == 0 && topsize == 0
      && footprint == 0 && leastAddr == 0
    }

    /** The invariant between operations. */
    ghost predicate Valid()
      reads this
    {
      if top == 0 then Untouched() else InHand({})
    }

    /** Where top ends, and when it is trimmed. */
    ghost function Limit(): End
      reads `top, `topsize, `trimCheck
    {
      End(top + topsize, trimCheck)
    }

    /** The segment stays where it is, or is the first one and starts at the break. */
    ghost predicate Grounded(wasTop: int, wasBase: int, start: int)
      reads `top, `segBase
    {
      if wasTop != 0 then top != 0 && segBase == wasBase else top != 0 ==> segBase == start
    }

    /** Where top starts, or will start in a first segment at the break. */
    ghost function TopStart(start: int): int
      reads `top
    {
      if top != 0 then top else start + AlignOffset(start)
    }

    /** What MORECORE can give keeps the segment below the size bound of the tree index. */
    predicate Bounded(sys: Morecore)
      reads `top, `segBase
    {
      0 < sys.start < HALF_MAX_SIZE_T && sys.limit < SIZE_BOUND + if top == 0 then sys.start else segBase
    }

    /** `RTCHECK`, and the error action that its failure leads to. */
    method RtCheck(e: bool) returns (ok: bool)
      modifies `faults
      ensures ok == e && faults == old(faults) + if e then 0 else 1
    {
      if !e {
        faults := faults + 1;
      }
      ok := e;
    }

    /* ---------------------------- operations on small bins ---------------------------- */

    /** `insert_small_chunk`. */
    method InsertSmallChunk(p: int, s: nat)
      requires BinsReady() && p > 0 && p !in contents.sz && IsSmall(s) && s % 8 == 0
      modifies `links, `smallmap, `contents, `faults
      ensures BinsOk(BinView(), contents) && contents.sz == old(contents.sz)[p := s]
      ensures contents.trees == old(contents.trees) && contents.small ==
        old(contents.small)[SmallIndex(s) := [p] + old(contents.small)[SmallIndex(s)]]
      ensures faults == old(faults)
    {
      hide BinsOk, InsertSmall;
      ghost var c := InsertSmallStep(BinView(), contents, p, s);
      if Bit(smallmap, SmallIndex(s)) {
        FirstSmall(BinView(), contents, SmallIndex(s));
      }
      InsertSmallLinks(p, s);
      contents := c;
    }

    method InsertSmallLinks(p: int, s: nat)
      requires Bit(smallmap, SmallIndex(s)) ==> OkAddress(Get(links.fd, SmallBinAt(SmallIndex(s))))
      modifies `links, `smallmap, `faults
      ensures BinView() == InsertSmall(old(BinView()), p, s) && faults == old(faults)
    {
      hide Bit, Mark;
      var i := SmallIndex(s);
      var b := SmallBinAt(i);
      var f := b;
      if !Bit(smallmap, i) {
        smallmap := Mark(smallmap, i);
      } else {
        var ok := RtCheck(OkAddress(Get(links.fd, b)));
        if ok {
          f := Get(links.fd, b);
        }
      }
      links := links.(fd := links.fd[b := p], bk := links.bk[f := p]);
      links := links.(fd := links.fd[p := f], bk := links.bk[p := b]);
    }

    /** `unlink_small_chunk`. */
    method UnlinkSmallChunk(p: int, s: nat)
      requires BinsReady() && p in contents.sz && contents.sz[p] == s && IsSmall(s)
      modifies `links, `smallmap, `contents, `faults
      ensures BinsOk(BinView(), contents) && contents.sz == old(contents.sz) - {p}
      ensures contents.trees == old(contents.trees) && contents.small ==
        old(contents.small)[SmallIndex(s) := Except(old(contents.small)[SmallIndex(s)], p)]
      ensures faults == old(faults)
    {
      hide BinsOk, UnlinkSmall;
      SmallNeighbours(BinView(), contents, p);
      ghost var c := UnlinkSmallStep(BinView(), contents, p);
      UnlinkSmallLinks(p, s);
      contents := c;
    }

    method UnlinkSmallLinks(p: int, s: nat)
      requires var h, f, b := SmallBinAt(SmallIndex(s)), Get(links.fd, p), Get(links.bk, p);
        && (f == h || (OkAddress(f) && Get(links.bk, f) == p))
        && (b == f || b == h || (OkAddress(b) && Get(links.fd, b) == p))
      modifies `links, `smallmap, `faults
      ensures BinView() == UnlinkSmall(old(BinView()), p, s) && faults == old(faults)
    {
      hide Get, Clear;
      var f, b := Get(links.fd, p), Get(links.bk, p);
      var i := SmallIndex(s);
      var ok := RtCheck(f == SmallBinAt(i) || (OkAddress(f) && Get(links.bk, f) == p));
      if ok {
        if b == f {
          smallmap := Clear(smallmap, i);
        } else {
          ok := RtCheck(b == SmallBinAt(i) || (OkAddress(b) && Get(links.fd, b) == p));
          if ok {
            links := links.(bk := links.bk[f := b], fd := links.fd[b := f]);
          }
        }
      }
    }

    /** `unlink_first_small_chunk`. */
    method UnlinkFirstSmallChunk(b: int, p: int, i: nat)
      requires BinsReady() && i < NSMALLBINS && Bit(smallmap, i)
      requires b == SmallBinAt(i) && p == Get(links.fd, b)
      modifies `links, `smallmap, `contents, `faults
      ensures p in old(contents.sz) && old(contents.sz)[p] == 8 * i && FirstIn(old(contents.small), i, p)
      ensures BinsOk(BinView(), contents) && contents.sz == old(contents.sz) - {p}
      ensures contents.trees == old(contents.trees)
      ensures contents.small == old(contents.small)[i := old(contents.small)[i][1..]]
      ensures faults == old(faults)
    {
      hide BinsOk, UnlinkSmall, Get, IsSmall, SmallBinAt, Bit;
      FirstSmall(BinView(), contents, i);
      ghost var c := UnlinkSmallStep(BinView(), contents, p);
      UnlinkFirstLinks(b, p, i);
      contents := c;
    }

    method UnlinkFirstLinks(b: int, p: int, i: nat)
      requires b == SmallBinAt(i) && b == Get(links.bk, p)
      requires var f := Get(links.fd, p); b == f || (OkAddress(f) && Get(links.bk, f) == p)
      modifies `links, `smallmap, `faults
      ensures BinView() == UnlinkSmall(old(BinView()), p, 8 * i) && faults == old(faults)
    {
      hide Get, Clear;
      var f := Get(links.fd, p);
      if b == f {
        smallmap := Clear(smallmap, i);
      } else {
        var ok := RtCheck(OkAddress(f) && Get(links.bk, f) == p);
        if ok {
          links := links.(bk := links.bk[f := b], fd := links.fd[b := f]);
        }
      }
    }

    /* ------------------------------ operations on trees ------------------------------ */

    /** `insert_large_chunk`. */
    method InsertLargeChunk(x: int, s: nat)
      requires BinsReady() && x > 0 && x !in contents.sz && !IsSmall(s) && s < SIZE_BOUND
      modifies `links, `treebins, `treemap, `contents, `faults
      ensures BinsOk(BinView(), contents) && contents.sz == old(contents.sz)[x := s]
      ensures faults == old(faults)
    {
      hide BinsOk, Rep, WF, Points, InsertLarge, ComputeTreeIndex, InsertLinks, Steers, PlantRoot, Prepare;
      ghost var now, c := InsertLargeStep(BinView(), contents, x, s);
      InsertStart(BinView(), contents, x, s);
      SmallCount(BinView(), contents);
      InsertLargeParts(BinView(), x, s, contents.trees[ComputeTreeIndex(s)]);
      InsertLargeLinks(x, s, ComputeTreeIndex(s), BinCursor(contents, ComputeTreeIndex(s)));
      contents := c;
      assert BinView() == now;
    }

    method InsertLargeLinks(x: int, s: nat, i: nat, ghost top: Cursor)
      requires HeadsHoldSizes() && i < NTREEBINS == |treebins|
      requires Points(Prepare(links, x, i), treebins[i], top, contents.sz)
      requires Steers((s * Pow2(LeftShift(i))) % NONE, s, top.lo, top.w)
      requires (Bit(treemap, i) <==> top.tree.Node?) && (Bit(treemap, i) <==> treebins[i] != 0)
      modifies `links, `treebins, `treemap, `faults
      ensures var b, l := old(BinView()), Prepare(old(links), x, i);
        BinView() ==
        if !Bit(b.treemap, i) || top.tree.Leaf? then
          BinState(PlantRoot(l, x, i), b.treebins[i := x], b.smallmap, Mark(b.treemap, i))
        else b.(links := InsertLinks(l, b.treebins[i], top.tree, top.lo, top.w, s, x))
      ensures faults == old(faults)
    {
      hide Points, InsertLinks, Steers, Prepare;
      links := Prepare(links, x, i);
      if !Bit(treemap, i) {
        treemap := Mark(treemap, i);
        treebins := treebins[i := x];
        links := links.(parent := links.parent[x := TreeBinAt(i)]);
        links := links.(fd := links.fd[x := x], bk := links.bk[x := x]);
      } else {
        InsertIntoTrie(x, s, treebins[i], (s * Pow2(LeftShift(i))) % NONE, top);
      }
    }

    /** The loop of `insert_large_chunk`, from the root `root` of the bin on. */
    method InsertIntoTrie(x: int, s: nat, root: int, sizebits: nat, ghost top: Cursor)
      requires HeadsHoldSizes() && root != 0 && top.tree.Node?
      requires Points(links, root, top, contents.sz) && Steers(sizebits, s, top.lo, top.w)
      modifies `links, `faults
      ensures links == InsertLinks(old(links), root, top.tree, top.lo, top.w, s, x)
      ensures faults == old(faults)
    {
      hide Points, Steers, InsertLinks, Hang;
      var t, k: nat := root, sizebits;
      ghost var u := top;
      while true
        invariant t != 0 && u.tree.Node? && Points(links, t, u, contents.sz) && Steers(k, s, u.lo, u.w)
        invariant links == old(links) && faults == old(faults)
        invariant InsertLinks(links, t, u.tree, u.lo, u.w, s, x) ==
                  InsertLinks(links, root, top.tree, top.lo, top.w, s, x)
        decreases u.tree
      {
        PointsBelow(links, t, u, contents.sz);
        assert t in contents.sz;
        if ChunkSize(tags, t) != s {
          InsertStep(links, t, u, contents.sz, s, x, k);
          var right := k >= 0x8000_0000_0000_0000;
          var c := Child(links, t, right);
          k := (2 * k) % NONE;
          if c != 0 {
            u := Below(t, u, right);
            t := c;
          } else {
            var ok := RtCheck(OkAddress(ChildSlot(t, right)));
            if ok {
              links := Hang(links, t, right, x);
            }
            break;
          }
        } else {
          InsertStop(links, t, u, contents.sz, s, x);
          var f := Get(links.fd, t);
          var ok := RtCheck(OkAddress(t) && OkAddress(f));
          if ok {
            links := RingInsert(links, t, x);
            links := links.(parent := links.parent[x := 0]);
          }
          break;
        }
      }
    }

    /** `unlink_large_chunk`. */
    method UnlinkLargeChunk(x: int)
      requires BinsReady() && x in contents.sz && !IsSmall(contents.sz[x])
      modifies `links, `treebins, `treemap, `contents, `faults
      ensures BinsOk(BinView(), contents) && contents.sz == old(contents.sz) - {x}
      ensures faults == old(faults)
    {
      ghost var i := ComputeTreeIndex(contents.sz[x]);
      SmallCount(BinView(), contents);
      ghost var par := UnlinkStart(BinView(), contents, x);
      ghost var n := NodeOf(contents.trees[i], BinLo(i), BinWidth(i), contents.sz[x]);
      hide NodeOf, BinLo, BinWidth, Unlinkable, UnlinkedWords;
      assert n.Node? && |n.ring| > 0;
      ghost var now, c := UnlinkLargeStep(BinView(), contents, x, n, i);
      hide BinsOk;
      UnlinkLargeLinks(x, n, i, par);
      contents := c;
      assert BinView() == now;
    }

    method UnlinkLargeLinks(x: int, ghost n: Tree, ghost i: nat, ghost par: int)
      requires HeadsHoldSizes() && i < NTREEBINS == |treebins| && Unlinkable(links, n, x, i, par, contents.sz)
      requires if n.ring[0] == treebins[i] then par == TreeBinAt(i) else par in contents.sz
      modifies `links, `treebins, `treemap, `faults
      ensures BinView() == UnlinkedWords(old(BinView()), x, n, i) && faults == old(faults)
    {
      hide Unlinkable, SpliceOut, Relink, Below1, Clear, HeadsHoldSizes;
      RelinkReady(links, n, x, i, par, contents.sz, treebins[i]);
      var xp := Get(links.parent, x);
      var r := SpliceOutChunk(x, n, i, par);
      if xp != 0 {
        RelinkChunk(x, r, xp, i);
      }
    }

    /** The first part: `x` leaves its ring, or a leaf `r` below it leaves the trie. */
    method SpliceOutChunk(x: int, ghost n: Tree, ghost i: nat, ghost par: int) returns (r: int)
      requires HeadsHoldSizes() && Unlinkable(links, n, x, i, par, contents.sz)
      modifies `links, `faults
      ensures (links, r) == SpliceOut(old(links), x, n)
      ensures faults == old(faults)
      ensures r == 0 || r in contents.sz
    {
      UnlinkRingChecks(links, n, x, i, par, contents.sz);
      if Get(links.bk, x) != x {
        var f := Get(links.fd, x);
        r := Get(links.bk, x);
        var ok := RtCheck(OkAddress(f) && Get(links.bk, f) == x && Get(links.fd, r) == x);
        if ok {
          links := links.(bk := links.bk[f := r]);
          links := links.(fd := links.fd[r := f]);
        }
      } else {
        HeadChildren(links, n, x, i, par, contents.sz, true);
        HeadChildren(links, n, x, i, par, contents.sz, false);
        hide Unlinkable, Below1;
        var rp, side := x, true;
        r := Child(links, x, true);
        if r == 0 {
          side := false;
          r := Child(links, x, false);
        }
        if r != 0 {
          r, rp, side := FindLeaf(r, rp, side, if side then n.right else n.left, i);
          var ok := RtCheck(OkAddress(ChildSlot(rp, side)));
          if ok {
            links := SetChild(links, rp, side, 0);
          }
        }
      }
    }

    /** The last part: `r`, if there is one, takes the place of `x` below `xp`. */
    method RelinkChunk(x: int, r: int, xp: int, ghost i: nat)
      requires HeadsHoldSizes() && i < NTREEBINS && |treebins| == NTREEBINS && Get(links.index, x) == i
      requires xp != x && r != x && (r == 0 || r in contents.sz)
      requires x != treebins[i] ==> xp in contents.sz
      requires Get(links.child0, x) == 0 || Get(links.child0, x) in contents.sz
      requires Get(links.child1, x) == 0 || Get(links.child1, x) in contents.sz
      modifies `links, `treebins, `treemap, `faults
      ensures links == Relink(old(links), x, r, xp, x == old(treebins)[i])
      ensures treebins == if x == old(treebins)[i] then old(treebins)[i := r] else old(treebins)
      ensures treemap == if x == old(treebins)[i] && r == 0 then Clear(old(treemap), i) else old(treemap)
      ensures faults == old(faults)
    {
      hide TakeSlot, SetChild, Get;
      SlotChildren(links, x, r, xp, x == treebins[i]);
      ReplaceBelow(x, r, xp, i);
      if r != 0 {
        var ok := RtCheck(OkAddress(r));
        if ok {
          AdoptKeeps(links, x, r, xp);
          links := SetParent(links, r, xp);
          AdoptChild(x, r, false);
          AdoptChild(x, r, true);
        }
      }
    }

    /** The slot that held `x`, in the parent or in the bin, gets `r`. */
    method ReplaceBelow(x: int, r: int, xp: int, ghost i: nat)
      requires i < NTREEBINS && |treebins| == NTREEBINS && Get(links.index, x) == i
      requires x != treebins[i] ==> OkAddress(xp)
      modifies `links, `treebins, `treemap, `faults
      ensures links == TakeSlot(old(links), x, r, xp, x == old(treebins)[i])
      ensures treebins == if x == old(treebins)[i] then old(treebins)[i := r] else old(treebins)
      ensures treemap == if x == old(treebins)[i] && r == 0 then Clear(old(treemap), i) else old(treemap)
      ensures faults == old(faults)
    {
      var h := Get(links.index, x);
      if x == treebins[h] {
        treebins := treebins[h := r];
        if r == 0 {
          treemap := Clear(treemap, h);
        }
      } else {
        var ok := RtCheck(OkAddress(xp));
        if ok {
          links := SetChild(links, xp, Child(links, xp, false) != x, r);
        }
      }
    }

    /** One of the two clauses that hand a subtree of `x` over to `r`. */
    method AdoptChild(x: int, r: int, right: bool)
      requires Child(links, x, right) == 0 || OkAddress(Child(links, x, right))
      modifies `links, `faults
      ensures links == Adopt(old(links), x, r, right) && faults == old(faults)
    {
      var c := Child(links, x, right);
      if c != 0 {
        var ok := RtCheck(OkAddress(c));
        if ok {
          links := SetChild(links, r, right, c);
          links := links.(parent := links.parent[c := r]);
        }
      }
    }

    /** The loop to the rightmost leaf: the leaf, and the child slot that holds it. */
    method FindLeaf(c: int, p: int, d: bool, ghost s0: Tree, ghost i: nat) returns (r: int, rp: int, side: bool)
      requires HeadsHoldSizes() && Below1(links, c, s0, p, i, contents.sz) && p in contents.sz
      ensures (r, rp, side) == RightLeaf(links, c, s0, p, d)
      ensures r in contents.sz && rp in contents.sz
    {
      assert s0.Node?;
      hide Below1, RightLeaf;
      r, rp, side := c, p, d;
      ghost var s := s0;
      LeafStep(links, r, s, rp, side, i, contents.sz);
      while Child(links, r, true) != 0 || Child(links, r, false) != 0
        invariant s.Node? && Below1(links, r, s, rp, i, contents.sz) && rp in contents.sz
        invariant RightLeaf(links, r, s, rp, side) == RightLeaf(links, c, s0, p, d)
        decreases s
      {
        LeafStep(links, r, s, rp, side, i, contents.sz);
        var right := Child(links, r, true) != 0;
        s := if right then s.right else s.left;
        rp, side := r, right;
        r := Child(links, r, right);
      }
      LeafStep(links, r, s, rp, side, i, contents.sz);
    }

    /* ------------------------------ searching the tries ------------------------------ */

    /** `v` is a large chunk that leaves `rsize` bytes over, or there is none yet. */
    ghost predicate Candidate(v: int, rsize: nat, nb: nat)
      requires nb < NONE
      reads this`contents
    {
      if v == 0 then rsize == NONE - nb
      else v in contents.sz && contents.sz[v] == rsize + nb && !IsSmall(contents.sz[v])
    }

    /** The walk to the leftmost leaf, from `t0` on; it improves on the candidate `v0`. */
    method WalkLeftmost(t0: int, nb: nat, v0: int, rsize0: nat, ghost u0: Cursor)
      returns (v: int, rsize: nat)
      requires HeadsHoldSizes() && 0 < nb < NONE && Candidate(v0, rsize0, nb) && rsize0 + nb <= NONE
      requires Points(links, t0, u0, contents.sz) && Settled(u0.tree, nb, rsize0)
      ensures Candidate(v, rsize, nb) && rsize + nb == Min(rsize0 + nb, Best(u0.tree, nb))
      ensures v0 != 0 ==> v != 0
    {
      hide Points, Best, Sizes;
      v, rsize := v0, rsize0;
      var t := t0;
      ghost var u := u0;
      BestBounds(links, t0, u0, contents.sz, nb);
      while t != 0
        invariant Points(links, t, u, contents.sz) && Settled(u.tree, nb, rsize)
        invariant Candidate(v, rsize, nb) && rsize <= rsize0 && (v0 != 0 ==> v != 0)
        invariant Min(rsize + nb, Best(u.tree, nb)) == Min(rsize0 + nb, Best(u0.tree, nb))
        decreases u.tree
      {
        WalkStep(links, t, u, contents.sz, nb);
        WalkSettled(links, t, u, contents.sz, nb, rsize);
        var trem := Sub64(ChunkSize(tags, t), nb);
        if trem < rsize {
          rsize := trem;
          v := t;
        }
        var left := Get(links.child0, t);
        u := Below(t, u, left == 0);
        t := if left != 0 then left else Get(links.child1, t);
        BestBounds(links, t, u, contents.sz, nb);
      }
      LeafBest(links, u, contents.sz, nb);
    }

    /** The first loop of `tmalloc_large`: what it found, and the subtree it leaves to search. */
    method Descend(nb: nat, idx: nat, ghost top: Cursor) returns (v: int, rsize: nat, t: int, ghost u: Cursor)
      requires HeadsHoldSizes() && 256 <= nb < NONE && |treebins| == NTREEBINS && idx == ComputeTreeIndex(nb)
      requires treebins[idx] != 0 && Points(links, treebins[idx], top, contents.sz)
      requires nb < SIZE_BOUND ==> Steers((nb * Pow2(LeftShift(idx))) % NONE, nb, top.lo, top.w)
      requires nb >= SIZE_BOUND ==> forall s :: s in Sizes(top.tree) ==> s < nb
      ensures Candidate(v, rsize, nb) && rsize + nb <= NONE
      ensures Points(links, t, u, contents.sz) && Settled(u.tree, nb, rsize)
      ensures Min(rsize + nb, Best(u.tree, nb)) == Best(top.tree, nb)
    {
      hide Points, Best, Sizes, Descends, Steers, ComputeTreeIndex, LeftShift, IsSmall, HeadOf, Sub64, Own, Below;
      hide Settled, Found, Min;
      v, rsize := 0, NONE - nb;
      t := treebins[idx];
      u := top;
      var sizebits: nat := (nb * Pow2(LeftShift(idx))) % NONE;
      var rst := 0;
      ghost var a := Cursor(Leaf, 0, top.idx, 0, 0);
      DescendStart(links, contents.sz, nb, t, top, sizebits);
      while true
        invariant t != 0 && Descends(links, contents.sz, nb, t, u, rst, a, sizebits)
        invariant Candidate(v, rsize, nb) && 0 < rsize && rsize + nb <= NONE
        invariant Found(rsize, nb, u.tree, a.tree, top.tree)
        decreases u.tree
      {
        DescendAt(links, contents.sz, nb, t, u, rst, a, sizebits);
        var right := sizebits >= 0x8000_0000_0000_0000;
        var trem := Sub64(ChunkSize(tags, t), nb);
        ghost var before, s := rsize, ChunkSize(tags, t);
        if trem < rsize {
          Remainder(rsize, s, nb);
          v := t;
          rsize := trem;
          if rsize == 0 {
            FoundExact(before, nb, u.tree, a.tree, top.tree);
            break;
          }
        }
        ghost var u0, a0 := u.tree, a.tree;
        NotExact(before, s, nb);
        DescendStep(links, contents.sz, nb, t, u, rst, a, sizebits);
        var rt, c := Get(links.child1, t), Child(links, t, right);
        if rt != 0 && rt != c {
          rst := rt;
          a := Below(t, u, true);
        }
        u := Below(t, u, right);
        t := c;
        sizebits := (2 * sizebits) % NONE;
        FoundStep(before, s, nb, u0, a0, u.tree, a.tree, top.tree);
        if t == 0 {
          DescendEnd(links, contents.sz, nb, u, rst, a, sizebits, rsize);
          FoundEnd(rsize, nb, u.tree, a.tree, top.tree);
          t := rst;
          u := a;
          break;
        }
      }
    }

    /** The root of the next non-empty bin, when the request's own bin has nothing that fits. */
    method NextBinRoot(nb: nat) returns (t: int, ghost u: Cursor)
      requires BinsReady() && 256 <= nb < NONE && Best(contents.trees[ComputeTreeIndex(nb)], nb) == NONE
      ensures Points(links, t, u, contents.sz) && Settled(u.tree, nb, NONE - nb)
      ensures Best(u.tree, nb) <= NONE && BestFit(contents.sz, nb, Best(u.tree, nb))
    {
      hide And, LeftBits, Idx2Bit, LeastBit, Bit2Idx, BinsOk, Points, Settled, Best, BestFit, ComputeTreeIndex;
      t := 0;
      u := Cursor(Leaf, 0, 0, 0, 0);
      FindBehind(BinView(), contents, nb);
      SmallCount(BinView(), contents);
      NoCursor(links, contents.sz, nb);
      var leftbits := And(LeftBits(Idx2Bit(ComputeTreeIndex(nb))), treemap);
      if leftbits != 0 {
        var leastbit := LeastBit(leftbits);
        var i := Bit2Idx(leastbit);
        t := treebins[i];
        u := BinCursor(contents, i);
      }
    }

    /** The search of `tmalloc_large`: the best fit over all tree bins, if any large chunk fits. */
    method FindLarge(nb: nat) returns (v: int, rsize: nat)
      requires BinsReady() && 256 <= nb < NONE
      ensures Candidate(v, rsize, nb) && rsize + nb <= NONE && BestFit(contents.sz, nb, rsize + nb)
    {
      hide BinsOk, Best, Sizes, Steers, ComputeTreeIndex, Points, Settled, BestFit;
      v, rsize := 0, NONE - nb;
      var idx := ComputeTreeIndex(nb);
      SmallCount(BinView(), contents);
      FindStart(BinView(), contents, nb);
      ghost var u := BinCursor(contents, idx);
      var t := treebins[idx];
      if t != 0 {
        v, rsize, t, u := Descend(nb, idx, u);
      }
      if t == 0 && v == 0 {
        LeafBest(links, u, contents.sz, nb);
        t, u := NextBinRoot(nb);
      } else {
        FindHere(BinView(), contents, nb, t, u, rsize);
      }
      v, rsize := WalkLeftmost(t, nb, v, rsize, u);
    }

    /* --------------------- free chunks in and out of the bins --------------------- */

    /** The bin operations may rely on the heads of the binned chunks. */
    lemma ReadyInHand(loose: set<int>)
      requires InHand(loose)
      ensures BinsReady() && leastAddr <= Base() <= top && 0 !in loose
      ensures dvsize < SIZE_BOUND && topsize < SIZE_BOUND
      ensures forall a :: a in contents.sz ==> a > 0 && a != dv && a !in loose && contents.sz[a] < SIZE_BOUND
    {
      forall a | a in contents.sz
        ensures ChunkSize(tags, a) == contents.sz[a] && a >= Base() && a != dv && a !in loose
      {
        BinnedIsFree(View(), loose, a);
      }
      SmallCount(BinView(), contents);
      if dv != 0 {
        VictimIsFree(View(), loose);
      }
      assert Base() <= top by {
        assert Placed(View().y);
      }
    }

    lemma LooseInHand(loose: set<int>, p: int)
      requires InHand(loose) && p in loose
      ensures p > 0 && p !in contents.sz && ChunkSize(tags, p) % 8 == 0
      ensures MIN_CHUNK_SIZE <= ChunkSize(tags, p) < SIZE_BOUND
      ensures ChunkAt(p) == Free(ChunkSize(tags, p))
    {
      LooseReady(View(), loose, p);
    }

    /** `unlink_chunk`. */
    method UnlinkChunk(p: int, s: nat, ghost loose: set<int>)
      requires InHand(loose) && p in contents.sz && contents.sz[p] == s
      modifies `links, `smallmap, `treebins, `treemap, `contents, `faults
      ensures InHand(loose + {p}) && contents.sz == old(contents.sz) - {p}
      ensures faults == old(faults)
    {
      hide BinsOk, HeapOk, IsSmall;
      ReadyInHand(loose);
      DropBinned(View(), loose, p);
      ghost var h := View();
      if IsSmall(s) {
        UnlinkSmallChunk(p, s);
      } else {
        UnlinkLargeChunk(p);
      }
      assert View() == h.(sz := h.sz - {p});
    }

    /** `insert_chunk`. */
    method InsertChunk(p: int, s: nat, ghost loose: set<int>)
      requires InHand(loose) && p in loose && s == ChunkSize(tags, p)
      modifies `links, `smallmap, `treebins, `treemap, `contents, `faults
      ensures InHand(loose - {p}) && contents.sz == old(contents.sz)[p := s]
      ensures faults == old(faults)
    {
      hide BinsOk, HeapOk, IsSmall;
      ReadyInHand(loose);
      LooseInHand(loose, p);
      BinLoose(View(), loose, p);
      ghost var h := View();
      if IsSmall(s) {
        InsertSmallChunk(p, s);
      } else {
        InsertLargeChunk(p, s);
      }
      assert View() == h.(sz := h.sz[p := s]);
    }

    /** `replace_dv`. */
    method ReplaceDv(p: int, s: nat)
      requires InHand({p}) && s == ChunkSize(tags, p) && IsSmall(dvsize)
      modifies `links, `smallmap, `treebins, `treemap, `contents, `faults, `dv, `dvsize
      ensures InHand({}) && dv == p && dvsize == s
      ensures contents.sz == if old(dv) == 0 then old(contents.sz) else old(contents.sz)[old(dv) := old(dvsize)]
      ensures faults == old(faults)
    {
      hide BinsOk, HeapOk, Has;
      VictimKnown({p});
      if dvsize != 0 {
        BinDv(p);
      }
      ghost var h := View().(dv := 0, dvsize := 0);
      LooseReady(h, {p}, p);
      DvLoose(h, {p}, p);
      assert {p} - {p} == {};
      dvsize := s;
      dv := p;
      assert View() == h.(dv := p, dvsize := s);
    }

    /** The old victim goes to its bin, and is binned from now on. */
    method BinDv(ghost p: int)
      requires InHand({p}) && IsSmall(dvsize) && dvsize != 0
      modifies `links, `smallmap, `treebins, `treemap, `contents, `faults
      ensures BinsOk(BinView(), contents) && SegmentOk() && faults == old(faults)
      ensures HeapOk(View().(dv := 0, dvsize := 0), {p})
      ensures contents.sz == old(contents.sz)[dv := dvsize]
    {
      hide BinsOk, HeapOk, Has;
      ghost var h := View();
      VictimKnown({p});
      VictimIsFree(h, {p});
      ReadyInHand({p});
      BinVictim(h, {p});
      InsertSmallChunk(dv, dvsize);
      assert View().(dv := 0, dvsize := 0) == h.(dv := 0, dvsize := 0, sz := h.sz[dv := dvsize]);
    }

    lemma VictimKnown(loose: set<int>)
      requires HeapOk(View(), loose)
      ensures dvsize == 0 <==> dv == 0
    {
    }

    /* ------------------------------- taking a free chunk ------------------------------- */

    /** All of a chunk that is in hand. */
    method TakeWhole(p: int, s: nat)
      requires InHand({p}) && s == ChunkSize(tags, p)
      modifies `tags
      ensures InHand({}) && Took(old(View()), View(), p, s)
    {
      hide BinsOk, HeapOk, Took, SetInuseAndPinuse;
      TakeWholeOk(View(), p);
      ghost var h := WholeTaken(View(), p);
      tags := SetInuseAndPinuse(tags, p, s);
      assert View() == h;
    }

    /** The first `nb` bytes of a chunk in hand; the rest stays in hand. */
    method TakeFirst(p: int, nb: nat, rsize: nat)
      requires InHand({p}) && nb + rsize == ChunkSize(tags, p)
      requires MIN_CHUNK_SIZE <= nb && nb % 16 == 0 && rsize >= MIN_CHUNK_SIZE
      modifies `tags, `chunks
      ensures InHand({p + nb}) && ChunkSize(tags, p + nb) == rsize && Took(old(View()), View(), p, nb)
    {
      hide BinsOk, HeapOk, Took, SetUsedChunk, SetFreeChunk;
      TakeFirstOk(View(), p, nb);
      ghost var h := FirstTaken(View(), p, nb);
      tags := SetUsedChunk(tags, p, nb);
      tags := SetFreeChunk(tags, p + nb, rsize);
      chunks := chunks + {p + nb};
      assert View() == h;
    }

    /** The common end of `tmalloc_large`: the rest, if it makes a chunk, goes to a bin. */
    method TakeAndBin(p: int, nb: nat, rsize: nat)
      requires InHand({p}) && nb + rsize == ChunkSize(tags, p) && MIN_CHUNK_SIZE <= nb && nb % 16 == 0
      modifies `tags, `chunks, `links, `smallmap, `treebins, `treemap, `contents, `faults
      ensures InHand({}) && faults == old(faults)
      ensures Took(old(View()), View(), p, if rsize < MIN_CHUNK_SIZE then nb + rsize else nb)
      ensures contents.sz == if rsize < MIN_CHUNK_SIZE then old(contents.sz) else old(contents.sz)[p + nb := rsize]
    {
      hide InHand, HeapOk, Has;
      if rsize < MIN_CHUNK_SIZE {
        TakeWhole(p, rsize + nb);
      } else {
        var r := p + nb;
        TakeFirst(p, nb, rsize);
        ghost var h := View();
        InsertChunk(r, rsize, {r});
        BookkeepingOnly(h, View());
        assert {r} - {r} == {};
      }
    }

    /** The same where the rest becomes the designated victim. */
    method TakeForDv(p: int, nb: nat, rsize: nat)
      requires InHand({p}) && nb + rsize == ChunkSize(tags, p) && MIN_CHUNK_SIZE <= nb && nb % 16 == 0
      requires IsSmall(dvsize)
      modifies `tags, `chunks, `links, `smallmap, `treebins, `treemap, `contents, `faults, `dv, `dvsize
      ensures InHand({}) && faults == old(faults)
      ensures Took(old(View()), View(), p, if rsize < MIN_CHUNK_SIZE then nb + rsize else nb)
      ensures if rsize < MIN_CHUNK_SIZE then dv == old(dv) && dvsize == old(dvsize) && contents.sz == old(contents.sz)
        else
          && dv == p + nb && dvsize == rsize
          && contents.sz == if old(dv) == 0 then old(contents.sz) else old(contents.sz)[old(dv) := old(dvsize)]
    {
      hide InHand, HeapOk, Has;
      if rsize < MIN_CHUNK_SIZE {
        TakeWhole(p, rsize + nb);
      } else {
        var r := p + nb;
        TakeFirst(p, nb, rsize);
        ghost var h := View();
        ReplaceDv(r, rsize);
        BookkeepingOnly(h, View());
      }
    }

    /** `nb <= dvsize`: the victim is split, or used up. */
    method TakeDv(nb: nat) returns (p: int, ghost n: nat)
      requires InHand({}) && MIN_CHUNK_SIZE <= nb <= dvsize && nb % 16 == 0
      modifies `tags, `chunks, `dv, `dvsize
      ensures InHand({}) && nb <= n < nb + MIN_CHUNK_SIZE && Took(old(View()), View(), p, n) && p > 0 && p % 16 == 0
      ensures p == old(dv) && LeftVictim(old(View()), View(), nb, n)
    {
      VictimKnown({});
      DropVictimAlone(View());
      hide InHand, HeapOk, Has;
      var rsize := dvsize - nb;
      p := dv;
      if rsize >= MIN_CHUNK_SIZE {
        SplitDv(nb, rsize);
        n := nb;
      } else {
        n := dvsize;
        ExhaustDv();
      }
    }

    method SplitDv(nb: nat, rsize: nat)
      requires InHand({}) && MIN_CHUNK_SIZE <= nb && rsize >= MIN_CHUNK_SIZE && nb + rsize == dvsize && nb % 16 == 0
      modifies `tags, `chunks, `dv, `dvsize
      ensures InHand({}) && Took(old(View()), View(), old(dv), nb) && dv == old(dv) + nb && dvsize == rsize
    {
      hide BinsOk, HeapOk, Took, SetUsedChunk, SetFreeChunk;
      SplitVictimOk(View(), nb);
      ghost var h := VictimSplit(View(), nb);
      var p, r := dv, dv + nb;
      dv := r;
      dvsize := rsize;
      tags := SetFreeChunk(tags, r, rsize);
      tags := SetUsedChunk(tags, p, nb);
      chunks := chunks + {r};
      assert View() == h;
    }

    method ExhaustDv()
      requires InHand({}) && dv != 0
      modifies `tags, `dv, `dvsize
      ensures InHand({}) && Took(old(View()), View(), old(dv), old(dvsize)) && dv == 0 && dvsize == 0
    {
      hide BinsOk, HeapOk, Has;
      DropVictimAlone(View());
      var p, dvs := dv, dvsize;
      dvsize := 0;
      dv := 0;
      TakeWhole(p, dvs);
    }

    /** `nb < topsize`: the low end of top is taken. */
    method TakeTop(nb: nat) returns (p: int)
      requires InHand({}) && MIN_CHUNK_SIZE <= nb < topsize && nb % 16 == 0
      modifies `tags, `chunks, `top, `topsize
      ensures InHand({}) && Took(old(View()), View(), p, nb) && p > 0 && p % 16 == 0 && Limit() == old(Limit())
      ensures p == old(top) && LeftTop(old(View()), View(), p, nb, nb)
    {
      hide BinsOk, HeapOk, Took, SetUsedChunk, SetHead;
      TakeTopOk(View(), nb);
      ghost var h := TopTaken(View(), nb);
      topsize := topsize - nb;
      p := top;
      top := p + nb;
      chunks := chunks + {top};
      tags := SetHead(tags, top, Head(topsize, false, true));
      tags := SetUsedChunk(tags, p, nb);
      assert View() == h;
    }

    /* --------------------------------- small and large requests --------------------------------- */

    /** `tmalloc_large`: the best fitting binned chunk, unless the victim fits better. */
    method TmallocLarge(nb: nat) returns (mem: int, ghost n: nat)
      requires InHand({}) && 256 <= nb < NONE && nb % 16 == 0
      modifies `tags, `chunks, `links, `smallmap, `treebins, `treemap, `contents, `faults
      ensures InHand({}) && faults == old(faults) && Served(old(View()), View(), mem, n, nb)
      ensures mem == 0 ==> BestFit(contents.sz, nb, if nb <= dvsize then dvsize else NONE) && contents == old(contents)
      ensures mem != 0 ==>
        && mem - 16 in old(contents).sz
        && nb <= old(contents).sz[mem - 16] && BestFit(old(contents).sz, nb, old(contents).sz[mem - 16])
        && (nb <= dvsize ==> old(contents).sz[mem - 16] < dvsize)
      ensures mem != 0 ==> old(!NothingFits(View(), nb)) && LeftBinned(old(View()), View(), mem - 16, nb, n)
    {
      hide InHand, BinsReady, BestFit, Has, BinsOk, HeapOk, Took, HeadsHoldSizes, NothingFits, LeftBinned;
      mem, n := 0, 0;
      ReadyInHand({});
      var v, rsize := FindLarge(nb);
      LargeDecision(contents.sz, nb, v, rsize, dvsize);
      if v != 0 && rsize < Sub64(dvsize, nb) {
        BinnedAddress(v);
        BinnedFits(v, nb);
        var ok := RtCheck(OkAddress(v) && v < v + nb);
        if ok {
          n := UseBinned(v, nb, rsize);
          mem := v + 16;
        }
      }
    }

    /** A chunk leaves its bin and is put in use; what it has too much goes back to the bins. */
    method UseBinned(v: int, nb: nat, rsize: nat) returns (ghost n: nat)
      requires InHand({}) && v in contents.sz && contents.sz[v] == nb + rsize && 256 <= nb && nb % 16 == 0
      modifies `tags, `chunks, `links, `smallmap, `treebins, `treemap, `contents, `faults
      ensures InHand({}) && faults == old(faults) && Served(old(View()), View(), v + 16, n, nb)
      ensures LeftBinned(old(View()), View(), v, nb, n)
    {
      hide InHand, HeapOk, Has, BinsOk, Took;
      BinnedAddress(v);
      ghost var h := View();
      UnlinkChunk(v, rsize + nb, {});
      ghost var h' := View();
      BookkeepingOnly(h, h');
      TakeAndBin(v, nb, rsize);
      n := if rsize < MIN_CHUNK_SIZE then nb + rsize else nb;
      TookAfter(h, h', View(), v, n);
    }

    /** `tmalloc_small`: the smallest chunk of all tries; what it has too much becomes the victim. */
    method TmallocSmall(nb: nat) returns (mem: int, ghost n: nat)
      requires InHand({}) && treemap != 0 && MIN_CHUNK_SIZE <= nb < 256 && nb % 16 == 0 && IsSmall(dvsize)
      modifies `tags, `chunks, `links, `smallmap, `treebins, `treemap, `contents, `faults, `dv, `dvsize
      ensures InHand({}) && faults == old(faults) && mem != 0 && Served(old(View()), View(), mem, n, nb)
      ensures mem - 16 in old(contents).sz && BestFit(old(contents).sz, nb, old(contents).sz[mem - 16])
      ensures nb <= old(contents).sz[mem - 16] && !IsSmall(old(contents).sz[mem - 16])
      ensures old(!NothingFits(View(), nb)) && LeftBinned(old(View()), View(), mem - 16, nb, n)
    {
      hide InHand, BestFit, Has, BinsOk, HeapOk, NothingFits, LeftBinned;
      mem, n := 0, 0;
      ReadyInHand({});
      var v, rsize := FindSmallest(nb);
      var ok := RtCheck(OkAddress(v) && v < v + nb);
      BinnedFits(v, nb);
      if ok {
        n := UseForDv(v, nb, rsize);
        mem := v + 16;
      }
    }

    /** The search of `tmalloc_small`. */
    method FindSmallest(nb: nat) returns (v: int, rsize: nat)
      requires BinsReady() && treemap != 0 && 0 < nb < 256
      ensures v in contents.sz && contents.sz[v] == rsize + nb && !IsSmall(contents.sz[v])
      ensures v > 0 && BestFit(contents.sz, nb, rsize + nb)
    {
      hide BinsOk, LeastBit, Bit2Idx, Best, Sizes, Points, BestFit;
      FirstBinSmallest(BinView(), contents, nb);
      SmallCount(BinView(), contents);
      var leastbit := LeastBit(treemap);
      var i := Bit2Idx(leastbit);
      ghost var u := BinCursor(contents, i);
      BinPoints(BinView(), contents, i);
      var t := treebins[i];
      RepRoot(links, t, u.tree, u.par, i);
      WalkStep(links, t, u, contents.sz, nb);
      v := t;
      rsize := ChunkSize(tags, t) - nb;
      var left := Get(links.child0, t);
      v, rsize := WalkLeftmost(if left != 0 then left else Get(links.child1, t), nb, v, rsize, Below(t, u, left == 0));
    }

    /** A chunk leaves its bin and is put in use; what it has too much becomes the victim. */
    method UseForDv(v: int, nb: nat, rsize: nat) returns (ghost n: nat)
      requires InHand({}) && v in contents.sz && contents.sz[v] == nb + rsize
      requires MIN_CHUNK_SIZE <= nb < 256 && nb % 16 == 0 && IsSmall(dvsize)
      modifies `tags, `chunks, `links, `smallmap, `treebins, `treemap, `contents, `faults, `dv, `dvsize
      ensures InHand({}) && faults == old(faults) && Served(old(View()), View(), v + 16, n, nb)
      ensures LeftBinned(old(View()), View(), v, nb, n)
    {
      hide InHand, HeapOk, Has, BinsOk, Took;
      BinnedAddress(v);
      ghost var h := View();
      UnlinkChunk(v, rsize + nb, {});
      ghost var h' := View();
      BookkeepingOnly(h, h');
      TakeForDv(v, nb, rsize);
      n := if rsize < MIN_CHUNK_SIZE then nb + rsize else nb;
      TookAfter(h, h', View(), v, n);
    }

    /** The first chunk of a marked small bin comes into the hand. */
    method UnlinkFirst(b: int, p: int, i: nat)
      requires InHand({}) && i < NSMALLBINS && Bit(smallmap, i) && b == SmallBinAt(i) && p == Get(links.fd, b)
      modifies `links, `smallmap, `contents, `faults
      ensures InHand({p}) && ChunkSize(tags, p) == 8 * i && p > 0 && p % 16 == 0
      ensures faults == old(faults) && SameUse(old(View()), View())
      ensures p in old(contents.sz) && old(contents.sz)[p] == 8 * i && FirstIn(old(contents.small), i, p)
      ensures contents.sz == old(contents.sz) - {p}
    {
      hide BinsOk, HeapOk, Bit, SameUse;
      ReadyInHand({});
      FirstSmall(BinView(), contents, i);
      BinnedAddress(p);
      ghost var h := View();
      DropBinned(h, {}, p);
      BookkeepingOnly(h, h.(sz := h.sz - {p}));
      UnlinkFirstSmallChunk(b, p, i);
      assert View() == h.(sz := h.sz - {p});
    }

    lemma FirstFits(i: nat, nb: nat)
      requires InHand({}) && i < NSMALLBINS && Bit(smallmap, i) && nb <= 8 * i
      ensures !NothingFits(View(), nb)
    {
      hide HeapOk, BinsOk, Bit, NothingFits;
      FirstSmall(BinView(), contents, i);
      BinnedFits(Get(links.fd, SmallBinAt(i)), nb);
    }

    /** A remainderless fit: the first chunk of small bin `i`. */
    method TakeFromSmallBin(i: nat, ghost nb: nat) returns (mem: int)
      requires InHand({}) && i < NSMALLBINS && Bit(smallmap, i) && nb <= 8 * i < nb + MIN_CHUNK_SIZE
      modifies `tags, `links, `smallmap, `contents, `faults
      ensures InHand({}) && faults == old(faults) && mem != 0 && Served(old(View()), View(), mem, 8 * i, nb)
      ensures old(!NothingFits(View(), nb)) && FirstIn(old(contents.small), i, mem - 16)
      ensures mem - 16 in old(contents.sz) && old(contents.sz)[mem - 16] == 8 * i
      ensures LeftBinned(old(View()), View(), mem - 16, nb, 8 * i)
    {
      hide InHand, HeapOk, Has, BinsOk, Took, Bit, NothingFits, FirstIn;
      ghost var h := View();
      FirstFits(i, nb);
      var b := SmallBinAt(i);
      var p := Get(links.fd, b);
      UnlinkFirst(b, p, i);
      ghost var h' := View();
      TakeWhole(p, 8 * i);
      TookAfter(h, h', View(), p, 8 * i);
      mem := p + 16;
    }

    /** The first chunk of a small bin that is too large; the rest becomes the victim. */
    method SplitFromSmallBin(i: nat, nb: nat) returns (mem: int, ghost n: nat)
      requires InHand({}) && i < NSMALLBINS && Bit(smallmap, i) && nb < 8 * i
      requires MIN_CHUNK_SIZE <= nb < 256 && nb % 16 == 0 && IsSmall(dvsize)
      modifies `tags, `chunks, `links, `smallmap, `treebins, `treemap, `contents, `faults, `dv, `dvsize
      ensures InHand({}) && faults == old(faults) && mem != 0 && Served(old(View()), View(), mem, n, nb)
      ensures old(!NothingFits(View(), nb)) && FirstIn(old(contents.small), i, mem - 16)
      ensures mem - 16 in old(contents.sz) && old(contents.sz)[mem - 16] == 8 * i
      ensures LeftBinned(old(View()), View(), mem - 16, nb, n)
    {
      hide InHand, HeapOk, Has, BinsOk, Took, Bit, NothingFits, FirstIn;
      ghost var h := View();
      FirstFits(i, nb);
      var b := SmallBinAt(i);
      var p := Get(links.fd, b);
      UnlinkFirst(b, p, i);
      ghost var h' := View();
      var rsize := 8 * i - nb;
      TakeForDv(p, nb, rsize);
      n := if rsize < MIN_CHUNK_SIZE then nb + rsize else nb;
      TookAfter(h, h', View(), p, n);
      mem := p + 16;
    }

    /** The part of `dlmalloc` that looks for a small request in the bins. */
    method MallocSmall(nb: nat, ghost place: int) returns (mem: int, ghost n: nat)
      requires Valid() && MIN_CHUNK_SIZE <= nb < 248 && nb % 16 == 0
      modifies `tags, `chunks, `links, `smallmap, `treebins, `treemap, `contents, `faults, `dv, `dvsize
      ensures Valid() && faults == old(faults) && Served(old(View()), View(), mem, n, nb)
      ensures mem == 0 ==> BinsPassed(View(), contents.small, nb) && contents == old(contents)
      ensures mem != 0 ==> old(!NothingFits(View(), nb)) && Left(old(View()), View(), mem - 16, nb, n)
      ensures mem != 0 ==> SmallChoice(old(View()), old(contents.small), mem - 16, nb, place)
    {
      hide Valid, InHand, HeapOk, Has, BinsOk, Bit, Shr, And, Odd, Took, NothingFits, FirstIn, LeftBinned, IsSmall;
      mem, n := 0, 0;
      var idx := SmallIndex(nb);
      var smallbits := Shr(smallmap, idx);
      LowTwoBits(smallmap, idx);
      BinsInPlace();
      MarkedHolds(BinView(), contents, idx);
      MarkedHolds(BinView(), contents, idx + 1);
      if And(smallbits, 3) != 0 {
        AndZero(smallbits, 3);
        MarkedIsInHand(idx);
        idx := idx + if Odd(smallbits) then 0 else 1;
        mem := TakeFromSmallBin(idx, nb);
        n := 8 * idx;
        InHandIsValid();
      } else if nb > dvsize {
        mem, n := MallocNextSmall(nb, idx, smallbits);
      }
    }

    /** The victim is too small: the next marked small bin, or the smallest chunk of the tries. */
    method MallocNextSmall(nb: nat, idx: nat, smallbits: bv32) returns (mem: int, ghost n: nat)
      requires Valid() && MIN_CHUNK_SIZE <= nb < 248 && nb % 16 == 0 && dvsize < nb
      requires idx == SmallIndex(nb) && smallbits == Shr(smallmap, idx) && !Bit(smallmap, idx)
      requires !Bit(smallmap, idx + 1)
      modifies `tags, `chunks, `links, `smallmap, `treebins, `treemap, `contents, `faults, `dv, `dvsize
      ensures Valid() && faults == old(faults) && Served(old(View()), View(), mem, n, nb)
      ensures mem == 0 ==> NoneBinned(View(), nb) && contents == old(contents)
      ensures mem != 0 ==> old(!NothingFits(View(), nb)) && LeastBinned(old(View()), mem - 16, nb)
      ensures mem != 0 ==> LeftBinned(old(View()), View(), mem - 16, nb, n)
      ensures mem != 0 && IsSmall(old(contents.sz)[mem - 16]) ==>
        FirstIn(old(contents.small), SmallIndex(old(contents.sz)[mem - 16]), mem - 16)
    {
      hide Valid, InHand, HeapOk, Has, BinsOk, Took, Bit, Shr, And, LeastBit, LeftBits, Shl, Idx2Bit, Bit2Idx;
      hide FirstIn, LeftBinned, LeastBinned, BestFit, NothingFits;
      mem, n := 0, 0;
      BinsInPlace();
      ghost var b, c, h := BinView(), contents, View();
      if smallbits != 0 {
        MarkedIsInHand(idx);
        NextSmallBin(smallmap, idx);
        var leftbits := And(Shl(smallbits, idx), LeftBits(Idx2Bit(idx)));
        var leastbit := LeastBit(leftbits);
        var i := Bit2Idx(leastbit);
        NoneBetween(smallmap, idx, i);
        mem, n := SplitFromSmallBin(i, nb);
        SmallFound(b, c, h, nb, i, mem - 16);
        InHandIsValid();
      } else if treemap != 0 {
        NoSmallFits(b, c, nb);
        TriesInHand();
        mem, n := TmallocSmall(nb);
        SmallestFound(h, nb, mem - 16);
        InHandIsValid();
      } else {
        NothingBinned(b, c, nb);
      }
    }

    lemma NoneBetween(marks: bv32, idx: nat, i: nat)
      requires !Bit(marks, idx) && forall j: nat :: idx < j < i ==> !Bit(marks, j)
      ensures forall j: nat :: idx <= j < i ==> !Bit(marks, j)
    {
      hide Bit;
    }

    lemma TriesInHand()
      requires Valid() && treemap != 0
      ensures InHand({})
    {
    }

    lemma BinsInPlace()
      requires Valid()
      ensures BinsOk(BinView(), contents)
    {
    }

    lemma MarkedIsInHand(idx: nat)
      requires Valid() && Shr(smallmap, idx) != 0
      ensures InHand({})
    {
      ShrZero(idx);
    }

    lemma InHandIsValid()
      requires InHand({})
      ensures Valid() && top != 0 && top > 0
    {
      AddressOk(View(), {}, top);
    }

    lemma BinnedFits(v: int, nb: nat)
      requires InHand({}) && v in contents.sz && contents.sz[v] >= nb
      ensures !NothingFits(View(), nb)
    {
      hide BinsOk, Has, TagsOk;
    }

    lemma BinnedAddress(v: int)
      requires InHand({}) && v in contents.sz
      ensures v > 0 && v % 16 == 0 && {} + {v} == {v} && ChunkSize(tags, v) == contents.sz[v] && OkAddress(v)
    {
      BinnedIsFree(View(), {}, v);
      AddressOk(View(), {}, v);
    }

    /* ------------------------------- memory from the system ------------------------------- */

    /** `init_top`. */
    method InitTop(p: int, psize: nat)
      requires AlignOffset(p) <= psize
      modifies `tags, `top, `topsize, `trimCheck
      ensures top == p + AlignOffset(p) && topsize == psize - AlignOffset(p) && trimCheck == TRIM_THRESHOLD
      ensures tags ==
        SetHead(SetHead(old(tags), top, Head(topsize, false, true)), top + topsize, Head(TOP_FOOT_SIZE, false, false))
    {
      var offset := AlignOffset(p);
      top := p + offset;
      topsize := psize - offset;
      tags := SetHead(tags, top, Head(topsize, false, true));
      tags := SetHead(tags, top + topsize, Head(TOP_FOOT_SIZE, false, false));
      trimCheck := TRIM_THRESHOLD;
    }

    /** `init_bins`. */
    method InitBins()
      requires BinsOk(BinView(), contents) && contents.sz == map[]
      modifies `links
      ensures BinsOk(BinView(), contents)
      ensures forall i: nat :: i < NSMALLBINS ==> Linked(links.fd, links.bk, SmallBinAt(i), SmallBinAt(i))
    {
      ghost var was := BinView();
      for i := 0 to NSMALLBINS
        invariant forall j: nat :: j < i ==> Linked(links.fd, links.bk, SmallBinAt(j), SmallBinAt(j))
      {
        var bin := SmallBinAt(i);
        links := links.(fd := links.fd[bin := bin], bk := links.bk[bin := bin]);
      }
      EmptyBinsOk(was, contents, links);
    }

    method GrowFootprint(tsize: nat)
      modifies `footprint, `maxFootprint
      ensures footprint == old(footprint) + tsize
      ensures maxFootprint == if footprint > old(maxFootprint) then footprint else old(maxFootprint)
    {
      footprint := footprint + tsize;
      if footprint > maxFootprint {
        maxFootprint := footprint;
      }
    }

    method PlaceSegment(tbase: nat, tsize: nat)
      requires leastAddr == 0
      modifies `leastAddr, `segBase, `segSize
      ensures leastAddr == segBase == tbase && segSize == tsize
    {
      if leastAddr == 0 || tbase < leastAddr {
        leastAddr := tbase;
      }
      segBase := tbase;
      segSize := tsize;
    }

    /** The first memory from the system, `tsize` bytes at `tbase`. */
    method FirstSegment(tbase: nat, tsize: nat)
      requires Untouched() && 0 < tbase && 128 <= tsize < SIZE_BOUND && (tbase + tsize) % 16 == 0
      modifies `footprint, `maxFootprint, `leastAddr, `segBase, `segSize
      modifies `links, `tags, `top, `topsize, `trimCheck, `chunks
      ensures InHand({}) && segBase == tbase && footprint == segSize == tsize && topsize + 96 > tsize
      ensures top == tbase + AlignOffset(tbase)
      ensures maxFootprint == if footprint > old(maxFootprint) then footprint else old(maxFootprint)
      ensures Limit() == End(tbase + tsize - TOP_FOOT_SIZE, TRIM_THRESHOLD)
      ensures forall a :: Has(View(), a) == Nothing
      ensures forall i: nat :: i < NSMALLBINS ==> Linked(links.fd, links.bk, SmallBinAt(i), SmallBinAt(i))
    {
      hide BinsOk, HeapOk, Has, Linked;
      GrowFootprint(tsize);
      PlaceSegment(tbase, tsize);
      InitBins();
      FirstTop();
    }

    /** Top is all of a segment that was just obtained. */
    method FirstTop()
      requires BinsOk(BinView(), contents) && contents.sz == map[] && dv == 0 && dvsize == 0
      requires 0 < segBase == leastAddr && footprint == segSize <= maxFootprint
      requires 128 <= segSize < SIZE_BOUND && (segBase + segSize) % 16 == 0
      modifies `tags, `top, `topsize, `trimCheck, `chunks
      ensures InHand({}) && topsize + 96 > segSize && forall a :: Has(View(), a) == Nothing
      ensures top == segBase + AlignOffset(segBase)
      ensures Limit() == End(segBase + segSize - TOP_FOOT_SIZE, TRIM_THRESHOLD)
    {
      hide BinsOk, HeapOk, SetHead, AlignOffset, Has;
      AlignOffsetOk(segBase);
      ghost var t0 := tags;
      InitTop(segBase, segSize - TOP_FOOT_SIZE);
      chunks := {top};
      FirstTopOk(View(), t0, topsize);
    }

    /** More memory behind the segment's end. */
    method ExtendSegment(tsize: nat)
      requires InHand({}) && tsize % 16 == 0 && segSize + tsize < SIZE_BOUND
      modifies `tags, `topsize, `top, `trimCheck, `segSize, `footprint, `maxFootprint
      ensures InHand({}) && top == old(top) && topsize == old(topsize) + tsize && segSize == old(segSize) + tsize
      ensures footprint == old(footprint) + tsize && trimCheck == TRIM_THRESHOLD
      ensures maxFootprint == if footprint > old(maxFootprint) then footprint else old(maxFootprint)
      ensures SameUse(old(View()), View())
    {
      hide BinsOk, HeapOk, SetHead, SameUse, AlignOffset;
      TopAligned(View(), {});
      AlignOffsetOk(top);
      ResizeTopOk(View(), topsize + tsize);
      ghost var h := TopResized(View(), topsize + tsize);
      GrowFootprint(tsize);
      segSize := segSize + tsize;
      InitTop(top, topsize + tsize);
      assert View() == h;
    }

    /** `sys_alloc`, with MORECORE that extends the segment or fails. */
    method SysAlloc(nb: nat, sys: Morecore) returns (mem: int)
      requires Valid() && Bounded(sys) && 32 <= nb <= MAX_SIZE_T && topsize <= nb && (nb % 16 == 0 || nb == MAX_SIZE_T)
      modifies `footprint, `maxFootprint, `leastAddr, `segBase, `segSize
      modifies `links, `tags, `top, `topsize, `trimCheck, `chunks
      ensures Valid() && Served(old(View()), View(), mem, nb, nb)
      ensures mem != 0 <==> old(SystemServes(Snap(), nb, sys))
      ensures if mem == 0 then Snap() == old(Snap()) else Limit() == old(GrownEnd(Snap(), nb, sys))
      ensures nb == MAX_SIZE_T ==> mem == 0
      ensures mem != 0 ==>
        mem - 16 == old(TopStart(sys.start)) && LeftTop(old(View()), View(), mem - 16, nb, nb) && topsize > 0
      ensures mem != 0 ==>
        && topsize < SYS_ALLOC_PADDING + (if old(top) != 0 then PAGE_SIZE else 2 * PAGE_SIZE)
        && WholePages(old(top), old(segSize), old(footprint))
      ensures maxFootprint == if footprint > old(maxFootprint) then footprint else old(maxFootprint)
      ensures footprint > old(footprint) && footprintLimit != 0 ==> footprint <= footprintLimit
      ensures old(top) != 0 ==> top != 0 && segBase == old(segBase) && segSize >= old(segSize)
      ensures old(top) == 0 && top != 0 ==> segBase == sys.start
    {
      hide Valid, InHand, Untouched, HeapOk, Has, AlignUp, Took, SystemSize, AlignOffset, WholePages, Extends;
      hide GrownEnd, InUse, ExtraSize, FirstSize;
      PeakKnown();
      mem := 0;
      var asize := SystemSize(nb);
      SystemSizeOk(nb);
      if asize <= nb {
        return;
      }
      if footprintLimit != 0 {
        var fp := (footprint + asize) % WORD;
        if fp <= footprint || fp > footprintLimit {
          return;
        }
      }
      var got := Obtain(nb, asize, sys);
      ghost var h := View();
      if got && nb < topsize {
        InHandIsValid();
        var p := TakeTop(nb);
        mem := p + 16;
        TookAfter(old(View()), h, View(), p, nb);
        InHandIsValid();
      }
    }

    /** The segment was extended by whole pages, or is the first one and ends with a page. */
    ghost predicate WholePages(wasTop: int, wasSize: nat, wasFootprint: nat)
      reads `segBase, `segSize, `footprint
    {
      if wasTop != 0 then
        (segSize - wasSize) % PAGE_SIZE == 0 && footprint - wasFootprint == segSize - wasSize
      else (segBase + segSize) % PAGE_SIZE == 0 && footprint - wasFootprint == segSize
    }

    lemma PeakKnown()
      requires Valid()
      ensures footprint <= maxFootprint
    {
    }

    /** The attempt to get memory: the first segment, or more behind the one there is. */
    method Obtain(nb: nat, asize: nat, sys: Morecore) returns (got: bool)
      requires Valid() && Bounded(sys) && 32 <= nb < MAX_SIZE_T && topsize <= nb
      requires nb + SYS_ALLOC_PADDING <= asize < nb + SYS_ALLOC_PADDING + PAGE_SIZE
      requires asize < WORD && asize % PAGE_SIZE == 0
      requires footprintLimit != 0 ==> footprint < (footprint + asize) % WORD <= footprintLimit
      modifies `footprint, `maxFootprint, `leastAddr, `segBase, `segSize
      modifies `links, `tags, `top, `topsize, `trimCheck, `chunks
      ensures if got then InHand({}) && nb < topsize else Valid() && View() == old(View())
      ensures got <==> old(Extends(Snap(), nb, asize, sys))
      ensures !got ==> Snap() == old(Snap())
      ensures got && asize == SystemSize(nb) ==> Limit() == old(GrownEnd(Snap(), nb, sys))
      ensures SameUse(old(View()), View())
      ensures got ==>
        && top == old(TopStart(sys.start)) && WholePages(old(top), old(segSize), old(footprint))
        && topsize < nb + SYS_ALLOC_PADDING + (if old(top) != 0 then PAGE_SIZE else 2 * PAGE_SIZE)
      ensures maxFootprint == if footprint > old(maxFootprint) then footprint else old(maxFootprint)
      ensures footprint > old(footprint) && footprintLimit != 0 ==> footprint <= footprintLimit
      ensures old(top) != 0 ==> top != 0 && segBase == old(segBase) && segSize >= old(segSize)
      ensures old(top) == 0 && top != 0 ==> segBase == sys.start
    {
      hide InHand, Untouched, HeapOk, Has, AlignUp, AlignOffset;
      if top == 0 {
        got := ObtainFirst(nb, asize, sys);
      } else {
        got := ObtainMore(nb, asize, sys);
      }
    }

    method ObtainFirst(nb: nat, asize: nat, sys: Morecore) returns (got: bool)
      requires Untouched() && Bounded(sys) && top == 0 && 32 <= nb < MAX_SIZE_T
      requires nb + SYS_ALLOC_PADDING <= asize < nb + SYS_ALLOC_PADDING + PAGE_SIZE
      requires asize < WORD && asize % PAGE_SIZE == 0
      modifies `footprint, `maxFootprint, `leastAddr, `segBase, `segSize
      modifies `links, `tags, `top, `topsize, `trimCheck, `chunks
      ensures if got then InHand({}) && nb < topsize else Untouched() && View() == old(View())
      ensures got <==> old(Extends(Snap(), nb, asize, sys))
      ensures !got ==> Snap() == old(Snap())
      ensures got && asize == SystemSize(nb) ==> Limit() == old(GrownEnd(Snap(), nb, sys))
      ensures SameUse(old(View()), View()) && (top != 0 ==> segBase == sys.start)
      ensures got ==>
        && top == old(TopStart(sys.start)) && WholePages(0, old(segSize), old(footprint))
        && topsize < nb + SYS_ALLOC_PADDING + 2 * PAGE_SIZE
      ensures maxFootprint == if footprint > old(maxFootprint) then footprint else old(maxFootprint)
      ensures footprint > old(footprint) && footprintLimit != 0 ==> footprint <= footprintLimit
    {
      hide InHand, Untouched, HeapOk, Has, FirstSize, HeadOf, AlignOffset;
      NothingThere();
      got := false;
      var base := sys.start;
      var ssize := FirstSize(base, asize);
      FirstSizeOk(base, asize);
      if ssize < HALF_MAX_SIZE_T {
        SumFits(footprint, ssize);
      }
      var fp := (footprint + ssize) % WORD;
      if ssize > nb && ssize < HALF_MAX_SIZE_T && (footprintLimit == 0 || (fp > footprint && fp <= footprintLimit)) {
        if Moves(sys, base, ssize) {
          FirstSegment(base, ssize);
          got := true;
        }
      }
    }

    lemma NothingThere()
      requires Untouched()
      ensures footprint == 0 && forall a :: Has(View(), a) == Nothing
    {
    }

    method ObtainMore(nb: nat, asize: nat, sys: Morecore) returns (got: bool)
      requires InHand({}) && Bounded(sys) && top != 0 && 32 <= nb < MAX_SIZE_T && topsize <= nb
      requires nb + SYS_ALLOC_PADDING <= asize < nb + SYS_ALLOC_PADDING + PAGE_SIZE
      requires asize < WORD && asize % PAGE_SIZE == 0
      requires footprintLimit != 0 ==> footprint < (footprint + asize) % WORD <= footprintLimit
      modifies `footprint, `maxFootprint, `segSize, `tags, `top, `topsize, `trimCheck
      ensures InHand({}) && (if got then nb < topsize else View() == old(View()))
      ensures got <==> old(Extends(Snap(), nb, asize, sys))
      ensures !got ==> Snap() == old(Snap())
      ensures got && asize == SystemSize(nb) ==> Limit() == old(GrownEnd(Snap(), nb, sys))
      ensures SameUse(old(View()), View())
      ensures got ==>
        WholePages(old(top), old(segSize), old(footprint)) && topsize < nb + SYS_ALLOC_PADDING + PAGE_SIZE
      ensures maxFootprint == if footprint > old(maxFootprint) then footprint else old(maxFootprint)
      ensures footprint > old(footprint) && footprintLimit != 0 ==> footprint <= footprintLimit
      ensures segSize >= old(segSize) && top == old(top)
    {
      hide HeapOk, Has, ExtraSize, BinsOk, AlignOffset;
      got := false;
      var ssize := ExtraSize(nb, topsize);
      ExtraSizeOk(nb, topsize, asize);
      if footprintLimit != 0 {
        SumGrows(footprint, asize);
      }
      if ssize < HALF_MAX_SIZE_T && Moves(sys, segBase + segSize, ssize) {
        ExtendSegment(ssize);
        got := true;
      }
    }

    /* -------------------------------------- malloc -------------------------------------- */

    /** `dlmalloc`. */
    method DlMalloc(bytes: nat, sys: Morecore) returns (mem: int, ghost n: nat)
      requires Valid() && Bounded(sys) && bytes <= MAX_SIZE_T
      modifies `links, `smallmap, `treebins, `treemap, `contents, `faults, `dv, `dvsize, `tags, `chunks, `top, `topsize
      modifies `trimCheck, `segBase, `segSize, `leastAddr, `footprint, `maxFootprint
      ensures Valid() && faults == old(faults)
      ensures Served(old(View()), View(), mem, n, RequestedSize(bytes))
      ensures mem != 0 <==> old(CanServe(Snap(), RequestedSize(bytes), sys))
      ensures if mem == 0 then Snap() == old(Snap()) else Limit() == old(ServedEnd(Snap(), RequestedSize(bytes), sys))
      ensures mem == 0 ==> NothingFits(View(), RequestedSize(bytes))
      ensures bytes >= MAX_REQUEST ==> mem == 0
      ensures mem != 0 ==>
        && Chosen(old(View()), old(contents.small), mem - 16, RequestedSize(bytes), old(TopStart(sys.start)))
        && Left(old(View()), View(), mem - 16, RequestedSize(bytes), n)
      ensures maxFootprint == if footprint > old(maxFootprint) then footprint else old(maxFootprint)
      ensures mem != 0 && old(top) != 0 && mem - 16 == old(top) ==> old(NoneFree(View(), RequestedSize(bytes)))
      ensures footprint > old(footprint) && footprintLimit != 0 ==> footprint <= footprintLimit
      ensures old(top) != 0 ==> top != 0 && segBase == old(segBase) && segSize >= old(segSize)
      ensures old(top) == 0 && top != 0 ==> segBase == sys.start
    {
      hide Valid, InHand, HeapOk, Has, BinsOk, Took, NothingFits, PadRequest, ServedEnd, GrownEnd, SystemServes;
      hide Chosen, FirstIn, NoneFree, AlignOffset, Left, BinsPassed, RequestedSize, Request2Size;
      PeakKnown();
      FittingEnd(Snap(), RequestedSize(bytes), sys);
      ghost var h, small, wasTop, place := View(), contents.small, top, TopStart(sys.start);
      if top != 0 {
        TopInHand();
        HeapInHand({});
        FirstsBinned(BinView(), contents);
      }
      var nb;
      mem, n, nb := MallocFromBins(bytes, place);
      if mem == 0 {
        mem, n := MallocRest(nb, sys);
      }
      if mem != 0 && wasTop != 0 && mem - 16 == wasTop {
        TopIsLast(h, small, mem - 16, nb, place);
      }
    }

    /** The first part of `dlmalloc`: the chunk size, and the bins. */
    method MallocFromBins(bytes: nat, ghost place: int) returns (mem: int, ghost n: nat, nb: nat)
      requires Valid()
      modifies `tags, `chunks, `links, `smallmap, `treebins, `treemap, `contents, `faults, `dv, `dvsize
      ensures Valid() && faults == old(faults) && Served(old(View()), View(), mem, n, nb)
      ensures nb == RequestedSize(bytes) && 32 <= nb <= MAX_SIZE_T && (nb % 16 == 0 || nb == MAX_SIZE_T)
      ensures mem == 0 ==> BinsPassed(View(), contents.small, nb) && contents == old(contents)
      ensures mem != 0 ==> old(!NothingFits(View(), nb)) && Left(old(View()), View(), mem - 16, nb, n)
      ensures mem != 0 ==> Chosen(old(View()), old(contents.small), mem - 16, nb, place)
      ensures bytes >= MAX_REQUEST ==> mem == 0 && nb == MAX_SIZE_T
      ensures nb == MAX_SIZE_T ==> dvsize < nb && topsize < nb
    {
      hide Valid, InHand, HeapOk, Has, BinsOk, Took, NothingFits, PadRequest, SmallChoice, LargeChoice, Left;
      hide BinsPassed, RequestedSize, Request2Size;
      mem, n := 0, 0;
      RequestCases(bytes);
      if bytes <= MAX_SMALL_REQUEST {
        nb := if bytes < MIN_REQUEST then MIN_CHUNK_SIZE else PadRequest(bytes);
        mem, n := MallocSmall(nb, place);
      } else if bytes >= MAX_REQUEST {
        nb := MAX_SIZE_T;
        AllBelow(nb);
      } else {
        nb := PadRequest(bytes);
        mem, n := MallocLarge(nb, place);
      }
    }

    /** The victim, top, and at last the system. */
    method MallocRest(nb: nat, sys: Morecore) returns (mem: int, ghost n: nat)
      requires Valid() && Bounded(sys) && 32 <= nb <= MAX_SIZE_T && (nb % 16 == 0 || nb == MAX_SIZE_T)
      requires nb == MAX_SIZE_T ==> dvsize < nb && topsize < nb
      requires BinsPassed(View(), contents.small, nb)
      modifies `footprint, `maxFootprint, `leastAddr, `segBase, `segSize, `dv, `dvsize
      modifies `links, `tags, `top, `topsize, `trimCheck, `chunks
      ensures Valid() && Served(old(View()), View(), mem, n, nb)
      ensures mem != 0 <==> old(CanServe(Snap(), nb, sys))
      ensures if mem == 0 then Snap() == old(Snap()) else Limit() == old(ServedEnd(Snap(), nb, sys))
      ensures mem == 0 ==> NothingFits(View(), nb)
      ensures nb == MAX_SIZE_T ==> mem == 0
      ensures mem != 0 ==>
        && Chosen(old(View()), old(contents.small), mem - 16, nb, old(TopStart(sys.start)))
        && Left(old(View()), View(), mem - 16, nb, n)
      ensures maxFootprint == if footprint > old(maxFootprint) then footprint else old(maxFootprint)
      ensures footprint > old(footprint) && footprintLimit != 0 ==> footprint <= footprintLimit
      ensures old(top) != 0 ==> top != 0 && segBase == old(segBase) && segSize >= old(segSize)
      ensures old(top) == 0 && top != 0 ==> segBase == sys.start
    {
      hide Valid, InHand, HeapOk, Has, BinsOk, Took, NothingFits, BinsPassed, Chosen, LeftVictim, LeftTop, AlignOffset;
      PeakKnown();
      ghost var h, place := View(), TopStart(sys.start);
      n := nb;
      if nb <= dvsize {
        VictimInHand();
        HeapInHand({});
        VictimFits(nb);
        VictimKnown({});
        VictimChosen(h, contents.small, nb, place);
        var p;
        p, n := TakeDv(nb);
        mem := p + 16;
        InHandIsValid();
      } else if nb < topsize {
        TopInHand();
        HeapInHand({});
        TopFits(nb);
        TopChosen(h, contents.small, nb, place);
        TopNotKept(h);
        var p := TakeTop(nb);
        mem := p + 16;
        InHandIsValid();
      } else {
        FreeBelow(nb);
        TopTakenLast(nb, place);
        mem := SysAlloc(nb, sys);
      }
    }

    /** The part of `dlmalloc` that looks for a large request in the bins. */
    method MallocLarge(nb: nat, ghost place: int) returns (mem: int, ghost n: nat)
      requires Valid() && 256 <= nb < NONE && nb % 16 == 0
      modifies `tags, `chunks, `links, `smallmap, `treebins, `treemap, `contents, `faults
      ensures Valid() && faults == old(faults) && Served(old(View()), View(), mem, n, nb)
      ensures mem == 0 ==> BinsPassed(View(), contents.small, nb) && contents == old(contents)
      ensures mem != 0 ==> old(!NothingFits(View(), nb)) && Left(old(View()), View(), mem - 16, nb, n)
      ensures mem != 0 ==> LargeChoice(old(View()), mem - 16, nb, place)
    {
      hide Valid, InHand, HeapOk, Has, BinsOk, Took, LeftBinned, LargeChoice, BestFit, BinsPassed, NothingFits;
      mem, n := 0, 0;
      BinsInPlace();
      ghost var b, c, h := BinView(), contents, View();
      SmallCount(b, c);
      if treemap != 0 {
        TriesInHand();
        HeapInHand({});
        mem, n := TmallocLarge(nb);
        InHandIsValid();
        if mem != 0 {
          LargeFound(h, mem - 16, nb, place);
        } else {
          LargePassed(h, c.small, nb);
        }
      } else {
        NoLargeBinned(b, c);
        NoLargePassed(h, c.small, nb);
      }
    }

    lemma HeapInHand(loose: set<int>)
      requires InHand(loose)
      ensures HeapOk(View(), loose) && BinsOk(BinView(), contents)
    {
    }

    /** Whether there is a segment already or not, top is the last choice. */
    lemma TopTakenLast(nb: nat, place: int)
      requires Valid() && dvsize < nb && BinsPassed(View(), contents.small, nb)
      ensures Chosen(View(), contents.small, place, nb, place)
      ensures (top != 0 ==> top !in contents.sz && (dv != 0 ==> top != dv))
      ensures top == 0 ==> contents.sz == map[] && dv == 0
    {
      hide BinsOk, Chosen;
      if top != 0 {
        TopChosen(View(), contents.small, nb, place);
        TopNotKept(View());
      } else {
        NothingThere();
        NothingChosen(View(), contents.small, nb, place);
      }
    }

    lemma AllBelow(nb: nat)
      requires Valid() && nb >= SIZE_BOUND
      ensures dvsize < nb && topsize < nb && BinsPassed(View(), contents.small, nb)
    {
      if top != 0 {
        ReadyInHand({});
      }
    }

    lemma VictimInHand()
      requires Valid() && dvsize != 0
      ensures InHand({}) && top != 0
    {
    }

    lemma TopInHand()
      requires Valid() && (topsize != 0 || top != 0)
      ensures InHand({}) && top != 0
    {
    }

    lemma VictimFits(nb: nat)
      requires InHand({}) && dvsize != 0 && nb <= dvsize
      ensures !NothingFits(View(), nb)
    {
      hide BinsOk, Has, TagsOk;
    }

    lemma TopFits(nb: nat)
      requires nb < topsize
      ensures !NothingFits(View(), nb)
    {
    }

    lemma FreeBelow(nb: nat)
      requires Valid() && dvsize < nb && topsize <= nb && BinsPassed(View(), contents.small, nb)
      ensures NothingFits(View(), nb)
    {
      if top != 0 {
        FreeBound(View(), nb);
      }
    }

    /* --------------------------------------- free --------------------------------------- */

    /**
     The free space before chunk `p` is in hand as far as it was binned. This state is reached
     between the two halves of `dispose_chunk` and `dlfree`.
     */
    ghost predicate Joining(p: int, q: int, loose: set<int>)
      reads this
    {
      && InHand(loose) && ChunkAt(p).Used? && q == JoinStart(tags, p)
      && loose == (if q == p || q == dv then {} else {q})
    }

    /** The surroundings of a chunk in use. */
    lemma FreeRegion(p: int, loose: set<int>)
      requires InHand(loose) && ChunkAt(p).Used?
      ensures var q, n, e := JoinStart(tags, p), Next(tags, p), JoinEnd(tags, View().y, p);
        && Region(View(), p, q, e) && leastAddr <= q <= p < n <= e <= top && 0 < q
        && p != dv && p !in contents.sz && p !in loose && HeadOf(tags, n).pinuse && HeadOf(tags, p).cinuse
        && (HeadOf(tags, p).pinuse <==> q == p) && (HeadOf(tags, n).cinuse || n == top <==> n == e)
        && (n == top ==> !HeadOf(tags, n).cinuse) && (n == dv ==> n != e)
        && (q != p ==> ChunkAt(q) == Free(p - q) && Known(q, p - q, loose))
        && (n != e ==> ChunkAt(n) == Free(e - n) && Known(n, e - n, loose) && ChunkSize(tags, n) == e - n && e != top)
    {
      RegionOk(View(), loose, p);
      UsedIsNotVictim(View(), loose, p);
      assert HeadOf(tags, top) == Head(topsize, false, true);
      assert Base() <= JoinStart(tags, p);
    }

    /** A free chunk is the victim, or binned, or loose. */
    ghost predicate Known(a: int, size: nat, loose: set<int>)
      reads `dv, `dvsize, `contents
    {
      if a == dv then dvsize == size && dv != 0
      else a in loose || (a in contents.sz && contents.sz[a] == size)
    }

    /** Consolidation backward. It ends the operation if the victim grows up to a chunk in use. */
    method JoinBefore(p: int, next: int, size: nat) returns (q: int, psize: nat, done: bool, ghost loose: set<int>)
      requires InHand({}) && ChunkAt(p).Used? && size == ChunkSize(tags, p) && next == p + size
      modifies `links, `smallmap, `treebins, `treemap, `contents, `faults, `dvsize, `tags, `chunks
      ensures faults == old(faults)
      ensures done ==> InHand({}) && Freed(old(View()), View(), p) && Rejoined(old(View()), View(), p)
      ensures !done ==>
        && Joining(p, q, loose) && psize == next - q && SameUse(old(View()), View())
        && tags == old(tags) && chunks == old(chunks) && dvsize == old(dvsize)
        && (contents.sz == old(contents.sz) || contents.sz == old(contents.sz) - {q})
        && (q == dv ==> !HeadOf(tags, next).cinuse)
    {
      hide InHand, HeapOk, BinsOk, Has, Region, Joined;
      q, psize, done, loose := p, size, false, {};
      FreeRegion(p, {});
      ghost var h := View();
      if !HeadOf(tags, p).pinuse {
        var prevsize := FootOf(tags, p);
        q := p - prevsize;
        psize := psize + prevsize;
        var ok := RtCheck(OkAddress(q));
        if ok {
          if q != dv {
            UnlinkChunk(q, prevsize, {});
            loose := {q};
            assert {} + {q} == {q};
            BookkeepingOnly(h, View());
          } else if HeadOf(tags, next).cinuse && HeadOf(tags, next).pinuse {
            GrowVictim(p, next, q, psize);
            done := true;
          }
        }
      }
      if !done {
        BookkeepingOnly(h, View());
        assert Joining(p, q, loose);
      }
    }

    /** Which of the neighbours are not in a bin any more, or never were. */
    lemma NotBinned(p: int, q: int, loose: set<int>)
      requires InHand(loose) && ChunkAt(p).Used? && q == JoinStart(tags, p) && (q == p || q == dv || q in loose)
      ensures q !in contents.sz && q > 0
      ensures var n := Next(tags, p);
        && n > 0 && (n == top || n == dv || HeadOf(tags, n).cinuse || n in loose ==> n !in contents.sz)
    {
      FreeRegion(p, loose);
      hide BinsOk, TagsOk;
    }

    /** `m->dvsize = psize; set_free_with_pinuse(p, psize, next)`. */
    method GrowVictim(p: int, next: int, q: int, psize: nat)
      requires InHand({}) && ChunkAt(p).Used? && next == Next(tags, p) && HeadOf(tags, next).cinuse
      requires q == dv == JoinStart(tags, p) && psize == next - q
      modifies `dvsize, `tags, `chunks
      ensures InHand({}) && Freed(old(View()), View(), p) && Rejoined(old(View()), View(), p)
    {
      hide HeapOk, BinsOk, Has, Region, Freed, SetFreeWithPinuse, Rejoined;
      FreeRegion(p, {});
      NotBinned(p, q, {});
      ghost var h0 := View();
      assert {} + {q} == {q} + {};
      JoinVictimOk(View(), {}, p, q, next);
      ghost var h := JoinedHeap(View(), q, next, next).(dv := q, dvsize := psize);
      dvsize := psize;
      tags := SetFreeWithPinuse(tags, q, psize, next);
      chunks := h.y.chunks;
      assert View() == h;
      RejoinedVictim(h0, View(), p, q, next, next);
    }

    /** Consolidation forward, and the chunk that results. */
    method JoinAfter(p: int, next: int, q: int, psize: nat, ghost loose: set<int>)
      requires Joining(p, q, loose) && next == Next(tags, p) && psize == next - q
      requires q == dv ==> !HeadOf(tags, next).cinuse
      modifies `links, `smallmap, `treebins, `treemap, `contents, `faults, `dv, `dvsize, `tags, `chunks, `top, `topsize
      ensures InHand({}) && faults == old(faults) && Freed(old(View()), View(), p) && Rejoined(old(View()), View(), p)
      ensures Limit() == old(Limit()) && (if next == old(top) then top < old(top) else top == old(top))
    {
      hide InHand, HeapOk, BinsOk, Has, Region, Freed, Joined, Rejoined;
      FreeRegion(p, loose);
      if !HeadOf(tags, next).cinuse {
        if next == top {
          JoinIntoTop(p, q, psize, loose);
        } else if next == dv {
          JoinIntoDv(p, q, psize, loose);
        } else {
          JoinIntoNext(p, next, q, psize, loose);
        }
      } else {
        JoinAlone(p, next, q, psize, loose);
      }
    }

    /** What `JoinIntoTop` needs of the surroundings. */
    lemma JoinStarts(p: int, q: int, loose: set<int>)
      requires Joining(p, q, loose) && top == Next(tags, p)
      ensures q <= p < top && 0 < q && Region(View(), p, q, top)
      ensures Base() <= q
    {
      FreeRegion(p, loose);
      hide HeapOk, BinsOk, Has;
    }

    method JoinIntoTop(p: int, q: int, psize: nat, ghost loose: set<int>)
      requires Joining(p, q, loose) && top == Next(tags, p) && psize == top - q
      modifies `dv, `dvsize, `tags, `chunks, `top, `topsize
      ensures InHand({}) && Freed(old(View()), View(), p) && Limit() == old(Limit()) && top < old(top)
      ensures Rejoined(old(View()), View(), p)
    {
      hide HeapOk, BinsOk, Has, Region, Freed, SetHead, TopJoined, Rejoined;
      JoinStarts(p, q, loose);
      NotBinned(p, q, loose);
      ghost var h := View();
      JoinTopVictimOk(View(), loose, p, q);
      WriteTopJoined(q, psize);
      RejoinedTop(h, View(), p, q);
    }

    /** `m->topsize += psize; m->top = p; p->head = tsize | PINUSE_BIT`, and the victim if that is `p`. */
    method WriteTopJoined(q: int, psize: nat)
      requires q <= top && psize == top - q
      modifies `dv, `dvsize, `tags, `chunks, `top, `topsize
      ensures View() == TopJoined(old(View()), q) && top == q && Limit() == old(Limit())
    {
      hide SetHead;
      ghost var h := TopJoined(View(), q);
      topsize := topsize + psize;
      top := q;
      tags := SetHead(tags, q, Head(topsize, false, true));
      if q == dv {
        dv := 0;
        dvsize := 0;
      }
      chunks := h.y.chunks;
    }

    method JoinIntoDv(p: int, q: int, psize: nat, ghost loose: set<int>)
      requires Joining(p, q, loose) && dv == Next(tags, p) && dv != top && !HeadOf(tags, dv).cinuse && psize == dv - q
      modifies `dv, `dvsize, `tags, `chunks
      ensures InHand({}) && Freed(old(View()), View(), p) && Rejoined(old(View()), View(), p)
    {
      hide HeapOk, BinsOk, Has, Region, Freed, SetFreeChunk, Rejoined;
      FreeRegion(p, loose);
      NotBinned(p, q, loose);
      ghost var h0, n := View(), dv;
      ghost var e := JoinEnd(tags, View().y, p);
      JoinVictimOk(View(), loose, p, q, e);
      ghost var h := JoinedHeap(View(), q, dv, e).(dv := q, dvsize := e - q);
      dvsize := dvsize + psize;
      dv := q;
      tags := SetFreeChunk(tags, q, dvsize);
      chunks := h.y.chunks;
      assert View() == h;
      RejoinedVictim(h0, View(), p, q, n, e);
    }

    method JoinIntoNext(p: int, next: int, q: int, psize: nat, ghost loose: set<int>)
      requires Joining(p, q, loose) && next == Next(tags, p) && next != top && next != dv
      requires !HeadOf(tags, next).cinuse && psize == next - q
      modifies `links, `smallmap, `treebins, `treemap, `contents, `faults, `dvsize, `tags, `chunks
      ensures InHand({}) && faults == old(faults) && Freed(old(View()), View(), p) && Rejoined(old(View()), View(), p)
    {
      hide InHand, HeapOk, BinsOk, Has, Region, Freed, SetFreeChunk, Joined, Rejoined;
      FreeRegion(p, loose);
      NotBinned(p, q, loose);
      ghost var h := View();
      ghost var e := JoinEnd(tags, View().y, p);
      var nsize := ChunkSize(tags, next);
      UnlinkChunk(next, nsize, loose);
      ghost var h1 := View();
      BookkeepingOnly(h, h1);
      WriteJoined(p, next, q, psize + nsize, loose + {next});
      FreedBefore(h, h1, View(), p);
      if q == dv {
        RejoinedVictim(h, View(), p, q, next, e);
      } else {
        RejoinedBin(h, View(), p, q, next, e, h1.sz);
      }
    }

    /** Both neighbours are in hand; the joined chunk is written and put where it belongs. */
    method WriteJoined(p: int, next: int, q: int, psize: nat, ghost loose: set<int>)
      requires InHand(loose) && ChunkAt(p).Used? && next == Next(tags, p) && next != top && next != dv
      requires !HeadOf(tags, next).cinuse && q == JoinStart(tags, p) && psize == Next(tags, next) - q
      requires loose == (if q == p || q == dv then {} else {q}) + {next}
      modifies `links, `smallmap, `treebins, `treemap, `contents, `faults, `dvsize, `tags, `chunks
      ensures InHand({}) && faults == old(faults) && Freed(old(View()), View(), p)
      ensures if q == dv then contents.sz == old(contents.sz) && dvsize == psize
        else contents.sz == old(contents.sz)[q := psize] && dvsize == old(dvsize)
    {
      hide HeapOk, BinsOk, Has, Region, Freed, SetFreeChunk;
      FreeRegion(p, loose);
      ghost var h := View();
      if q == dv {
        RegrowVictim(p, next, q, psize, loose);
      } else {
        ghost var e := JoinEnd(tags, View().y, p);
        JoinWordsOk(h, loose, p, q, e);
        tags := SetFreeChunk(tags, q, psize);
        chunks := Joined(h.y, q, e).chunks;
        assert View() == JoinedHeap(h, q, next, e);
        InsertJoined(p, q, psize, h);
      }
    }

    /** `if (p == m->dv) { m->dvsize = psize; return; }`. */
    method RegrowVictim(p: int, next: int, q: int, psize: nat, ghost loose: set<int>)
      requires InHand(loose) && ChunkAt(p).Used? && next == Next(tags, p) && next != top && q == dv
      requires !HeadOf(tags, next).cinuse && q == JoinStart(tags, p) && psize == Next(tags, next) - q
      requires loose == {next}
      modifies `dvsize, `tags, `chunks
      ensures InHand({}) && Freed(old(View()), View(), p) && dvsize == psize
    {
      hide HeapOk, BinsOk, Has, Region, Freed, SetFreeChunk;
      FreeRegion(p, loose);
      ghost var e := JoinEnd(tags, View().y, p);
      assert loose + {dv} == {q} + {next};
      JoinVictimOk(View(), loose, p, q, e);
      ghost var h := JoinedHeap(View(), q, next, e).(dv := q, dvsize := psize);
      tags := SetFreeChunk(tags, q, psize);
      dvsize := psize;
      chunks := h.y.chunks;
      assert View() == h;
    }

    method JoinAlone(p: int, next: int, q: int, psize: nat, ghost loose: set<int>)
      requires Joining(p, q, loose) && q != dv && next == Next(tags, p) && HeadOf(tags, next).cinuse
      requires psize == next - q
      modifies `links, `smallmap, `treebins, `treemap, `contents, `faults, `tags, `chunks
      ensures InHand({}) && faults == old(faults) && Freed(old(View()), View(), p) && Rejoined(old(View()), View(), p)
    {
      hide HeapOk, BinsOk, Has, Region, Freed, SetFreeWithPinuse, Rejoined;
      FreeRegion(p, loose);
      NotBinned(p, q, loose);
      ghost var h := View();
      JoinWordsOk(h, loose, p, q, next);
      tags := SetFreeWithPinuse(tags, q, psize, next);
      chunks := Joined(h.y, q, next).chunks;
      assert View() == JoinedHeap(h, q, next, next);
      InsertJoined(p, q, psize, h);
      RejoinedBin(h, View(), p, q, next, next, h.sz);
    }

    /** The joined chunk goes to its bin. */
    method InsertJoined(ghost p: int, q: int, psize: nat, ghost h: Heap)
      requires InHand({q}) && psize == ChunkSize(tags, q) && Freed(h, View(), p)
      modifies `links, `smallmap, `treebins, `treemap, `contents, `faults
      ensures InHand({}) && faults == old(faults) && Freed(h, View(), p)
      ensures contents.sz == old(contents.sz)[q := psize]
    {
      hide InHand, Freed, Has, HeapOk;
      ghost var h1 := View();
      InsertChunk(q, psize, {q});
      assert {q} - {q} == {};
      BookkeepingOnly(h1, View());
      FreedAfter(h, h1, View(), p);
    }

    lemma UsedHead(p: int, size: nat)
      requires InHand({}) && ChunkAt(p) == Used(size)
      ensures ChunkSize(tags, p) == size && leastAddr <= p + size
    {
      FreeRegion(p, {});
      hide InHand, HeapOk;
    }

    /** `dispose_chunk`, for a chunk that is in use. */
    method DisposeChunk(p: int, psize: nat)
      requires InHand({}) && ChunkAt(p) == Used(psize)
      modifies `links, `smallmap, `treebins, `treemap, `contents, `faults, `dv, `dvsize, `tags, `chunks, `top, `topsize
      ensures InHand({}) && faults == old(faults) && Freed(old(View()), View(), p) && Limit() == old(Limit())
      ensures Rejoined(old(View()), View(), p)
    {
      hide InHand, HeapOk, BinsOk, Has, Region, Freed, Rejoined;
      UsedHead(p, psize);
      ghost var h := View();
      var next := p + psize;
      var q, size, done; ghost var loose;
      q, size, done, loose := JoinBefore(p, next, psize);
      if !done {
        ghost var h1 := View();
        var ok := RtCheck(OkAddress(next));
        if ok {
          JoinAfter(p, next, q, size, loose);
          FreedBefore(h, h1, View(), p);
          RejoinedBefore(h, h1, View(), p);
        }
      }
    }

    /** Memory at the segment's end went back to the system. */
    method ShrinkSegment(released: nat)
      requires InHand({}) && 0 < released < topsize && released % 16 == 0
      modifies `tags, `topsize, `top, `trimCheck, `segSize, `footprint
      ensures InHand({}) && SameUse(old(View()), View()) && trimCheck == TRIM_THRESHOLD
      ensures top == old(top) && topsize == old(topsize) - released && segSize == old(segSize) - released
    {
      hide BinsOk, HeapOk, SetHead, SameUse, AlignOffset;
      TopAligned(View(), {});
      AlignOffsetOk(top);
      AlignOffsetOk(segBase);
      ResizeTopOk(View(), topsize - released);
      ghost var h := TopResized(View(), topsize - released);
      segSize := segSize - released;
      footprint := footprint - released;
      InitTop(top, topsize - released);
      assert View() == h;
    }

    /** `sys_trim`; `gives` says whether MORECORE takes memory back at the segment's end. */
    method SysTrim(request: nat, gives: bool) returns (done: bool)
      requires InHand({})
      modifies `tags, `topsize, `top, `trimCheck, `segSize, `footprint
      ensures InHand({}) && top == old(top) && SameUse(old(View()), View())
      ensures segSize <= old(segSize) && (!gives ==> segSize == old(segSize))
      ensures (done <==> segSize < old(segSize)) && (done ==> topsize > request)
      ensures Limit() == PadTrimmed(top, old(Limit()), request, gives)
      ensures request == 0 && old(topsize) > old(trimCheck) ==> Limit() == Trimmed(top, old(Limit()), gives)
    {
      hide HeapOk, BinsOk, Has, SameUse, TrimSize;
      SameUseSelf(View());
      TopAligned(View(), {});
      var released := 0;
      if request < MAX_REQUEST && top != 0 {
        var pad := request + TOP_FOOT_SIZE;
        if topsize > pad {
          TrimSizeOk(topsize, pad);
          var extra := TrimSize(topsize, pad);
          if extra >= HALF_MAX_SIZE_T {
            extra := HALF_MAX_SIZE_T + 1 - PAGE_SIZE;
          }
          if gives {
            released := extra;
          }
          if released != 0 {
            ShrinkSegment(released);
          }
        }
        if released == 0 && topsize > trimCheck {
          trimCheck := MAX_SIZE_T;
        }
      }
      done := released != 0;
    }

    /** `dlmalloc_trim`. */
    method DlMallocTrim(pad: nat, gives: bool) returns (done: bool)
      requires Valid()
      modifies `tags, `topsize, `top, `trimCheck, `segSize, `footprint
      ensures Valid() && top == old(top) && SameUse(old(View()), View())
      ensures segSize <= old(segSize) && (!gives ==> segSize == old(segSize))
      ensures (done <==> segSize < old(segSize)) && (done ==> topsize > pad)
      ensures Limit() == if top == 0 then old(Limit()) else PadTrimmed(top, old(Limit()), pad, gives)
    {
      hide Valid, InHand, HeapOk, BinsOk, Has, SameUse;
      SameUseSelf(View());
      done := false;
      if top != 0 {
        TopInHand();
        done := SysTrim(pad, gives);
        InHandIsValid();
      }
    }

    /** `dlfree`; nothing happens for the null pointer. */
    method DlFree(mem: int, gives: bool)
      requires Valid() && (mem != 0 ==> ChunkAt(mem - 16).Used?)
      modifies `links, `smallmap, `treebins, `treemap, `contents, `faults, `dv, `dvsize, `tags, `chunks, `top, `topsize
      modifies `trimCheck, `segSize, `footprint
      ensures Valid() && faults == old(faults)
      ensures if mem == 0 then View() == old(View()) else Freed(old(View()), View(), mem - 16)
      ensures Limit() == if top < old(top) then Trimmed(top, old(Limit()), gives) else old(Limit())
      ensures mem != 0 ==> Limit() == FreedEnd(old(Limit()), old(View()), mem - 16, top, gives)
      ensures mem != 0 ==> Rejoined(old(View()), View(), mem - 16)
      ensures segSize <= old(segSize) && (!gives ==> segSize == old(segSize)) && (mem != 0 ==> top != 0)
    {
      hide Valid, InHand, HeapOk, BinsOk, Has, Region, Freed, Trimmed, Rejoined;
      if mem != 0 {
        UsedInHand(mem - 16);
        FreeRegion(mem - 16, {});
        ghost var h := View();
        var p := mem - 16;
        var ok := RtCheck(OkAddress(p) && (HeadOf(tags, p).cinuse || !HeadOf(tags, p).pinuse));
        if ok {
          FreeUsed(p, gives);
        }
        InHandIsValid();
      }
    }

    lemma UsedInHand(p: int)
      requires Valid() && ChunkAt(p).Used?
      ensures InHand({})
    {
    }

    method FreeUsed(p: int, gives: bool)
      requires InHand({}) && ChunkAt(p).Used?
      modifies `links, `smallmap, `treebins, `treemap, `contents, `faults, `dv, `dvsize, `tags, `chunks, `top, `topsize
      modifies `trimCheck, `segSize, `footprint
      ensures InHand({}) && faults == old(faults) && Freed(old(View()), View(), p)
      ensures Limit() == if top < old(top) then Trimmed(top, old(Limit()), gives) else old(Limit())
      ensures Limit() == FreedEnd(old(Limit()), old(View()), p, top, gives)
      ensures Rejoined(old(View()), View(), p)
      ensures segSize <= old(segSize) && (!gives ==> segSize == old(segSize))
    {
      hide InHand, HeapOk, BinsOk, Has, Region, Freed, SameUse, FreedEnd, Rejoined;
      FreeRegion(p, {});
      UsedInfo(p);
      FreedEndIs(Limit(), View(), p, ChunkSize(tags, p), gives);
      ghost var h := View();
      var psize := ChunkSize(tags, p);
      var next := p + psize;
      var oldTop := top;
      var q, size, done; ghost var loose;
      q, size, done, loose := JoinBefore(p, next, psize);
      if !done {
        ghost var h1 := View();
        var ok := RtCheck(q < next && HeadOf(tags, next).pinuse);
        if ok {
          JoinAfter(p, next, q, size, loose);
          ghost var h2 := View();
          FreedBefore(h, h1, h2, p);
          RejoinedBefore(h, h1, h2, p);
          if next == oldTop && topsize > trimCheck {
            var trimmed := SysTrim(0, gives);
            FreedAfter(h, h2, View(), p);
            RejoinedAfter(h, h2, View(), p);
          }
        }
      }
    }

    /* -------------------------------- realloc, in place -------------------------------- */

    /** The remainder behind the first `nb` bytes of a chunk in use is given back. */
    method CutAndDispose(p: int, nb: nat, rsize: nat)
      requires InHand({}) && ChunkAt(p) == Used(nb + rsize) && MIN_CHUNK_SIZE <= nb && nb % 16 == 0
      requires rsize >= MIN_CHUNK_SIZE
      modifies `links, `smallmap, `treebins, `treemap, `contents, `faults, `dv, `dvsize, `tags, `chunks, `top, `topsize
      ensures InHand({}) && faults == old(faults) && Resized(old(View()), View(), p, nb) && Limit() == old(Limit())
      ensures JoinsBehind(old(View()), View(), p + nb, p + nb + rsize)
    {
      hide BinsOk, HeapOk, Has, SetInuse, CutInTwo, Resized, Freed, JoinsBehind, Rejoined;
      ghost var h := View();
      UsedSize(h, {}, p);
      SplitUsedOk(h, p, nb);
      var r := p + nb;
      tags := SetInuse(tags, p, nb);
      tags := SetInuse(tags, r, rsize);
      chunks := chunks + {r};
      ghost var h1 := View();
      assert h1 == UsedSplit(h, p, nb);
      DisposeChunk(r, rsize);
      CutAndFreed(h, h1, View(), p, nb, rsize);
      SplitJoins(h, p, nb, View());
    }

    /** `next == m->top`. */
    method GrowToTop(p: int, nb: nat, newsize: nat)
      requires InHand({}) && ChunkAt(p).Used? && top == Next(tags, p) && newsize == ChunkSize(tags, p) + topsize
      requires ChunkSize(tags, p) < nb < newsize && nb % 16 == 0
      modifies `tags, `chunks, `top, `topsize
      ensures InHand({}) && Resized(old(View()), View(), p, nb) && Limit() == old(Limit())
      ensures JoinsBehind(old(View()), View(), p + nb, old(top))
    {
      hide BinsOk, HeapOk, Has, SetInuse, SetHead, Resized;
      UsedIntoTopOk(View(), p, nb);
      ghost var h := UsedIntoTop(View(), p, nb);
      var newtopsize := newsize - nb;
      var newtop := p + nb;
      tags := SetInuse(tags, p, nb);
      tags := SetHead(tags, newtop, Head(newtopsize, false, true));
      top := newtop;
      topsize := newtopsize;
      chunks := h.y.chunks;
      assert View() == h;
    }

    /** `next == m->dv`: the victim gives up its low end, or all of it. */
    method GrowToDv(p: int, nb: nat, oldsize: nat) returns (ghost n: nat)
      requires InHand({}) && ChunkAt(p) == Used(oldsize) && dv == Next(tags, p) && dv != top
      requires oldsize < nb <= oldsize + dvsize && nb % 16 == 0
      modifies `tags, `chunks, `dv, `dvsize
      ensures InHand({}) && nb <= n < nb + MIN_CHUNK_SIZE && Resized(old(View()), View(), p, n)
      ensures VictimGives(old(View()), View(), p + nb, oldsize + old(dvsize), nb, n)
    {
      hide BinsOk, HeapOk, Has, Resized;
      hide SetInuse, SetFreeChunk, WithPinuse, At;
      UsedSize(View(), {}, p);
      VictimBehind(View(), p);
      var dsize := oldsize + dvsize - nb;
      if dsize >= MIN_CHUNK_SIZE {
        ShrinkVictimOk(View(), p, nb);
        ShrinkVictim(p, nb, oldsize, dsize);
        n := nb;
      } else {
        MergeVictimOk(View(), p);
        n := oldsize + dvsize;
        TakeVictim(p, oldsize);
      }
    }

    method ShrinkVictim(p: int, nb: nat, oldsize: nat, dsize: nat)
      requires oldsize == ChunkSize(tags, p) && oldsize < nb <= oldsize + dvsize && dsize == oldsize + dvsize - nb
      requires p + oldsize == dv
      modifies `tags, `chunks, `dv, `dvsize
      ensures View() == VictimShrunk(old(View()), p, nb)
    {
      hide SetInuse, SetFreeChunk, WithPinuse;
      ghost var h := VictimShrunk(View(), p, nb);
      var r := p + nb;
      var behind := r + dsize;
      tags := SetInuse(tags, p, nb);
      tags := SetFreeChunk(tags, r, dsize);
      tags := WithPinuse(tags, behind, false);
      dvsize := dsize;
      dv := r;
      chunks := h.y.chunks;
    }

    method TakeVictim(p: int, oldsize: nat)
      requires oldsize == ChunkSize(tags, p) && dv == Next(tags, p) && dvsize == ChunkSize(tags, dv)
      modifies `tags, `chunks, `dv, `dvsize
      ensures View() == UsedMerged(old(View()), p).(dv := 0, dvsize := 0)
    {
      hide SetInuse;
      ghost var h := UsedMerged(View(), p);
      var newsize := oldsize + dvsize;
      tags := SetInuse(tags, p, newsize);
      dvsize := 0;
      dv := 0;
      chunks := h.y.chunks;
    }

    /** A binned free chunk behind: it is taken in, and what is too much is given back. */
    method GrowToNext(p: int, nb: nat, oldsize: nat, next: int, nextsize: nat) returns (ghost n: nat)
      requires InHand({}) && ChunkAt(p) == Used(oldsize) && next == Next(tags, p) && next in contents.sz
      requires contents.sz[next] == nextsize && oldsize < nb <= oldsize + nextsize && nb % 16 == 0
      modifies `links, `smallmap, `treebins, `treemap, `contents, `faults, `dv, `dvsize, `tags, `chunks, `top, `topsize
      ensures InHand({}) && faults == old(faults) && Limit() == old(Limit())
      ensures nb <= n < nb + MIN_CHUNK_SIZE && Resized(old(View()), View(), p, n)
      ensures BinnedGives(old(View()), View(), p + nb, next, oldsize + nextsize, nb, n)
    {
      hide InHand, BinsOk, HeapOk, Has, Resized;
      ghost var h := View();
      BinnedAddress(next);
      var rsize := oldsize + nextsize - nb;
      UnlinkChunk(next, nextsize, {});
      ghost var h1 := View();
      BookkeepingOnly(h, h1);
      if rsize < MIN_CHUNK_SIZE {
        n := oldsize + nextsize;
        TakeNext(p, oldsize, next, nextsize);
      } else {
        n := nb;
        TakeFromNext(p, nb, oldsize, next, nextsize, rsize);
      }
      ResizedAfter(h, h1, View(), p, n);
    }

    method TakeNext(p: int, oldsize: nat, next: int, nextsize: nat)
      requires InHand({next}) && ChunkAt(p) == Used(oldsize) && next == Next(tags, p)
      requires ChunkSize(tags, next) == nextsize
      modifies `tags, `chunks
      ensures InHand({}) && Resized(old(View()), View(), p, oldsize + nextsize) && KeepsFree(old(View()), View())
    {
      hide BinsOk, HeapOk, Has, SetInuse;
      UsedSize(View(), {next}, p);
      LooseReady(View(), {next}, next);
      MergeUsedOk(View(), {next}, p);
      assert {next} - {next} == {};
      ghost var h := UsedMerged(View(), p);
      tags := SetInuse(tags, p, oldsize + nextsize);
      chunks := chunks - {next};
      assert View() == h;
    }

    method TakeFromNext(p: int, nb: nat, oldsize: nat, ghost next: int, nextsize: nat, rsize: nat)
      requires InHand({next}) && ChunkAt(p) == Used(oldsize) && next == Next(tags, p)
      requires ChunkSize(tags, next) == nextsize
      requires nb + rsize == oldsize + nextsize && oldsize < nb && nb % 16 == 0 && rsize >= MIN_CHUNK_SIZE
      modifies `links, `smallmap, `treebins, `treemap, `contents, `faults, `dv, `dvsize, `tags, `chunks, `top, `topsize
      ensures InHand({}) && faults == old(faults) && Limit() == old(Limit()) && Resized(old(View()), View(), p, nb)
      ensures top == old(top) && dv == old(dv) && dvsize == old(dvsize)
      ensures contents.sz == old(contents.sz)[p + nb := rsize]
    {
      hide BinsOk, HeapOk, Has, SetInuse, Freed, Resized, Rejoined;
      ghost var h := View();
      UsedSize(h, {next}, p);
      GrowUsedOk(h, p, nb);
      var r := p + nb;
      tags := SetInuse(tags, p, nb);
      tags := SetInuse(tags, r, rsize);
      chunks := chunks - {next} + {r};
      ghost var h1 := View();
      assert h1 == UsedGrown(h, p, nb);
      DisposeChunk(r, rsize);
      CutAndFreed(h, h1, View(), p, nb, rsize);
      GrownJoins(h, p, nb, View());
    }

    /** `try_realloc_chunk` when the chunk is too small: what is behind it may have what is missing. */
    method Grow(p: int, nb: nat, oldsize: nat, next: int) returns (newp: int, ghost n: nat)
      requires InHand({}) && ChunkAt(p) == Used(oldsize) && MIN_CHUNK_SIZE <= nb && nb % 16 == 0
      requires oldsize < nb && next == p + oldsize && next == Next(tags, p)
      modifies `links, `smallmap, `treebins, `treemap, `contents, `faults, `dv, `dvsize, `tags, `chunks, `top, `topsize
      ensures InHand({}) && faults == old(faults) && Limit() == old(Limit())
      ensures newp == if nb <= Room(old(View()), p) then p else 0
      ensures newp == 0 ==> View() == old(View()) && contents.small == old(contents.small)
      ensures newp != 0 ==> nb <= n < nb + MIN_CHUNK_SIZE && Resized(old(View()), View(), p, n)
      ensures newp != 0 ==> EndMoved(old(View()), View(), p, nb, n)
    {
      hide InHand, BinsOk, HeapOk, Has, Region, Resized, JoinsBehind, VictimGives, BinnedGives, EndMoved;
      newp, n := 0, 0;
      FreeRegion(p, {});
      UsedInfo(p);
      ghost var h, room := View(), Room(View(), p);
      assert next == top ==> room == oldsize + topsize - 16;
      assert next != top && HeadOf(tags, next).cinuse ==> room == oldsize;
      assert next != top && !HeadOf(tags, next).cinuse ==> next != JoinEnd(tags, View().y, p);
      if next == top {
        if oldsize + topsize > nb {
          GrowToTop(p, nb, oldsize + topsize);
          newp, n := p, nb;
          EndFromTop(h, View(), p, nb, oldsize);
        }
      } else if next == dv {
        if oldsize + dvsize >= nb {
          n := GrowToDv(p, nb, oldsize);
          newp := p;
          EndFromVictim(h, View(), p, nb, n, oldsize);
        }
      } else if !HeadOf(tags, next).cinuse {
        var nextsize := ChunkSize(tags, next);
        if oldsize + nextsize >= nb {
          n := GrowToNext(p, nb, oldsize, next, nextsize);
          newp := p;
          EndFromBinned(h, View(), p, nb, n, oldsize, next);
        }
      }
    }

    /** `try_realloc_chunk`: the chunk grows or shrinks where it is, exactly if there is room. */
    method TryReallocChunk(p: int, nb: nat) returns (newp: int, ghost n: nat)
      requires InHand({}) && ChunkAt(p).Used? && MIN_CHUNK_SIZE <= nb && nb % 16 == 0
      modifies `links, `smallmap, `treebins, `treemap, `contents, `faults, `dv, `dvsize, `tags, `chunks, `top, `topsize
      ensures InHand({}) && faults == old(faults) && Limit() == old(Limit())
      ensures newp == if nb <= Room(old(View()), p) then p else 0
      ensures newp == 0 ==> View() == old(View()) && contents.small == old(contents.small)
      ensures newp != 0 ==> nb <= n < nb + MIN_CHUNK_SIZE && Resized(old(View()), View(), p, n)
      ensures newp != 0 ==> EndMoved(old(View()), View(), p, nb, n)
    {
      hide InHand, BinsOk, HeapOk, Has, Region, Resized, JoinsBehind, EndMoved;
      newp, n := 0, 0;
      FreeRegion(p, {});
      UsedInfo(p);
      var oldsize := ChunkSize(tags, p);
      var next := p + oldsize;
      ghost var h := View();
      var ok := RtCheck(
        OkAddress(p) && (HeadOf(tags, p).cinuse || !HeadOf(tags, p).pinuse) && p < next && HeadOf(tags, next).pinuse);
      if ok {
        if oldsize >= nb {
          var rsize := oldsize - nb;
          n := oldsize;
          if rsize >= MIN_CHUNK_SIZE {
            CutAndDispose(p, nb, rsize);
            n := nb;
          } else {
            KeptAsIs(p);
          }
          newp := p;
          EndShrunk(h, View(), p, nb, n, oldsize);
        } else {
          newp, n := Grow(p, nb, oldsize, next);
        }
      }
    }

    lemma UsedInfo(p: int)
      requires InHand({}) && ChunkAt(p).Used?
      ensures ChunkAt(p) == Used(ChunkSize(tags, p)) && ChunkSize(tags, p) % 16 == 0
      ensures ChunkSize(tags, p) >= MIN_CHUNK_SIZE && topsize % 16 == 0 && topsize > 0
      ensures p > 0 && p % 16 == 0
    {
      assert Tiles(tags, View().y, p);
    }

    /** No chunk is larger than the segment. */
    lemma UsedFits(p: int)
      requires Valid() && ChunkAt(p).Used?
      ensures MIN_CHUNK_SIZE <= InUse(View(), p) < SIZE_BOUND
    {
      UsedInHand(p);
      UsedInfo(p);
      assert Tiles(tags, View().y, p);
    }

    lemma KeptAsIs(p: int)
      requires ChunkAt(p).Used?
      ensures Resized(View(), View(), p, ChunkSize(tags, p))
    {
    }

    /** `dlrealloc_in_place`. */
    method DlReallocInPlace(oldmem: int, bytes: nat) returns (mem: int, ghost n: nat)
      requires Valid() && bytes <= MAX_SIZE_T && (oldmem != 0 ==> ChunkAt(oldmem - 16).Used?)
      modifies `links, `smallmap, `treebins, `treemap, `contents, `faults, `dv, `dvsize, `tags, `chunks, `top, `topsize
      ensures Valid() && faults == old(faults) && (oldmem != 0 ==> top != 0)
      ensures mem != 0 <==> oldmem != 0 && bytes < MAX_REQUEST && Request2Size(bytes) <= Room(old(View()), oldmem - 16)
      ensures Limit() == old(Limit()) && (mem == 0 ==> View() == old(View()) && contents.small == old(contents.small))
      ensures mem != 0 ==>
        && mem == oldmem && Request2Size(bytes) <= n < Request2Size(bytes) + MIN_CHUNK_SIZE
        && Resized(old(View()), View(), oldmem - 16, n)
        && EndMoved(old(View()), View(), oldmem - 16, Request2Size(bytes), n)
    {
      hide Valid, InHand, HeapOk, BinsOk, Has, Resized, Request2Size, Room, EndMoved;
      mem, n := 0, 0;
      if oldmem != 0 {
        UsedInHand(oldmem - 16);
        InHandIsValid();
      }
      if oldmem != 0 && bytes < MAX_REQUEST {
        Request2SizeIsLeast(bytes);
        var nb := Request2Size(bytes);
        var p := oldmem - 16;
        UsedInHand(p);
        UsedInfo(p);
        var newp;
        newp, n := TryReallocChunk(p, nb);
        if newp == p {
          mem := oldmem;
        }
        InHandIsValid();
      }
    }

    /** `memcpy`, between payloads that do not overlap. */
    method CopyPayload(from: int, to: int, n: nat)
      requires from + n <= to || to + n <= from
      modifies `payload
      ensures Copied(old(payload), payload, from, to, n)
      ensures old(Valid()) ==> Valid()
    {
      hide HeapOk, BinsOk, Copied;
      ghost var before := payload;
      NothingCopied(before, from, to);
      for k := 0 to n
        invariant Copied(before, payload, from, to, k) && (old(Valid()) ==> Valid())
      {
        OneCopied(before, payload, from, to, k, n);
        payload := payload[to + k := ByteAt(payload, from + k)];
      }
    }

    /** Old and new chunk of a reallocation. */
    lemma UsedApart(h: Heap, p: int, q: int, n: nat)
      requires Valid() && Took(h, View(), q, n) && n > 0 && Has(h, p).Used? && InUse(h, p) > 0
      ensures ChunkSize(tags, p) == InUse(h, p) >= 32 && n >= 32
      ensures p + InUse(h, p) <= q || q + n <= p
    {
      hide HeapOk, Took;
      TookIsUsed(h, View(), q, n);
      StillUsed(h, View(), p, q, n);
      UsedInHand(p);
      TagsInHand();
      UsedSize(View(), {}, p);
      UsedSize(View(), {}, q);
      StillSized(h, View(), p, q, n);
      UsedInChunks(View(), p);
      UsedInChunks(View(), q);
      if p < q {
        ChunkExtent(View(), p, q);
      } else {
        ChunkExtent(View(), q, p);
      }
    }

    /** `dlrealloc`. */
    method DlRealloc(oldmem: int, bytes: nat, sys: Morecore, gives: bool) returns (mem: int, ghost n: nat)
      requires Valid() && Bounded(sys) && bytes <= MAX_SIZE_T && (oldmem != 0 ==> ChunkAt(oldmem - 16).Used?)
      modifies `links, `smallmap, `treebins, `treemap, `contents, `faults, `dv, `dvsize, `tags, `chunks, `top, `topsize
      modifies `trimCheck, `segBase, `segSize, `leastAddr, `footprint, `maxFootprint, `payload
      ensures Valid() && faults == old(faults) && Grounded(old(top), old(segBase), sys.start)
      ensures mem != 0 <==> old(CanRealloc(Snap(), oldmem, bytes, sys))
      ensures if mem == 0 then Snap() == old(Snap())
        else Limit() == ReallocEnd(old(Snap()), oldmem, bytes, sys, gives, top)
      ensures mem != 0 ==>
        && RequestedSize(bytes) <= n < RequestedSize(bytes) + MIN_CHUNK_SIZE
        && Moved(old(View()), View(), oldmem - 16, mem - 16, n)
        && (oldmem % 16 == 0 ==> mem % 16 == 0)
      ensures mem != 0 && oldmem != 0 ==>
        Copied(old(payload), payload, oldmem, mem, Least(bytes, InUse(old(View()), oldmem - 16) - 8))
      ensures mem == 0 || oldmem == 0 ==> payload == old(payload)
      ensures mem != 0 && oldmem != 0 && Request2Size(bytes) <= old(Room(View(), oldmem - 16)) ==>
        mem == oldmem && EndMoved(old(View()), View(), oldmem - 16, Request2Size(bytes), n)
      ensures mem != 0 && (oldmem != 0 ==> old(Room(View(), oldmem - 16)) < Request2Size(bytes)) ==>
        Chosen(old(View()), old(contents.small), mem - 16, RequestedSize(bytes), old(TopStart(sys.start)))
    {
      hide Valid, InHand, HeapOk, BinsOk, Has, Resized, Request2Size, Room, Freed, Moved, Took, PadRequest;
      hide NothingFits, Copied, EndMoved, Chosen, AlignOffset, Left, NoneFree;
      hide SystemServes;
      ghost var h := View();
      mem, n := 0, 0;
      if oldmem == 0 {
        NullIsUnused();
        mem, n := DlMalloc(bytes, sys);
        if mem != 0 {
          TookIsMoved(h, View(), -16, mem - 16, n);
        }
      } else if bytes < MAX_REQUEST {
        UsedInHand(oldmem - 16);
        InHandIsValid();
        UsedInfo(oldmem - 16);
        mem, n := DlReallocInPlace(oldmem, bytes);
        if mem != 0 {
          ResizedIsMoved(h, View(), oldmem - 16, n);
          NothingMoved(payload, oldmem, Least(bytes, InUse(h, oldmem - 16) - 8));
        } else {
          mem, n := ReallocElsewhere(oldmem, bytes, sys, gives);
        }
      }
    }

    /** The second half of `dlrealloc`: a new chunk, the contents, and the old chunk goes. */
    method ReallocElsewhere(oldmem: int, bytes: nat, sys: Morecore, gives: bool) returns (mem: int, ghost n: nat)
      requires Valid() && Bounded(sys) && bytes < MAX_REQUEST && oldmem != 0 && ChunkAt(oldmem - 16).Used?
      modifies `links, `smallmap, `treebins, `treemap, `contents, `faults, `dv, `dvsize, `tags, `chunks, `top, `topsize
      modifies `trimCheck, `segBase, `segSize, `leastAddr, `footprint, `maxFootprint, `payload
      ensures Valid() && faults == old(faults) && Grounded(old(top), old(segBase), sys.start)
      ensures mem != 0 <==> old(CanServe(Snap(), Request2Size(bytes), sys))
      ensures mem == 0 ==> Snap() == old(Snap()) && payload == old(payload)
      ensures mem != 0 ==>
        Limit() == FreedEnd(old(ServedEnd(Snap(), Request2Size(bytes), sys)), old(View()), oldmem - 16, top, gives)
      ensures mem != 0 ==>
        && RequestedSize(bytes) <= n < RequestedSize(bytes) + MIN_CHUNK_SIZE && mem % 16 == 0
        && Moved(old(View()), View(), oldmem - 16, mem - 16, n)
        && Copied(old(payload), payload, oldmem, mem, Least(bytes, InUse(old(View()), oldmem - 16) - 8))
        && Chosen(old(View()), old(contents.small), mem - 16, RequestedSize(bytes), old(TopStart(sys.start)))
    {
      hide Valid, InHand, HeapOk, BinsOk, Has, Request2Size, Freed, Moved, Took, PadRequest, NothingFits, Copied;
      hide FreedEnd, ServedEnd, Chosen, AlignOffset, Left, NoneFree, Rejoined;
      hide SystemServes;
      UsedInHand(oldmem - 16);
      InHandIsValid();
      UsedInfo(oldmem - 16);
      ghost var h := View();
      mem, n := DlMalloc(bytes, sys);
      if mem != 0 {
        StillUsed(h, View(), oldmem - 16, mem - 16, n);
        ghost var h1 := View();
        Request2SizeIsLeast(bytes);
        UsedApart(h, oldmem - 16, mem - 16, n);
        StillSized(h, View(), oldmem - 16, mem - 16, n);
        SameFreedEnd(Limit(), h, View(), oldmem - 16);
        var oc := ChunkSize(tags, oldmem - 16) - 8;
        CopyPayload(oldmem, mem, Least(bytes, oc));
        DlFree(oldmem, gives);
        MovedByCopy(h, h1, View(), oldmem - 16, mem - 16, n);
      }
    }

    lemma NullIsUnused()
      requires Valid()
      ensures InUse(View(), -16) == 0
    {
    }

    /* ----------------------------- aligned and independent chunks ----------------------------- */

    /**
     `internal_memalign`: of the chunk `[p, p + whole)` that it gets in the heap `got`, an aligned part
     stays in use, and what is before and behind that is given back.
     */
    method InternalMemalign(requested: nat, bytes: nat, sys: Morecore)
      returns (mem: int, ghost a: nat, ghost n: nat, ghost p: int, ghost whole: nat, ghost got: Heap)
      requires Valid() && Bounded(sys) && requested <= 0x8000_0000_0000_0000 && bytes <= MAX_SIZE_T
      modifies `links, `smallmap, `treebins, `treemap, `contents, `faults, `dv, `dvsize, `tags, `chunks, `top, `topsize
      modifies `trimCheck, `segBase, `segSize, `leastAddr, `footprint, `maxFootprint
      ensures Valid() && faults == old(faults) && Grounded(old(top), old(segBase), sys.start)
      ensures RoundedTo(requested, a) && (mem != 0 <==> old(CanAlign(Snap(), a, bytes, sys)))
      ensures if mem == 0 then Snap() == old(Snap()) else Limit() == old(AlignedEnd(Snap(), a, bytes, sys))
      ensures mem != 0 ==>
        && bytes < MAX_REQUEST && a > 0 && mem % a == 0 && mem % 16 == 0
        && Request2Size(bytes) <= n <= Request2Size(bytes) + MIN_CHUNK_SIZE
        && Gained(old(View()), View(), mem - 16, n)
      ensures mem != 0 ==>
        && HeapOk(got, {}) && Took(old(View()), got, p, whole)
        && Request2Size(bytes) + a + MIN_CHUNK_SIZE <= whole < Request2Size(bytes) + a + 2 * MIN_CHUNK_SIZE
        && CutOut(View(), p, whole, mem - 16, n)
        && Chosen(
             old(View()), old(contents.small), p, RequestedSize(Request2Size(bytes) + a + MIN_CHUNK_SIZE - 8),
             old(TopStart(sys.start)))
    {
      hide Chosen, AlignOffset, Left, NoneFree;
      hide Valid, InHand, HeapOk, BinsOk, Has, Resized, Request2Size, Freed, Took, Gained, CutOut;
      hide RoundedTo, IsPower, PadRequest, NothingFits, MemAligned, RequestedSize, SystemServes;
      ghost var h := View();
      mem, n, p, whole, got := 0, 0, 0, 0, h;
      var alignment := RoundAlignment(requested);
      a := alignment;
      RoundedFacts(requested, a);
      if bytes < MAX_REQUEST - alignment {
        Request2SizeIsLeast(bytes);
        var nb := Request2Size(bytes);
        var req := nb + alignment + MIN_CHUNK_SIZE - 8;
        PaddedMemalign(nb, alignment);
        mem, whole := DlMalloc(req, sys);
        if mem != 0 {
          got, p := View(), mem - 16;
          TookInHand(h, p, whole);
          InHandIsValid();
          var chunk;
          chunk, n := KeepAligned(mem - 16, nb, alignment, whole, h);
          InHandIsValid();
          AlignedIs(chunk, alignment);
          mem := chunk + 16;
        }
      }
    }

    lemma TookInHand(h: Heap, p: int, n: nat)
      requires Valid() && Took(h, View(), p, n) && n > 0
      ensures InHand({}) && HeapOk(View(), {}) && ChunkAt(p) == Used(n) && Gained(h, View(), p, n)
      ensures NoneUsed(h, p, n)
    {
      hide Took, Gained, HeapOk;
      TookIsUsed(h, View(), p, n);
      UsedInHand(p);
      TookFromNothing(h, View(), p, n);
    }

    /** What is done with the chunk that `internal_memalign` got. */
    method KeepAligned(p: int, nb: nat, alignment: nat, ghost whole: nat, ghost h: Heap) returns (q: int, ghost n: nat)
      requires alignment >= 32 && alignment % 32 == 0 && nb % 16 == 0 && nb >= MIN_CHUNK_SIZE
      requires InHand({}) && ChunkAt(p) == Used(whole) && p % 16 == 0 && p >= 0
      requires nb + alignment + MIN_CHUNK_SIZE <= whole && Gained(h, View(), p, whole)
      requires NoneUsed(h, p, whole)
      modifies `links, `smallmap, `treebins, `treemap, `contents, `faults, `dv, `dvsize, `tags, `chunks, `top, `topsize
      ensures InHand({}) && faults == old(faults) && Limit() == old(Limit()) && MemAligned(q, alignment)
      ensures q % 16 == 0 && q >= p
      ensures nb <= n <= nb + MIN_CHUNK_SIZE && Gained(h, View(), q, n) && CutOut(View(), p, whole, q, n)
    {
      hide InHand, HeapOk, Has, Gained, MemAligned, CutOut;
      q := p;
      ghost var lead, rest := 0, 0;
      if !MemAligned(p, alignment) {
        q, lead := GiveLeader(p, nb, alignment, whole, h);
      }
      n, rest := GiveRest(q, nb, whole - lead, h);
      CutOutOf(h, View(), p, whole, lead, n, rest);
    }

    /** A misaligned chunk: an aligned one is cut out of it behind a leader that is given back. */
    method GiveLeader(p: int, nb: nat, alignment: nat, ghost whole: nat, ghost h: Heap)
      returns (newp: int, ghost lead: nat)
      requires alignment >= 32 && alignment % 32 == 0
      requires InHand({}) && ChunkAt(p) == Used(whole) && p % 16 == 0 && p >= 0 && !MemAligned(p, alignment)
      requires nb + alignment + MIN_CHUNK_SIZE <= whole && nb >= MIN_CHUNK_SIZE
      requires Gained(h, View(), p, whole)
      modifies `links, `smallmap, `treebins, `treemap, `contents, `faults, `dv, `dvsize, `tags, `chunks, `top, `topsize
      ensures InHand({}) && faults == old(faults) && Limit() == old(Limit()) && MemAligned(newp, alignment)
      ensures newp % 16 == 0
      ensures lead >= MIN_CHUNK_SIZE && lead + nb <= whole && newp == p + lead
      ensures ChunkAt(newp) == Used(whole - lead) && Gained(h, View(), newp, whole - lead)
    {
      hide BinsOk, HeapOk, Has, SetInuse, CutInTwo, Freed, Gained, AlignedSpot, MemAligned;
      AlignedSpotOk(p, alignment);
      UsedSize(View(), {}, p);
      newp := AlignedSpot(p, alignment);
      var leadsize := newp - p;
      var newsize := ChunkSize(tags, p) - leadsize;
      lead := leadsize;
      SplitUsedBackOk(View(), p, leadsize);
      ghost var h1 := View();
      tags := SetInuse(tags, newp, newsize);
      tags := SetInuse(tags, p, leadsize);
      chunks := chunks + {newp};
      ghost var h2 := View();
      DisposeChunk(p, leadsize);
      LeaderGiven(h, h1, h2, View(), p, leadsize, newsize, whole);
      GainedIsUsed(h, View(), newp, newsize);
    }

    /** Spare room at the end is given back. */
    method GiveRest(p: int, nb: nat, ghost size: nat, ghost h: Heap) returns (ghost n: nat, ghost rest: nat)
      requires InHand({}) && ChunkAt(p) == Used(size) && nb <= size && MIN_CHUNK_SIZE <= nb && nb % 16 == 0
      requires Gained(h, View(), p, size)
      modifies `links, `smallmap, `treebins, `treemap, `contents, `faults, `dv, `dvsize, `tags, `chunks, `top, `topsize
      ensures InHand({}) && faults == old(faults) && Limit() == old(Limit())
      ensures n + rest == size && nb <= n <= nb + MIN_CHUNK_SIZE && (rest == 0 || rest >= MIN_CHUNK_SIZE)
      ensures Gained(h, View(), p, n)
    {
      hide InHand, HeapOk, Has, Gained, Resized;
      UsedInfo(p);
      n, rest := size, 0;
      var all := ChunkSize(tags, p);
      if all > nb + MIN_CHUNK_SIZE {
        ghost var h1 := View();
        CutAndDispose(p, nb, all - nb);
        n, rest := nb, all - nb;
        GainedResized(h, h1, View(), p, size, nb);
      }
    }

    /** The splitting loop of `ialloc`; the last element absorbs what there is too much. */
    method SplitElements(
      first: int, n: nat, total: nat, sizes: seq<nat>, same: bool, ghost h: Heap, ghost tail: seq<nat>)
      returns (ptrs: seq<int>, ghost parts: seq<nat>)
      requires n > 0 && (if same then sizes != [] else n <= |sizes|)
      requires Words(sizes) && Sum(Elements(n, sizes, same)) <= total < WORD
      requires BinsOk(BinView(), contents) && SegmentOk()
      requires var v := WithRemainder(View(), first, total);
        HeapOk(v, {}) && Has(v, first) == Used(total) && Parceled(h, v, first, [total] + tail)
      modifies `tags, `chunks
      ensures InHand({}) && |parts| == n == |ptrs| && Sum(parts) == total
      ensures parts[..n - 1] == Elements(n, sizes, same)[..n - 1] && parts[n - 1] >= Elements(n, sizes, same)[n - 1]
      ensures forall i: nat :: i < n ==> ptrs[i] == first + Sum(parts[..i]) + 16
      ensures Parceled(h, View(), first, parts + tail)
    {
      hide BinsOk, HeapOk, Has, Parceled, ElementSize, Elements, Sum, SetUsedChunk, CutInTwo;
      ghost var es := Elements(n, sizes, same);
      ElementsAre(n, sizes, same);
      SumOfNone();
      ptrs := [];
      var p, remainder := first, total;
      var i := 0;
      assert es[..0] + [total] + tail == [total] + tail;
      while i != n - 1
        invariant 0 <= i <= n - 1 && p == first + Sum(es[..i]) && remainder == total - Sum(es[..i])
        invariant BinsOk(BinView(), contents) && SegmentOk()
        invariant HeapOk(WithRemainder(View(), p, remainder), {})
        invariant Has(WithRemainder(View(), p, remainder), p) == Used(remainder)
        invariant Parceled(h, WithRemainder(View(), p, remainder), first, es[..i] + [remainder] + tail)
        invariant |ptrs| == i && forall j: nat :: j < i ==> ptrs[j] == first + Sum(es[..j]) + 16
        decreases n - 1 - i
      {
        ptrs := ptrs + [p + 16];
        ElementIs(n, sizes, same, i);
        var size := ElementSize(sizes, same, i);
        NextElementFits(es, i, total);
        SumPrefix(es, i);
        CutElement(View(), p, remainder, size);
        ghost var v := WithRemainder(View(), p, remainder);
        remainder := remainder - size;
        tags := SetUsedChunk(tags, p, size);
        p := p + size;
        chunks := chunks + {p};
        ParcelSplit(h, v, WithRemainder(View(), p, remainder), first, es[..i], size, remainder, tail);
        assert es[..i + 1] == es[..i] + [es[i]];
        assert es[..i] + [size, remainder] + tail == es[..i + 1] + [remainder] + tail;
        i := i + 1;
      }
      SumPrefix(es, n - 1);
      parts := es[..n - 1] + [remainder];
      PartsSum(es[..n - 1], remainder);
      ptrs := ptrs + [p + 16];
      assert forall j: nat :: j < n ==> parts[..j] == es[..j];
      assert es[..n] == es;
      tags := SetUsedChunk(tags, p, remainder);
    }

    /**
     `ialloc`, without the clearing of the elements. `given` says that the caller supplied the
     pointer array; otherwise the array is the last of the parts, and `marray` is its address.
     `short` says that the total has wrapped around and `malloc` gave a chunk for what was left of it:
     there the original goes on to write heads outside the chunk, and the model stops.
     */
    method Ialloc(n: nat, sizes: seq<nat>, same: bool, given: bool, sys: Morecore)
      returns (done: bool, short: bool, ptrs: seq<int>, marray: int, ghost first: int, ghost parts: seq<nat>)
      requires Valid() && Bounded(sys) && Words(sizes) && (n > 0 ==> if same then sizes != [] else n <= |sizes|)
      modifies `links, `smallmap, `treebins, `treemap, `contents, `faults, `dv, `dvsize, `tags, `chunks, `top, `topsize
      modifies `trimCheck, `segBase, `segSize, `leastAddr, `footprint, `maxFootprint
      ensures Valid() && faults == old(faults) && Grounded(old(top), old(segBase), sys.start)
      ensures (done || short <==> old(CanParcel(Snap(), n, sizes, same, given, sys))) && !(done && short)
      ensures short ==> n > 0 && Total(n, sizes, same, given) >= WORD
      ensures done && n > 0 ==> Total(n, sizes, same, given) < WORD
      ensures (!done && !short) || (n == 0 && given) ==> Snap() == old(Snap())
      ensures done || short ==> Limit() == old(ParceledEnd(Snap(), n, sizes, same, given, sys))
      ensures done && n == 0 && !given ==> |parts| == 1 && 32 <= parts[0] < 64 && marray == first + 16
      ensures done || short ==> Parceled(old(View()), View(), first, parts)
      ensures done && n > 0 ==> Laid(Elements(n, sizes, same), given, 8 * n, first, parts, ptrs, marray)
      ensures short ==> |parts| == 1 && forall cut: seq<nat>, qs, at ::
        Laid(Elements(n, sizes, same), given, 8 * n, first, cut, qs, at) ==> Sum(cut) != parts[0]
      ensures (done || short) && (n > 0 || !given) ==>
        Chosen(
          old(View()), old(contents.small), first,
          RequestedSize(if n == 0 then 0 else AggregateBytes(n, sizes, same, given)), old(TopStart(sys.start)))
    {
      hide Chosen, AlignOffset, Left, NoneFree, AggregateBytes;
      hide Valid, InHand, HeapOk, BinsOk, Has, Parceled, Elements, ElementSize, Sum, Request2Size, TrueSize, Laid, Took;
      hide NothingFits, SystemServes;
      ghost var h := View();
      done, short, ptrs, marray, first, parts := false, false, [], 0, 0, [];
      if n == 0 {
        if given {
          done := true;
          NoParcels(h);
        } else {
          ghost var m;
          marray, m := DlMalloc(0, sys);
          if marray != 0 {
            done := true;
            first, parts := marray - 16, [m];
            EmptyRequest();
            ParcelBegin(h, first, m);
          }
        }
      } else {
        done, short, ptrs, marray, first, parts := IallocSome(n, sizes, same, given, sys);
      }
    }

    method IallocSome(n: nat, sizes: seq<nat>, same: bool, given: bool, sys: Morecore)
      returns (done: bool, short: bool, ptrs: seq<int>, marray: int, ghost first: int, ghost parts: seq<nat>)
      requires Valid() && Bounded(sys) && n > 0 && Words(sizes) && (if same then sizes != [] else n <= |sizes|)
      modifies `links, `smallmap, `treebins, `treemap, `contents, `faults, `dv, `dvsize, `tags, `chunks, `top, `topsize
      modifies `trimCheck, `segBase, `segSize, `leastAddr, `footprint, `maxFootprint
      ensures Valid() && faults == old(faults) && Grounded(old(top), old(segBase), sys.start)
      ensures done || short <==> old(CanServe(Snap(), RequestedSize(AggregateBytes(n, sizes, same, given)), sys))
      ensures (done ==> Total(n, sizes, same, given) < WORD) && (short ==> Total(n, sizes, same, given) >= WORD)
      ensures if done || short then Parceled(old(View()), View(), first, parts) else Snap() == old(Snap())
      ensures done || short ==> Limit() == old(ParceledEnd(Snap(), n, sizes, same, given, sys))
      ensures done ==> Laid(Elements(n, sizes, same), given, 8 * n, first, parts, ptrs, marray)
      ensures short ==> |parts| == 1 && forall cut: seq<nat>, qs, at ::
        Laid(Elements(n, sizes, same), given, 8 * n, first, cut, qs, at) ==> Sum(cut) != parts[0]
      ensures done || short ==>
        Chosen(
          old(View()), old(contents.small), first, RequestedSize(AggregateBytes(n, sizes, same, given)),
          old(TopStart(sys.start)))
    {
      hide Chosen, AlignOffset, Left, NoneFree;
      hide Valid, InHand, HeapOk, BinsOk, Has, Parceled, Elements, Sum, RequestedSize, TrueSize, Took, NothingFits;
      hide Laid;
      hide AggregateBytes, SystemServes;
      ghost var h := View();
      done, short, ptrs, marray, first, parts := false, false, [], 0, 0, [];
      var contentsSize, size := AggregateSize(n, sizes, same, given);
      var mem; ghost var whole;
      mem, whole := DlMalloc((size + WORD - 8) % WORD, sys);
      if mem != 0 {
        var p := mem - 16;
        first := p;
        RequestedIsChunk((size + WORD - 8) % WORD);
        ParcelBegin(h, p, whole);
        InHandIsValid();
        UsedFits(p);
        if Total(n, sizes, same, given) >= WORD {
          short, parts := true, [whole];
          NoLayout(n, sizes, same, given, p, whole);
        } else {
          done := true;
          TotalSize(size);
          ptrs, marray, parts := LayOut(p, n, contentsSize, sizes, same, given, whole, h);
        }
        InHandIsValid();
      }
    }

    /** The second half of `ialloc`: the array chunk, unless one is given, and the elements. */
    method LayOut(
      p: int, n: nat, contentsSize: nat, sizes: seq<nat>, same: bool, given: bool, ghost whole: nat, ghost h: Heap)
      returns (ptrs: seq<int>, marray: int, ghost parts: seq<nat>)
      requires InHand({}) && BinsOk(BinView(), contents) && SegmentOk() && HeapOk(View(), {})
      requires n > 0 && Words(sizes) && (if same then sizes != [] else n <= |sizes|) && whole < WORD
      requires contentsSize == Sum(Elements(n, sizes, same)) && contentsSize % 16 == 0 && contentsSize >= 32
      requires Total(n, sizes, same, given) <= whole < Total(n, sizes, same, given) + MIN_CHUNK_SIZE
      requires ChunkAt(p) == Used(whole) && HeadOf(tags, p) == Head(whole, true, true)
      requires Parceled(h, View(), p, [whole])
      modifies `tags, `chunks
      ensures InHand({}) && Parceled(h, View(), p, parts)
      ensures Laid(Elements(n, sizes, same), given, 8 * n, p, parts, ptrs, marray)
    {
      hide InHand, HeapOk, BinsOk, Has, Parceled, Elements, ElementSize, Sum, Request2Size, TrueSize, Laid, SegmentOk;
      ghost var es := Elements(n, sizes, same);
      TrueSizeOk(8 * n);
      var remainder := ChunkSize(tags, p);
      marray := 0;
      if given {
        AlreadyThere(View(), p, remainder);
        assert [whole] + [] == [whole];
        ptrs, parts := SplitElements(p, n, remainder, sizes, same, h, []);
        LaidWithoutArray(es, 8 * n, p, parts, ptrs);
        assert parts + [] == parts;
      } else {
        var arrayChunk := p + contentsSize;
        var arrayChunkSize := remainder - contentsSize;
        marray := arrayChunk + 16;
        PlaceArray(p, contentsSize, arrayChunkSize, h);
        ptrs, parts := SplitElements(p, n, contentsSize, sizes, same, h, [arrayChunkSize]);
        LaidWithArray(es, 8 * n, p, parts, ptrs, arrayChunkSize);
        parts := parts + [arrayChunkSize];
      }
    }

    /** The pointer array as the final part of the aggregate. */
    method PlaceArray(p: int, contentsSize: nat, arraySize: nat, ghost h: Heap)
      requires InHand({}) && HeadOf(tags, p) == Head(contentsSize + arraySize, true, true)
      requires contentsSize >= MIN_CHUNK_SIZE && contentsSize % 16 == 0 && arraySize >= MIN_CHUNK_SIZE
      requires ChunkAt(p) == Used(contentsSize + arraySize) && Parceled(h, View(), p, [contentsSize + arraySize])
      modifies `tags, `chunks
      ensures BinsOk(BinView(), contents) && SegmentOk()
      ensures var v := WithRemainder(View(), p, contentsSize);
        && HeapOk(v, {}) && Has(v, p) == Used(contentsSize)
        && Parceled(h, v, p, [contentsSize] + [arraySize])
    {
      hide BinsOk, HeapOk, Has, Parceled, SetUsedChunk, CutInTwo;
      var total := contentsSize + arraySize;
      AlreadyThere(View(), p, total);
      CutArray(View(), p, total, contentsSize);
      ghost var v := View();
      tags := SetUsedChunk(tags, p + contentsSize, arraySize);
      chunks := chunks + {p + contentsSize};
      assert [] + [total] + [] == [total] && [] + [contentsSize, arraySize] + [] == [contentsSize] + [arraySize];
      SumOfNone();
      assert Sum([]) == 0;
      ParcelSplit(h, v, WithRemainder(View(), p, contentsSize), p, [], contentsSize, arraySize, []);
    }

    /** A chunk that was just allocated, as the one parcel it is. */
    lemma ParcelBegin(h: Heap, p: int, whole: nat)
      requires Valid() && Took(h, View(), p, whole) && whole > 0
      ensures InHand({}) && BinsOk(BinView(), contents) && SegmentOk() && HeapOk(View(), {})
      ensures ChunkAt(p) == Used(whole) && HeadOf(tags, p) == Head(whole, true, true)
      ensures Parceled(h, View(), p, [whole]) && [whole] + [] == [whole]
    {
      TookIsUsed(h, View(), p, whole);
      UsedInHand(p);
      TookFromNothing(h, View(), p, whole);
      ParcelStart(h, View(), p, whole);
    }

    /** `internal_bulk_free`. */
    method BulkFree(pointers: array<int>, gives: bool) returns (unfreed: nat)
      requires Valid() && DistinctPointers(pointers[..])
      requires forall i :: 0 <= i < pointers.Length && pointers[i] != 0 ==> ChunkAt(pointers[i] - 16).Used?
      modifies `links, `smallmap, `treebins, `treemap, `contents, `faults, `dv, `dvsize, `tags, `chunks, `top, `topsize
      modifies `trimCheck, `segSize, `footprint, pointers
      ensures Valid() && faults == old(faults) && unfreed == 0
      ensures forall i :: 0 <= i < pointers.Length ==> pointers[i] == 0
      ensures FreedAll(old(View()), View(), Pointers(old(pointers[..])))
      ensures (top == 0 <==> old(top) == 0) && (top == 0 ==> Snap() == old(Snap()))
      ensures top != 0 ==>
        Limit() == Trimmed(TopWithout(old(View()), Pointers(old(pointers[..]))), old(Limit()), gives)
      ensures segSize <= old(segSize) && (!gives ==> segSize == old(segSize))
    {
      hide Valid, InHand, HeapOk, BinsOk, Has, Freeing, InUse, Pointers, DistinctPointers, FreedAll;
      unfreed := 0;
      ghost var h, all := View(), Pointers(pointers[..]);
      UsedSizes(pointers[..]);
      FreeingStarts(h, pointers[..]);
      var i := 0;
      while i < pointers.Length
        invariant 0 <= i <= pointers.Length && Valid() && faults == old(faults)
        invariant forall j :: 0 <= j < i ==> pointers[j] == 0
        invariant Freeing(h, View(), all, pointers[i..])
        invariant segSize == old(segSize) && footprint == old(footprint) && Limit() == old(Limit())
        invariant (top == 0 <==> old(top) == 0) && (top == 0 ==> View() == h)
      {
        ghost var s := pointers[i..];
        assert s[0] == pointers[i];
        var mem := pointers[i];
        if mem != 0 {
          BulkStep(pointers, i, mem, h, all);
        } else {
          FreeingSkips(h, View(), all, s);
          assert s[1..] == pointers[i + 1..];
        }
        i := i + 1;
      }
      assert pointers[i..] == [];
      FreeingEnds(h, View(), all);
      TopFreed(h, all);
      if topsize > trimCheck {
        TopInHand();
        ghost var h1 := View();
        var trimmed := SysTrim(0, gives);
        FreedAllAfter(h, h1, View(), all);
        InHandIsValid();
      }
    }

    lemma TopFreed(h: Heap, all: set<int>)
      requires Valid() && FreedAll(h, View(), all) && h.y.base == Base()
      ensures top != 0 ==> top == TopWithout(h, all)
    {
      hide HeapOk;
      if top != 0 {
        TagsInHand();
        TopAfter(h, View(), all);
      }
    }

    lemma TagsInHand()
      requires InHand({})
      ensures TagsOk(View().t, View().y)
    {
    }

    /** One pointer of the array: merged with the next one if that is its neighbour, or freed. */
    method BulkStep(pointers: array<int>, i: nat, mem: int, ghost h: Heap, ghost all: set<int>)
      requires Valid() && i < pointers.Length && mem == pointers[i] != 0 && Freeing(h, View(), all, pointers[i..])
      modifies `links, `smallmap, `treebins, `treemap, `contents, `faults, `dv, `dvsize, `tags, `chunks, `top, `topsize
      modifies pointers
      ensures Valid() && faults == old(faults) && pointers[i] == 0 && Limit() == old(Limit())
      ensures old(top) != 0 && top != 0
      ensures forall j :: 0 <= j < i ==> pointers[j] == old(pointers[j])
      ensures Freeing(h, View(), all, pointers[i + 1..])
    {
      hide Valid, InHand, HeapOk, BinsOk, Has, Freeing, InUse, Freed, Region;
      ghost var s := pointers[i..];
      var p := mem - 16;
      FreeingIsUsed(h, View(), all, s, 0);
      UsedInHand(p);
      UsedInfo(p);
      FreeRegion(p, {});
      var psize := ChunkSize(tags, p);
      pointers[i] := 0;
      var ok := RtCheck(OkAddress(p) && (HeadOf(tags, p).cinuse || !HeadOf(tags, p).pinuse));
      if ok {
        var next := p + psize;
        if i + 1 < pointers.Length && pointers[i + 1] == next + 16 {
          assert s[1] == next + 16;
          BulkMerge(p, psize, next, h, all, s);
          pointers[i + 1] := p + 16;
          assert pointers[i + 1..] == [s[0]] + s[2..];
        } else {
          ghost var h1 := View();
          DisposeChunk(p, psize);
          FreeingOne(h, h1, View(), all, s);
          assert pointers[i + 1..] == s[1..];
        }
      }
      InHandIsValid();
    }

    method BulkMerge(p: int, psize: nat, next: int, ghost h: Heap, ghost all: set<int>, ghost s: seq<int>)
      requires InHand({}) && ChunkAt(p) == Used(psize) && next == Next(tags, p) && Freeing(h, View(), all, s)
      requires |s| > 1 && s[0] == p + 16 != 0 && s[1] == next + 16
      modifies `tags, `chunks
      ensures InHand({}) && Freeing(h, View(), all, [s[0]] + s[2..])
    {
      hide HeapOk, BinsOk, Has, Freeing, SetInuse;
      FreeingNext(h, View(), all, s);
      UsedSize(View(), {}, p);
      UsedSize(View(), {}, next);
      MergeUsedOk(View(), {}, p);
      assert {} - {next} == {};
      ghost var h1, h2 := View(), UsedMerged(View(), p);
      var newsize := ChunkSize(tags, next) + psize;
      tags := SetInuse(tags, p, newsize);
      chunks := chunks - {next};
      assert View() == h2;
      FreeingMerged(h, h1, h2, all, s, newsize);
    }

    lemma UsedSizes(s: seq<int>)
      requires Valid() && forall i :: 0 <= i < |s| && s[i] != 0 ==> ChunkAt(s[i] - 16).Used?
      ensures forall i :: 0 <= i < |s| && s[i] != 0 ==> InUse(View(), s[i] - 16) > 0
    {
      hide Valid, InHand, HeapOk, Has;
      forall i | 0 <= i < |s| && s[i] != 0
        ensures InUse(View(), s[i] - 16) > 0
      {
        UsedInHand(s[i] - 16);
        UsedInfo(s[i] - 16);
      }
    }
  }

  /** The address of a child pointer inside a chunk. */
  function ChildSlot(t: int, right: bool): int {
    t + if right then 40 else 32
  }

  /** The steps of `Relink` before the last leave the children of `x` as they are. */
  lemma AdoptKeeps(l: Links, x: int, r: int, xp: int)
    requires r != x
    ensures Child(SetParent(l, r, xp), x, false) == Child(l, x, false)
    ensures Child(Adopt(SetParent(l, r, xp), x, r, false), x, true) == Child(l, x, true)
  {
  }

  lemma SlotChildren(l: Links, x: int, r: int, xp: int, atRoot: bool)
    requires xp != x
    ensures Child(TakeSlot(l, x, r, xp, atRoot), x, false) == Get(l.child0, x)
    ensures Child(TakeSlot(l, x, r, xp, atRoot), x, true) == Get(l.child1, x)
  {
  }

  /* The bins after each operation; what remains for the method is to produce their words. */

  lemma InsertSmallStep(b: BinState, c: Contents, p: int, s: nat) returns (c': Contents)
    requires BinsOk(b, c) && p > 0 && p !in c.sz && IsSmall(s) && s % 8 == 0
    ensures BinsOk(InsertSmall(b, p, s), c') && c'.sz == c.sz[p := s] && c'.trees == c.trees
    ensures |c.small| == NSMALLBINS && c'.small == c.small[SmallIndex(s) := [p] + c.small[SmallIndex(s)]]
  {
    InsertSmallOk(b, c, p, s);
    c' := InsertSmallContents(c, p, s);
  }

  lemma UnlinkSmallStep(b: BinState, c: Contents, p: int) returns (c': Contents)
    requires BinsOk(b, c) && p in c.sz && IsSmall(c.sz[p])
    ensures BinsOk(UnlinkSmall(b, p, c.sz[p]), c') && c'.sz == c.sz - {p} && c'.trees == c.trees
    ensures var i := SmallIndex(c.sz[p]);
      && |c.small| == NSMALLBINS && c'.small == c.small[i := Except(c.small[i], p)]
      && (c.small[i] != [] && c.small[i][0] == p ==> Except(c.small[i], p) == c.small[i][1..])
  {
    UnlinkSmallOk(b, c, p);
    c' := UnlinkSmallContents(c, p);
    var i := SmallIndex(c.sz[p]);
    BinsAt(b, c, i);
    ExceptIs(c.small[i], p);
  }

  lemma InsertLargeStep(b: BinState, c: Contents, x: int, s: nat) returns (b': BinState, c': Contents)
    requires BinsOk(b, c) && x > 0 && x !in c.sz && !IsSmall(s) && s < SIZE_BOUND
    ensures BinsOk(b', c') && c'.sz == c.sz[x := s]
    ensures |b.treebins| == NTREEBINS && |c.trees| == NTREEBINS
    ensures b' == InsertLarge(b, x, s, c.trees[ComputeTreeIndex(s)])
  {
    InsertLargeOk(b, c, x, s);
    b', c' := InsertLarge(b, x, s, c.trees[ComputeTreeIndex(s)]), InsertLargeContents(c, x, s);
  }

  lemma InsertLargeParts(b: BinState, x: int, s: nat, t: Tree)
    requires |b.treebins| == NTREEBINS
    ensures var i := ComputeTreeIndex(s);
      var l := Prepare(b.links, x, i);
      InsertLarge(b, x, s, t) ==
      if !Bit(b.treemap, i) || t.Leaf? then
        BinState(PlantRoot(l, x, i), b.treebins[i := x], b.smallmap, Mark(b.treemap, i))
      else b.(links := InsertLinks(l, b.treebins[i], t, BinLo(i), BinWidth(i), s, x))
  {
  }

  /** The words after both parts of `unlink_large_chunk`, for a chunk of the node `n` of bin `i`. */
  ghost function UnlinkedWords(b: BinState, x: int, n: Tree, i: nat): BinState
    requires n.Node? && i < NTREEBINS && |b.treebins| == NTREEBINS
  {
    var (m, r) := SpliceOut(b.links, x, n);
    var xp, atRoot := Get(b.links.parent, x), x == b.treebins[i];
    if xp == 0 then b.(links := m)
    else
      BinState(
        Relink(m, x, r, xp, atRoot),
        if atRoot then b.treebins[i := r] else b.treebins,
        b.smallmap,
        if atRoot && r == 0 then Clear(b.treemap, i) else b.treemap)
  }

  lemma UnlinkLargeStep(b: BinState, c: Contents, x: int, n: Tree, i: nat) returns (b': BinState, c': Contents)
    requires BinsOk(b, c) && x in c.sz && !IsSmall(c.sz[x]) && i == ComputeTreeIndex(c.sz[x])
    requires n == NodeOf(c.trees[i], BinLo(i), BinWidth(i), c.sz[x]) && n.Node?
    ensures BinsOk(b', c') && c'.sz == c.sz - {x}
    ensures |b.treebins| == NTREEBINS && b' == UnlinkedWords(b, x, n, i)
  {
    UnlinkLargeOk(b, c, x);
    b', c' := UnlinkLarge(b, x, c.sz[x], c.trees[i]), UnlinkLargeContents(c, x);
    hide BinsOk, SpliceOut, Relink, ComputeTreeIndex, NodeOf, BinLo, BinWidth, Clear, IsSmall;
  }

  /** When `tmalloc_large` leaves the request to the victim, no binned chunk fits better. */
  lemma LargeDecision(sz: map<int, nat>, nb: nat, v: int, rsize: nat, dvsize: nat)
    requires nb < NONE && dvsize < SIZE_BOUND && rsize + nb <= NONE && BestFit(sz, nb, rsize + nb)
    requires if v == 0 then rsize + nb == NONE else v in sz && sz[v] == rsize + nb && sz[v] < SIZE_BOUND
    ensures if v != 0 && rsize < Sub64(dvsize, nb) then nb <= dvsize ==> rsize + nb < dvsize
      else BestFit(sz, nb, if nb <= dvsize then dvsize else NONE)
  {
  }

  lemma SmallCount(b: BinState, c: Contents)
    requires BinsOk(b, c)
    ensures |c.small| == NSMALLBINS && |c.trees| == NTREEBINS && |b.treebins| == NTREEBINS
    ensures forall a :: a in c.sz ==> a > 0 && c.sz[a] < SIZE_BOUND
  {
  }

  /** What was in use at `p` is in use at `q`, where nothing else was, with `n` bytes; the rest is as it was. */
  ghost predicate Moved(h: Heap, h': Heap, p: int, q: int, n: nat) {
    && (q == p || InUse(h, q) == 0)
    && forall a :: InUse(h', a) == if a == q then n else if a == p then 0 else InUse(h, a)
  }

  lemma TookIsMoved(h: Heap, h': Heap, p: int, q: int, n: nat)
    requires Took(h, h', q, n) && InUse(h, p) == 0
    ensures Moved(h, h', p, q, n)
  {
  }

  lemma ResizedIsMoved(h: Heap, h': Heap, p: int, n: nat)
    requires Resized(h, h', p, n)
    ensures Moved(h, h', p, p, n)
  {
  }

  lemma StillUsed(h: Heap, h': Heap, p: int, q: int, n: nat)
    requires Took(h, h', q, n) && Has(h, p).Used? && InUse(h, p) > 0
    ensures Has(h', p).Used? && p != q
  {
  }

  lemma StillSized(h: Heap, h': Heap, p: int, q: int, n: nat)
    requires Took(h, h', q, n) && p != q
    ensures InUse(h', p) == InUse(h, p)
  {
  }

  function ByteAt(payload: map<int, int>, a: int): int {
    if a in payload then payload[a] else 0
  }

  function Least(a: nat, b: int): int { if b < a then b else a }

  function MinOf(a: nat, b: nat): nat { if b < a then b else a }

  /** `n` bytes were copied, and nothing else was changed. */
  ghost predicate Copied(before: map<int, int>, after: map<int, int>, from: int, to: int, n: int) {
    forall a {:trigger ByteAt(after, a)} ::
      ByteAt(after, a) == if to <= a < to + n then ByteAt(before, from + (a - to)) else ByteAt(before, a)
  }

  lemma NothingCopied(before: map<int, int>, from: int, to: int)
    ensures Copied(before, before, from, to, 0)
  {
  }

  lemma NothingMoved(payload: map<int, int>, p: int, n: int)
    ensures Copied(payload, payload, p, p, n)
  {
  }

  lemma OneCopied(before: map<int, int>, now: map<int, int>, from: int, to: int, k: nat, n: nat)
    requires k < n && (from + n <= to || to + n <= from) && Copied(before, now, from, to, k)
    ensures Copied(before, now[to + k := ByteAt(now, from + k)], from, to, k + 1)
  {
    var a, more := from + k, now[to + k := ByteAt(now, from + k)];
    assert ByteAt(now, a) == ByteAt(before, a);
    assert forall b :: ByteAt(more, b) == if b == to + k then ByteAt(before, a) else ByteAt(now, b);
  }

  lemma MovedByCopy(h: Heap, h1: Heap, h2: Heap, p: int, q: int, n: nat)
    requires Took(h, h1, q, n) && Freed(h1, h2, p) && p != q
    ensures Moved(h, h2, p, q, n)
  {
  }

  /**
   Of `[p, p + whole)`, the `n` bytes at `q` are in use and nothing else; what is before and behind
   them is empty or large enough for a chunk.
   */
  ghost predicate CutOut(h: Heap, p: int, whole: nat, q: int, n: nat) {
    && p <= q && q + n <= p + whole
    && (q == p || q >= p + MIN_CHUNK_SIZE) && (q + n == p + whole || q + n + MIN_CHUNK_SIZE <= p + whole)
    && forall a :: p <= a < p + whole ==> InUse(h, a) == if a == q then n else 0
  }

  /** Where a chunk was taken, nothing was in use before. */
  lemma TookFromNothing(h: Heap, h': Heap, p: int, n: nat)
    requires Took(h, h', p, n) && n > 0 && HeapOk(h', {})
    ensures NoneUsed(h, p, n)
  {
    hide TagsOk, Has;
    TookIsUsed(h, h', p, n);
    UsedSize(h', {}, p);
    UsedInChunks(h', p);
    forall a | p <= a < p + n
      ensures InUse(h, a) == 0
    {
      if a != p {
        InsideIsNothing(h', p, a);
        assert InUse(h', a) == 0;
      }
    }
  }

  lemma CutOutOf(h: Heap, h': Heap, p: int, whole: nat, lead: nat, n: nat, rest: nat)
    requires NoneUsed(h, p, whole)
    requires Gained(h, h', p + lead, n) && lead + n + rest == whole
    requires (lead == 0 || lead >= MIN_CHUNK_SIZE) && (rest == 0 || rest >= MIN_CHUNK_SIZE)
    ensures CutOut(h', p, whole, p + lead, n)
  {
    hide InUse;
  }

  lemma TookIsUsed(h: Heap, h': Heap, p: int, n: nat)
    requires Took(h, h', p, n) && n > 0
    ensures Has(h', p) == Used(n) && Gained(h, h', p, n)
  {
    assert InUse(h', p) == n;
  }

  lemma GainedIsUsed(h: Heap, h': Heap, p: int, n: nat)
    requires Gained(h, h', p, n) && n > 0
    ensures Has(h', p) == Used(n)
  {
    assert InUse(h', p) == n;
  }

  lemma RoundedFacts(requested: nat, a: nat)
    requires RoundedTo(requested, a)
    ensures a % 32 == 0 && a >= 32
  {
  }

  /** The request `internal_memalign` makes is padded to exactly its size plus the head word. */
  lemma PaddedMemalign(nb: nat, a: nat)
    requires nb % 16 == 0 && a % 32 == 0 && nb >= 32 && nb + a + MIN_CHUNK_SIZE < MAX_SIZE_T - 16
    ensures var req := nb + a + MIN_CHUNK_SIZE - 8;
      && RequestedSize(req) >= nb + a + MIN_CHUNK_SIZE
      && (req < MAX_REQUEST ==> RequestedSize(req) == nb + a + MIN_CHUNK_SIZE)
  {
    Sums16(nb, a);
    PadExact(nb + a + MIN_CHUNK_SIZE - 8);
    hide PadRequest;
  }

  lemma Sums16(nb: nat, a: nat)
    requires nb % 16 == 0 && a % 32 == 0
    ensures (nb + a + MIN_CHUNK_SIZE) % 16 == 0
  {
  }

  lemma EmptyRequest()
    ensures RequestedSize(0) == 32
  {
  }

  lemma FreeingIsUsed(h0: Heap, h: Heap, all: set<int>, s: seq<int>, i: nat)
    requires Freeing(h0, h, all, s) && i < |s| && s[i] != 0
    ensures Has(h, s[i] - 16).Used?
  {
    assert InUse(h, s[i] - 16) > 0;
  }

  /** The chunk behind is one of those to be freed, hence in use, not top, and not at address -16. */
  lemma FreeingNext(h0: Heap, h: Heap, all: set<int>, s: seq<int>)
    requires Freeing(h0, h, all, s) && |s| > 1 && s[0] != 0 && HeapOk(h, {})
    requires Next(h.t, s[0] - 16) == s[1] - 16 && Has(h, s[0] - 16).Used?
    ensures s[1] != 0 && Has(h, s[1] - 16).Used? && s[1] - 16 != h.y.top
  {
    FreeInsideNext(h, s[0] - 16);
    FreeingIsUsed(h0, h, all, s, 1);
  }

  lemma FreedAllAfter(h: Heap, h': Heap, h'': Heap, mems: set<int>)
    requires FreedAll(h, h', mems) && SameUse(h', h'')
    ensures FreedAll(h, h'', mems)
  {
  }
}
