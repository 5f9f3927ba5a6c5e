/** What a program holds after it got several parcels at once, or gave several pointers back. */
module Handing {
  import opened BoundaryTags
  import opened HeapView
  import opened Requests
  import opened Parcels
  import opened CanonicalLayout

  /** `live` has exactly the pointers in use, each aligned and with room for the bytes asked for. */
  ghost predicate Holds(h: Heap, live: map<int, nat>) {
    && (forall mem :: mem in live ==> mem != 0 && mem % 16 == 0 && live[mem] + 8 <= InUse(h, mem - 16))
    && (forall a :: InUse(h, a) > 0 ==> a + 16 in live)
  }

  /** The pointers `ptrs` are held as well, with `bytes` behind each. */
  function Handed(live: map<int, nat>, ptrs: seq<int>, bytes: seq<nat>): map<int, nat>
    requires |ptrs| == |bytes|
  {
    if ptrs == [] then live
    else
      var k := |ptrs| - 1;
      Handed(live, ptrs[..k], bytes[..k])[ptrs[k] := bytes[k]]
  }

  lemma {:induction false} HandedKeys(live: map<int, nat>, ptrs: seq<int>, bytes: seq<nat>, mem: int)
    requires |ptrs| == |bytes|
    ensures mem in Handed(live, ptrs, bytes) <==> mem in live || mem in ptrs
    ensures mem in live && mem !in ptrs ==> Handed(live, ptrs, bytes)[mem] == live[mem]
    decreases |ptrs|
  {
    if ptrs != [] {
      var k := |ptrs| - 1;
      assert ptrs == ptrs[..k] + [ptrs[k]];
      HandedKeys(live, ptrs[..k], bytes[..k], mem);
    }
  }

  lemma {:induction false} HandedAt(live: map<int, nat>, ptrs: seq<int>, bytes: seq<nat>, i: nat)
    requires i < |ptrs| == |bytes| && forall j, k :: 0 <= j < k < |ptrs| ==> ptrs[j] != ptrs[k]
    ensures ptrs[i] in Handed(live, ptrs, bytes) && Handed(live, ptrs, bytes)[ptrs[i]] == bytes[i]
    decreases |ptrs|
  {
    var k := |ptrs| - 1;
    if i < k {
      HandedAt(live, ptrs[..k], bytes[..k], i);
    }
  }

  /** One pointer for each part, and each part has room for what was asked for. */
  ghost predicate Fitting(first: int, parts: seq<nat>, ptrs: seq<int>, bytes: seq<nat>) {
    && first > 0 && first % 16 == 0 && |parts| == |ptrs| == |bytes|
    && (forall i :: 0 <= i < |parts| - 1 ==> parts[i] % 16 == 0)
    && (forall i :: 0 <= i < |parts| ==> bytes[i] + 8 <= parts[i] && ptrs[i] == StartOf(first, parts, i) + 16)
  }

  lemma {:induction false} StartAligned(first: int, parts: seq<nat>, i: nat)
    requires i <= |parts| && first % 16 == 0 && forall j :: 0 <= j < i ==> parts[j] % 16 == 0
    ensures StartOf(first, parts, i) % 16 == 0 && StartOf(first, parts, i) >= first
  {
    hide Sum;
    NoParts(parts);
    if i > 0 {
      SumPrefix(parts, i - 1);
      StartAligned(first, parts, i - 1);
      StillAligned(StartOf(first, parts, i - 1), parts[i - 1]);
    }
  }

  lemma NoParts(parts: seq<nat>)
    ensures Sum(parts[..0]) == 0
  {
  }

  lemma StillAligned(a: int, b: nat)
    requires a % 16 == 0 && b % 16 == 0
    ensures (a + b) % 16 == 0
  {
  }

  lemma FittingPart(h: Heap, h': Heap, first: int, parts: seq<nat>, ptrs: seq<int>, bytes: seq<nat>, i: nat)
    requires Parceled(h, h', first, parts) && Fitting(first, parts, ptrs, bytes) && i < |parts|
    ensures ptrs[i] > 0 && ptrs[i] % 16 == 0 && InUse(h', ptrs[i] - 16) == parts[i]
  {
    hide InUse, StartOf;
    StartAligned(first, parts, i);
    PartHere(first, parts, i, InUse(h, ptrs[i] - 16));
  }

  lemma PtrsDiffer(first: int, parts: seq<nat>, ptrs: seq<int>, bytes: seq<nat>)
    requires Fitting(first, parts, ptrs, bytes)
    ensures forall i, j :: 0 <= i < j < |ptrs| ==> ptrs[i] != ptrs[j]
  {
    hide StartOf;
    forall i, j | 0 <= i < j < |ptrs|
      ensures ptrs[i] != ptrs[j]
    {
      StartsRise(first, parts, i, j);
    }
  }

  /** Whatever was in use where no part starts is still in use as before. */
  lemma NotAPart(h: Heap, h': Heap, first: int, parts: seq<nat>, ptrs: seq<int>, bytes: seq<nat>, mem: int)
    requires Parceled(h, h', first, parts) && Fitting(first, parts, ptrs, bytes) && mem !in ptrs
    ensures InUse(h', mem - 16) == InUse(h, mem - 16)
  {
    hide InUse, StartOf;
    forall i | 0 <= i < |parts|
      ensures StartOf(first, parts, i) != mem - 16
    {
      assert ptrs[i] in ptrs;
    }
    PartNowhere(first, parts, mem - 16, InUse(h, mem - 16));
  }

  lemma HoldsParceled(
    h: Heap, h': Heap, live: map<int, nat>, first: int, parts: seq<nat>, ptrs: seq<int>, bytes: seq<nat>)
    requires Holds(h, live) && Parceled(h, h', first, parts) && Fitting(first, parts, ptrs, bytes)
    ensures Holds(h', Handed(live, ptrs, bytes))
  {
    hide InUse, Fitting, Parceled, Handed;
    SameLengths(first, parts, ptrs, bytes);
    PtrsDiffer(first, parts, ptrs, bytes);
    var now := Handed(live, ptrs, bytes);
    forall mem | mem in now
      ensures mem != 0 && mem % 16 == 0 && now[mem] + 8 <= InUse(h', mem - 16)
    {
      HandedKeys(live, ptrs, bytes, mem);
      if i: nat :| i < |ptrs| && ptrs[i] == mem {
        HandedAt(live, ptrs, bytes, i);
        FittingPart(h, h', first, parts, ptrs, bytes, i);
        RoomForPart(first, parts, ptrs, bytes, i);
      } else {
        NotAPart(h, h', first, parts, ptrs, bytes, mem);
      }
    }
    forall a | InUse(h', a) > 0
      ensures a + 16 in now
    {
      HandedKeys(live, ptrs, bytes, a + 16);
      if a + 16 !in ptrs {
        NotAPart(h, h', first, parts, ptrs, bytes, a + 16);
        assert (a + 16) - 16 == a;
      }
    }
  }

  lemma SameLengths(first: int, parts: seq<nat>, ptrs: seq<int>, bytes: seq<nat>)
    requires Fitting(first, parts, ptrs, bytes)
    ensures |ptrs| == |bytes| == |parts|
  {
  }

  lemma RoomForPart(first: int, parts: seq<nat>, ptrs: seq<int>, bytes: seq<nat>, i: nat)
    requires Fitting(first, parts, ptrs, bytes) && i < |parts|
    ensures bytes[i] + 8 <= parts[i]
  {
  }

  /** The sizes the program asked `ialloc` for. */
  function Asked(n: nat, sizes: seq<nat>, same: bool): seq<nat>
    requires n > 0 ==> if same then sizes != [] else n <= |sizes|
  {
    if n == 0 then [] else if same then seq(n, _ => sizes[0]) else sizes[..n]
  }

  /** One size for each element: its own, or the first for all. */
  lemma AskedAre(n: nat, sizes: seq<nat>, same: bool, i: nat)
    requires i < n && if same then sizes != [] else n <= |sizes|
    ensures |Asked(n, sizes, same)| == n && Asked(n, sizes, same)[i] == sizes[if same then 0 else i]
  {
  }

  function AllPointers(ptrs: seq<int>, marray: int, given: bool): seq<int> {
    if given then ptrs else ptrs + [marray]
  }

  /** What `ialloc` was asked for, and what the pointer array needs. */
  function AllAsked(n: nat, sizes: seq<nat>, same: bool, given: bool): seq<nat>
    requires n > 0 ==> if same then sizes != [] else n <= |sizes|
  {
    Asked(n, sizes, same) + if given then [] else [8 * n]
  }

  /** What `ialloc` has laid out has room for everything. */
  lemma LaidFits(
    n: nat, sizes: seq<nat>, same: bool, given: bool, first: int, parts: seq<nat>, ptrs: seq<int>, marray: int)
    requires n > 0 && (if same then sizes != [] else n <= |sizes|) && first > 0 && first % 16 == 0
    requires Laid(Elements(n, sizes, same), given, 8 * n, first, parts, ptrs, marray)
    ensures Fitting(first, parts, AllPointers(ptrs, marray, given), AllAsked(n, sizes, same, given))
  {
    hide Sum, TrueSize, Elements;
    var es, bytes := Elements(n, sizes, same), AllAsked(n, sizes, same, given);
    ElementsAre(n, sizes, same);
    forall i | 0 <= i < |parts|
      ensures bytes[i] + 8 <= parts[i] && (i < |parts| - 1 ==> parts[i] % 16 == 0)
    {
      TrueSizeOk(bytes[i]);
      if i < n - 1 {
        assert parts[i] == parts[..n - 1][i] == es[..n - 1][i];
      }
    }
  }

  lemma UsedAligned(h: Heap, h': Heap, first: int, parts: seq<nat>)
    requires TagsOk(h'.t, h'.y) && Parceled(h, h', first, parts) && parts != [] && parts[0] > 0
    ensures first > 0 && first % 16 == 0
  {
    assert PartAt(first, parts, first, InUse(h, first)) == parts[0];
    assert InUse(h', first) > 0;
  }

  lemma HoldsFreedAll(h: Heap, h': Heap, live: map<int, nat>, mems: set<int>)
    requires Holds(h, live) && FreedAll(h, h', mems)
    ensures Holds(h', live - mems)
  {
    hide InUse;
  }

  lemma HoldsSame(h: Heap, h': Heap, live: map<int, nat>)
    requires Holds(h, live) && SameUse(h, h')
    ensures Holds(h', live)
  {
    hide InUse;
  }
}
