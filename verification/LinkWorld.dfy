/**
 All links and all lists at once: every link is the head of a list, or of one object in one list, or
 alone. The operations on links are moves between the lists.
 */
module LinkWorld {
  import opened LinkRings

  /** `owner` tells for every link which head it belongs to; a link that is alone belongs to itself. */
  datatype World = World(m: Links, lists: map<Address, Ring>, owner: map<Address, Address>)

  ghost predicate Owns(owner: map<Address, Address>, head: Address, r: Ring) {
    forall i :: 0 <= i <= |r.objs| ==> LinkAt(head, r, i) in owner && owner[LinkAt(head, r, i)] == head
  }

  ghost predicate InRing(l: Address, head: Address, r: Ring) {
    exists i :: 0 <= i <= |r.objs| && LinkAt(head, r, i) == l
  }

  ghost predicate Placed(w: World, l: Address)
    requires l in w.owner
  {
    if w.owner[l] in w.lists then InRing(l, w.owner[l], w.lists[w.owner[l]])
    else w.owner[l] == l && Alone(w.m, l)
  }

  ghost predicate Ok(w: World) {
    && (forall h :: h in w.lists ==> RingOk(w.m, h, w.lists[h]) && Owns(w.owner, h, w.lists[h]))
    && (forall l :: l in w.owner ==> Placed(w, l))
  }

  /* ------------------------------- moves on sequences ------------------------------- */

  /** `s` without `x`. */
  function Minus(s: seq<Address>, x: Address): seq<Address> {
    if s == [] then [] else if s[0] == x then Minus(s[1..], x) else [s[0]] + Minus(s[1..], x)
  }

  /** `s` with `node` just before `x`, or at the end if `x` is not there. */
  function PutBefore(s: seq<Address>, x: Address, node: Address): seq<Address> {
    if s == [] then [node] else if s[0] == x then [node] + s else [s[0]] + PutBefore(s[1..], x, node)
  }

  /** `s` with `node` just after `x`. */
  function PutAfter(s: seq<Address>, x: Address, node: Address): seq<Address> {
    if s == [] then [node] else if s[0] == x then [x, node] + s[1..] else [s[0]] + PutAfter(s[1..], x, node)
  }

  ghost predicate NoRepeats(s: seq<Address>) {
    forall i, j :: 0 <= i < j < |s| ==> s[i] != s[j]
  }

  lemma {:induction false} MinusAbsent(s: seq<Address>, x: Address)
    requires x !in s
    ensures Minus(s, x) == s
  {
    if s != [] {
      MinusAbsent(s[1..], x);
    }
  }

  lemma {:induction false} MinusAt(s: seq<Address>, k: int)
    requires NoRepeats(s) && 0 <= k < |s|
    ensures Minus(s, s[k]) == s[..k] + s[k + 1..]
  {
    if k == 0 {
      MinusAbsent(s[1..], s[0]);
    } else {
      MinusAt(s[1..], k - 1);
      assert s[..k] + s[k + 1..] == [s[0]] + (s[1..][..k - 1] + s[1..][k..]);
    }
  }

  lemma {:induction false} PutBeforeAt(s: seq<Address>, k: int, node: Address)
    requires NoRepeats(s) && 0 <= k < |s|
    ensures PutBefore(s, s[k], node) == s[..k] + [node] + s[k..]
  {
    if k > 0 {
      PutBeforeAt(s[1..], k - 1, node);
      assert s[..k] + [node] + s[k..] == [s[0]] + (s[1..][..k - 1] + [node] + s[1..][k - 1..]);
    }
  }

  lemma {:induction false} PutBeforeNone(s: seq<Address>, x: Address, node: Address)
    requires x !in s
    ensures PutBefore(s, x, node) == s + [node]
  {
    if s != [] {
      PutBeforeNone(s[1..], x, node);
      assert s + [node] == [s[0]] + (s[1..] + [node]);
    }
  }

  lemma {:induction false} PutAfterAt(s: seq<Address>, k: int, node: Address)
    requires NoRepeats(s) && 0 <= k < |s|
    ensures PutAfter(s, s[k], node) == s[..k + 1] + [node] + s[k + 1..]
  {
    if k > 0 {
      PutAfterAt(s[1..], k - 1, node);
      assert s[..k + 1] + [node] + s[k + 1..] == [s[0]] + (s[1..][..k] + [node] + s[1..][k..]);
    }
  }

  /* --------------------------------- moves of links --------------------------------- */

  /** The lists once link `l` has left the list it was in, if any. */
  function Detached(lists: map<Address, Ring>, owner: map<Address, Address>, l: Address): map<Address, Ring> {
    if l in owner && owner[l] in lists then
      var h := owner[l];
      lists[h := Ring(lists[h].off, Minus(lists[h].objs, l - lists[h].off))]
    else lists
  }

  function Left(w: World, l: Address): World
    requires l in w.m.next && l in w.m.prev && w.m.prev[l] in w.m.next
  {
    World(Bypassed(w.m, l), Detached(w.lists, w.owner, l), w.owner - {l})
  }

  /** `RemoveFromList` makes a link leave its list and changes nothing else. */
  lemma DetachOk(w: World, l: Address)
    requires Ok(w) && l in w.owner && l !in w.lists
    ensures l in w.m.next && l in w.m.prev && w.m.prev[l] in w.m.next && Ok(Left(w, l))
    ensures Left(w, l).m.next.Keys == w.m.next.Keys && Left(w, l).m.prev.Keys == w.m.prev.Keys
  {
    hide RingOk, Shaped, NextLink;
    assert Placed(w, l);
    if w.owner[l] in w.lists {
      var h := w.owner[l];
      var i :| 0 <= i <= |w.lists[h].objs| && LinkAt(h, w.lists[h], i) == l;
      LeaveOk(w, h, i - 1);
    } else {
      NextLinkAlone(w.m, l);
      assert Bypassed(w.m, l) == w.m;
      AloneLeaves(w, l);
    }
  }

  lemma AloneLeaves(w: World, l: Address)
    requires Ok(w) && l in w.owner && w.owner[l] !in w.lists && w.owner[l] == l
    ensures Ok(World(w.m, w.lists, w.owner - {l}))
  {
    hide RingOk, Shaped;
    var w' := World(w.m, w.lists, w.owner - {l});
    forall h | h in w.lists
      ensures Owns(w'.owner, h, w.lists[h])
    {
      assert Owns(w.owner, h, w.lists[h]);
    }
    forall a | a in w'.owner
      ensures Placed(w', a)
    {
      assert Placed(w, a);
    }
  }

  lemma LeaveOk(w: World, h: Address, k: int)
    requires Ok(w) && h in w.lists && 0 <= k < |w.lists[h].objs|
    ensures var l := LinkAt(h, w.lists[h], k + 1);
      && l in w.owner && w.owner[l] == h
      && l in w.m.next && l in w.m.prev && w.m.prev[l] in w.m.next && Ok(Left(w, l))
    ensures var l := LinkAt(h, w.lists[h], k + 1);
      Left(w, l).m.next.Keys == w.m.next.Keys && Left(w, l).m.prev.Keys == w.m.prev.Keys
  {
    hide RingOk, NextLink;
    var r := w.lists[h];
    var l := LinkAt(h, r, k + 1);
    assert Owns(w.owner, h, r) && RingOk(w.m, h, r);
    RemoveOk(w.m, h, r, k);
    RingShape(w.m, h, r);
    MinusAt(r.objs, k);
    var w' := Left(w, l);
    assert w'.lists[h] == Without(r, k);
    LinkIn(w.m, h, r, k);
    LinkIn(w.m, h, r, NextPos(r, k + 1));
    assert forall a :: a in w.owner && w.owner[a] != h ==> Same(w.m, w'.m, a);
    OwnsLess(w.owner, h, r, k);
    OthersKept(w, w', h);
    forall a | a in w'.owner
      ensures Placed(w', a)
    {
      PlacedLess(w, h, k, a);
    }
  }

  lemma LinkIn(m: Links, head: Address, r: Ring, i: int)
    requires RingOk(m, head, r) && 0 <= i <= |r.objs|
    ensures LinkAt(head, r, i) in m.next && LinkAt(head, r, i) in m.prev
  {
    assert Linked(m, head, r, i);
  }

  lemma RingShape(m: Links, head: Address, r: Ring)
    requires RingOk(m, head, r)
    ensures Shaped(head, r) && NoRepeats(r.objs)
  {
  }

  lemma OwnsLess(owner: map<Address, Address>, h: Address, r: Ring, k: int)
    requires Owns(owner, h, r) && Shaped(h, r) && 0 <= k < |r.objs|
    ensures Owns(owner - {LinkAt(h, r, k + 1)}, h, Without(r, k))
  {
    forall i | 0 <= i < |r.objs|
      ensures var a := LinkAt(h, Without(r, k), i); a != LinkAt(h, r, k + 1) && a in owner && owner[a] == h
    {
      var j := if i <= k then i else i + 1;
      LinksDiffer(h, r, j, k + 1);
      assert LinkAt(h, Without(r, k), i) == LinkAt(h, r, j);
    }
  }

  /** The other lists do not notice. */
  lemma OthersKept(w: World, w': World, h: Address)
    requires Ok(w) && w'.lists.Keys == w.lists.Keys
    requires forall a :: a in w.owner && w.owner[a] != h ==>
      Same(w.m, w'.m, a) && a in w'.owner && w'.owner[a] == w.owner[a]
    requires forall g :: g in w.lists && g != h ==> w'.lists[g] == w.lists[g]
    ensures forall g :: g in w.lists && g != h ==> RingOk(w'.m, g, w'.lists[g]) && Owns(w'.owner, g, w'.lists[g])
  {
    hide RingOk, Same;
    forall g | g in w.lists && g != h
      ensures RingOk(w'.m, g, w'.lists[g]) && Owns(w'.owner, g, w'.lists[g])
    {
      assert Owns(w.owner, g, w.lists[g]) && RingOk(w.m, g, w.lists[g]);
      RingKept(w.m, w'.m, g, w.lists[g]);
    }
  }

  lemma PlacedLess(w: World, h: Address, k: int, a: Address)
    requires Ok(w) && h in w.lists && 0 <= k < |w.lists[h].objs| && Shaped(h, w.lists[h])
    requires a in w.owner && a != LinkAt(h, w.lists[h], k + 1)
    ensures w.owner[a] == h ==> InRing(a, h, Without(w.lists[h], k))
    ensures w.owner[a] != h ==> Placed(w, a)
  {
    hide RingOk, Shaped;
    assert Placed(w, a);
    if w.owner[a] == h {
      var r := w.lists[h];
      var i :| 0 <= i <= |r.objs| && LinkAt(h, r, i) == a;
      var j := if i <= k then i else i - 1;
      assert LinkAt(h, Without(r, k), j) == a;
    }
  }

  /** A link in no list joins list `h` as object `k`, and nothing else changes. */
  lemma AttachOk(w: World, h: Address, k: int, node: Address)
    requires Ok(w) && h in w.lists && 0 <= k <= |w.lists[h].objs|
    requires node % 2 == 0 && node != 0 && node + w.lists[h].off !in w.owner
    ensures LinkAt(h, w.lists[h], k) in w.m.next
    ensures Ok(Joined(w, h, k, node))
  {
    hide RingOk;
    var r := w.lists[h];
    var l := node + r.off;
    assert Owns(w.owner, h, r) && RingOk(w.m, h, r);
    InsertOk(w.m, h, r, k, node);
    LinkIn(w.m, h, r, k);
    var w' := Joined(w, h, k, node);
    assert forall a :: a in w.owner && w.owner[a] != h ==> Same(w.m, w'.m, a);
    OwnsMore(w.owner, h, r, k, node);
    OthersKept(w, w', h);
    forall a | a in w'.owner
      ensures Placed(w', a)
    {
      if a == l {
        assert LinkAt(h, With(r, k, node), k + 1) == a;
      } else {
        PlacedMore(w, h, k, node, a);
      }
    }
  }

  function Joined(w: World, h: Address, k: int, node: Address): World
    requires h in w.lists && 0 <= k <= |w.lists[h].objs| && LinkAt(h, w.lists[h], k) in w.m.next
  {
    var r := w.lists[h];
    World(Between(w.m, node + r.off, node, LinkAt(h, r, k), LinkAt(h, r, NextPos(r, k))),
          w.lists[h := With(r, k, node)], w.owner[node + r.off := h])
  }

  lemma OwnsMore(owner: map<Address, Address>, h: Address, r: Ring, k: int, node: Address)
    requires Owns(owner, h, r) && 0 <= k <= |r.objs| && node + r.off !in owner
    ensures Owns(owner[node + r.off := h], h, With(r, k, node))
  {
    forall i | 0 <= i <= |r.objs| + 1
      ensures var a := LinkAt(h, With(r, k, node), i); a == node + r.off || (a in owner && owner[a] == h)
    {
      if i != k + 1 {
        assert LinkAt(h, With(r, k, node), i) == LinkAt(h, r, if i <= k then i else i - 1);
      }
    }
  }

  lemma PlacedMore(w: World, h: Address, k: int, node: Address, a: Address)
    requires Ok(w) && h in w.lists && 0 <= k <= |w.lists[h].objs| && a in w.owner
    ensures w.owner[a] == h ==> InRing(a, h, With(w.lists[h], k, node))
    ensures w.owner[a] != h ==> Placed(w, a)
  {
    hide RingOk;
    assert Placed(w, a);
    if w.owner[a] == h {
      var r := w.lists[h];
      var i :| 0 <= i <= |r.objs| && LinkAt(h, r, i) == a;
      assert LinkAt(h, With(r, k, node), if i <= k then i else i + 1) == a;
    }
  }

  /** A new link is alone. */
  lemma AloneOk(w: World, l: Address)
    requires Ok(w) && l !in w.owner && l % 2 == 0
    ensures Ok(World(Links(w.m.next[l := l + 1], w.m.prev[l := l]), w.lists, w.owner[l := l]))
  {
    hide RingOk;
    var w' := World(Links(w.m.next[l := l + 1], w.m.prev[l := l]), w.lists, w.owner[l := l]);
    HeadsOwned(w);
    OthersKept(w, w', l);
    forall a | a in w'.owner
      ensures Placed(w', a)
    {
      if a != l {
        assert Placed(w, a);
      }
    }
  }

  lemma HeadsOwned(w: World)
    requires Ok(w)
    ensures forall h :: h in w.lists ==> h in w.owner && w.owner[h] == h
  {
    hide RingOk;
    forall h | h in w.lists
      ensures h in w.owner && w.owner[h] == h
    {
      assert Owns(w.owner, h, w.lists[h]);
      assert LinkAt(h, w.lists[h], 0) == h;
    }
  }

  /** A new list is empty. */
  lemma HeadOk(w: World, h: Address, off: int)
    requires Ok(w) && h !in w.owner && h % 2 == 0 && off % 2 == 0
    ensures Ok(World(Links(w.m.next[h := h + 1 - off], w.m.prev[h := h]), w.lists[h := Ring(off, [])], w.owner[h := h]))
  {
    hide RingOk;
    var w' := World(Links(w.m.next[h := h + 1 - off], w.m.prev[h := h]), w.lists[h := Ring(off, [])], w.owner[h := h]);
    HeadsOwned(w);
    EmptyRing(w'.m, h, off);
    forall g | g in w.lists
      ensures RingOk(w'.m, g, w.lists[g]) && Owns(w'.owner, g, w.lists[g])
    {
      assert Owns(w.owner, g, w.lists[g]) && RingOk(w.m, g, w.lists[g]);
      RingKept(w.m, w'.m, g, w.lists[g]);
    }
    forall a | a in w'.owner
      ensures Placed(w', a)
    {
      if a == h {
        assert LinkAt(h, w'.lists[h], 0) == a;
      } else {
        assert Placed(w, a);
        NeverAloneInList(w, a, h);
      }
    }
  }

  lemma NeverAloneInList(w: World, a: Address, h: Address)
    requires Ok(w) && a in w.owner && h !in w.owner
    ensures w.owner[a] != h
  {
    hide RingOk;
    HeadsOwned(w);
    assert Placed(w, a);
  }

  lemma EmptyRing(m: Links, h: Address, off: int)
    requires h % 2 == 0 && off % 2 == 0 && h in m.next && h in m.prev && m.next[h] == h + 1 - off && m.prev[h] == h
    ensures RingOk(m, h, Ring(off, []))
  {
  }
}
