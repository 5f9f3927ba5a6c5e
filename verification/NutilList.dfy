/**
 The intrusive list: `TLink` and `TList` over one memory of links.
 */
module NutilList {
  import opened LinkRings
  import opened LinkWorld

  class LinkMemory {
    var next: map<Address, int>
    var prev: map<Address, Address>

    ghost var lists: map<Address, Ring>
    ghost var owner: map<Address, Address>

    ghost function View(): World
      reads this
    {
      World(Links(next, prev), lists, owner)
    }

    ghost predicate Valid()
      reads this
    {
      Ok(View())
    }

    constructor ()
      ensures Valid() && lists == map[] && owner == map[]
    {
      next, prev, lists, owner := map[], map[], map[], map[];
    }

    /** `TLink()`. */
    method NewLink(l: Address)
      requires Valid() && l !in owner && l % 2 == 0
      modifies this
      ensures Valid() && lists == old(lists) && owner == old(owner)[l := l]
    {
      hide Ok;
      AloneOk(View(), l);
      next, prev := next[l := l + 1 - 0], prev[l := l];
      owner := owner[l := l];
    }

    /** `TList(offset)`, and `TLink(offset)` in it. */
    method NewList(head: Address, offset: int)
      requires Valid() && head !in owner && head % 2 == 0 && offset % 2 == 0
      modifies this
      ensures Valid() && lists == old(lists)[head := Ring(offset, [])] && owner == old(owner)[head := head]
    {
      hide Ok;
      HeadOk(View(), head, offset);
      next, prev := next[head := head + 1 - offset], prev[head := head];
      lists, owner := lists[head := Ring(offset, [])], owner[head := head];
    }

    /** `SetOffset` turns a link that is alone into the head of an empty list. */
    method SetOffset(l: Address, offset: int)
      requires Valid() && l in owner && owner[l] == l && l !in lists && offset % 2 == 0
      modifies this
      ensures Valid() && lists == old(lists)[l := Ring(offset, [])] && owner == old(owner)
    {
      hide Ok;
      LinkPlaced(View(), l);
      AloneLeaves(View(), l);
      HeadOk(World(Links(next, prev), lists, owner - {l}), l, offset);
      assert owner == (owner - {l})[l := l];
      next, prev := next[l := l + 1 - offset], prev[l := l];
      lists := lists[l := Ring(offset, [])];
    }

    /** `RemoveFromList`: the link leaves its list; its own fields stay. */
    method RemoveFromList(l: Address)
      requires Valid() && l in owner && l !in lists
      modifies this
      ensures Valid() && lists == Detached(old(lists), old(owner), l) && owner == old(owner) - {l}
      ensures l in next && l in prev && next.Keys == old(next.Keys) && prev.Keys == old(prev.Keys)
    {
      hide Ok, NextLink;
      DetachOk(View(), l);
      ghost var w := View();
      NextOf(w, l);
      var n := NextLink(Links(next, prev), l);
      prev := prev[n := prev[l]];
      next := next[prev[l] := next[l]];
      lists := Detached(lists, owner, l);
      owner := owner - {l};
      assert View() == Left(w, l);
    }

    /** `Unlink`: the link is alone afterwards. */
    method Unlink(l: Address)
      requires Valid() && l in owner && l !in lists
      modifies this
      ensures Valid() && lists == Detached(old(lists), old(owner), l) && owner == old(owner)[l := l]
    {
      hide Ok;
      HeadEven(View(), l);
      RemoveFromList(l);
      NewLink(l);
      assert owner == old(owner)[l := l];
    }

    /** `InsertBefore` of a link: the object moves to just before the one of another link of list `h`. */
    method InsertBefore(l: Address, node: Address, nextLink: Address, ghost h: Address)
      requires Valid() && h in lists && l in owner && l !in lists
      requires l == node + lists[h].off && node % 2 == 0 && node != 0
      requires nextLink in owner && owner[nextLink] == h && nextLink != l
      modifies this
      ensures Valid() && owner == old(owner)[l := h]
      ensures var d := Detached(old(lists), old(owner), l);
        lists == d[h := Ring(d[h].off, PutBefore(d[h].objs, nextLink - d[h].off, node))]
    {
      hide Ok, LinkWorld.PutBefore;
      RemoveFromList(l);
      ghost var w := View();
      ghost var k := BeforePosition(w, h, nextLink, node);
      AttachOk(w, h, k, node);

      prev := prev[l := prev[nextLink]];
      next := next[l := next[prev[l]]];

      next := next[prev[nextLink] := node];
      prev := prev[nextLink := l];

      lists := lists[h := With(lists[h], k, node)];
      owner := owner[l := h];
      assert View() == Joined(w, h, k, node);
    }

    /** `InsertAfter` of a link. */
    method InsertAfter(l: Address, node: Address, prevLink: Address, ghost h: Address)
      requires Valid() && h in lists && l in owner && l !in lists
      requires l == node + lists[h].off && node % 2 == 0 && node != 0
      requires prevLink in owner && owner[prevLink] == h && prevLink != l
      modifies this
      ensures Valid() && owner == old(owner)[l := h]
      ensures var d := Detached(old(lists), old(owner), l);
        lists == d[h := Ring(d[h].off,
          if prevLink == h then [node] + d[h].objs else PutAfter(d[h].objs, prevLink - d[h].off, node))]
    {
      hide Ok, LinkWorld.PutAfter, NextLink;
      RemoveFromList(l);
      ghost var w := View();
      ghost var k := AfterPosition(w, h, prevLink, node);
      AttachOk(w, h, k, node);

      prev := prev[l := prevLink];
      next := next[l := next[prevLink]];

      NextAmongOthers(w, View(), h, k, l);
      prev := prev[NextLink(Links(next, prev), prevLink) := l];
      next := next[prevLink := node];

      lists := lists[h := With(lists[h], k, node)];
      owner := owner[l := h];
      assert View() == Joined(w, h, k, node);
    }
  }

  /** A next-object field read as a pointer: null when it is tagged. */
  function Object(x: int): Address { if LowBit(x) == 1 then 0 else x }

  /** `TLink::Next`. */
  method Next(m: LinkMemory, l: Address) returns (node: Address)
    requires l in m.next
    ensures node == Object(m.next[l])
  {
    if LowBit(m.next[l]) == 1 { return 0; }
    return m.next[l];
  }

  /** `TLink::Prev`: the next object of the link two back. */
  method Prev(m: LinkMemory, l: Address) returns (node: Address)
    requires l in m.prev && m.prev[l] in m.prev && m.prev[m.prev[l]] in m.next
    ensures node == Object(m.next[m.prev[m.prev[l]]])
  {
    var prevNode := m.next[m.prev[m.prev[l]]];
    if LowBit(prevNode) == 1 { return 0; }
    return prevNode;
  }

  /** What `Next` and `Prev` find at position `i` of a ring. */
  lemma Neighbours(w: World, h: Address, i: int)
    requires Ok(w) && h in w.lists && 0 <= i <= |w.lists[h].objs|
    ensures var l := LinkAt(h, w.lists[h], i);
      && l in w.m.next && l in w.m.prev && w.m.prev[l] in w.m.prev && w.m.prev[w.m.prev[l]] in w.m.next
      && Object(w.m.next[l]) == (if i < |w.lists[h].objs| then w.lists[h].objs[i] else 0)
      && Object(w.m.next[w.m.prev[w.m.prev[l]]]) ==
           (if i >= 2 then w.lists[h].objs[i - 2]
            else if i == 0 < |w.lists[h].objs| then w.lists[h].objs[|w.lists[h].objs| - 1] else 0)
  {
    hide Shaped;
    var r := w.lists[h];
    RingShape(w.m, h, r);
    NextObjects(h, r);
    assert Linked(w.m, h, r, i);
    assert Linked(w.m, h, r, PrevPos(r, i));
    assert Linked(w.m, h, r, PrevPos(r, PrevPos(r, i)));
  }

  lemma NextObjects(h: Address, r: Ring)
    requires Shaped(h, r)
    ensures forall i :: 0 <= i <= |r.objs| ==> Object(NextAt(h, r, i)) == if i < |r.objs| then r.objs[i] else 0
  {
  }

  lemma ItemsNotNull(w: World, h: Address)
    requires Ok(w) && h in w.lists
    ensures forall o :: o in w.lists[h].objs ==> o != 0 && o != h - w.lists[h].off
    ensures forall i :: 0 <= i < |w.lists[h].objs| ==> w.lists[h].objs[i] != 0
  {
    RingShape(w.m, h, w.lists[h]);
  }

  /** The link of an object in a list belongs to the list. */
  lemma ItemOwned(w: World, h: Address, o: Address)
    requires Ok(w) && h in w.lists && o in w.lists[h].objs
    ensures o + w.lists[h].off in w.owner && w.owner[o + w.lists[h].off] == h && o + w.lists[h].off != h
  {
    hide RingOk;
    ItemsNotNull(w, h);
    var r := w.lists[h];
    assert Owns(w.owner, h, r);
    var i :| 0 <= i < |r.objs| && r.objs[i] == o;
    assert LinkAt(h, r, i + 1) == o + r.off;
  }

  lemma {:induction false} MinusInside(s: seq<Address>, x: Address)
    ensures forall o :: o in Minus(s, x) ==> o in s
  {
    if s != [] {
      MinusInside(s[1..], x);
    }
  }

  /** Once a link has left, list `h` still has only objects it had. */
  lemma StillNotNull(w: World, h: Address, l: Address)
    requires Ok(w) && h in w.lists
    ensures var d := Detached(w.lists, w.owner, l);
      h in d && d[h].off == w.lists[h].off && forall o :: o in d[h].objs ==> o != 0 && o != h - d[h].off
  {
    hide Ok;
    ItemsNotNull(w, h);
    MinusInside(w.lists[h].objs, l - w.lists[h].off);
  }

  lemma LinkPlaced(w: World, l: Address)
    requires Ok(w) && l in w.owner && l !in w.lists && w.owner[l] == l
    ensures Alone(w.m, l)
  {
    assert Placed(w, l);
  }

  lemma HeadEven(w: World, l: Address)
    requires Ok(w) && l in w.owner
    ensures l % 2 == 0
  {
    hide RingOk;
    assert Placed(w, l);
    if w.owner[l] in w.lists {
      RingShape(w.m, w.owner[l], w.lists[w.owner[l]]);
    }
  }

  /** Reading the next link of a link in the world is safe. */
  lemma NextOf(w: World, l: Address)
    requires Ok(w) && l in w.owner
    ensures l in w.m.next && l in w.m.prev && w.m.prev[l] in w.m.next
    ensures NextLink(w.m, l) in w.m.prev
  {
    hide RingOk, Shaped, NextLink;
    assert Placed(w, l);
    if w.owner[l] in w.lists {
      var h := w.owner[l];
      var r := w.lists[h];
      var i :| 0 <= i <= |r.objs| && LinkAt(h, r, i) == l;
      NextLinkIs(w.m, h, r, i);
      LinkIn(w.m, h, r, NextPos(r, i));
    } else {
      NextLinkAlone(w.m, l);
    }
  }

  /** The gap before a link of list `h`. */
  lemma BeforePosition(w: World, h: Address, nextLink: Address, node: Address) returns (k: int)
    requires Ok(w) && h in w.lists && nextLink in w.owner && w.owner[nextLink] == h
    ensures 0 <= k <= |w.lists[h].objs| && LinkAt(h, w.lists[h], NextPos(w.lists[h], k)) == nextLink
    ensures nextLink in w.m.prev && w.m.prev[nextLink] == LinkAt(h, w.lists[h], k)
    ensures With(w.lists[h], k, node).objs == PutBefore(w.lists[h].objs, nextLink - w.lists[h].off, node)
  {
    hide PutBefore;
    var r := w.lists[h];
    assert Placed(w, nextLink);
    var i :| 0 <= i <= |r.objs| && LinkAt(h, r, i) == nextLink;
    RingShape(w.m, h, r);
    k := PrevPos(r, i);
    assert Linked(w.m, h, r, i);
    if i == 0 {
      PutBeforeNone(r.objs, h - r.off, node);
    } else {
      PutBeforeAt(r.objs, i - 1, node);
    }
  }

  /** The gap after a link of list `h`. */
  lemma AfterPosition(w: World, h: Address, prevLink: Address, node: Address) returns (k: int)
    requires Ok(w) && h in w.lists && prevLink in w.owner && w.owner[prevLink] == h
    ensures 0 <= k <= |w.lists[h].objs| && LinkAt(h, w.lists[h], k) == prevLink && prevLink in w.m.next
    ensures With(w.lists[h], k, node).objs ==
      if prevLink == h then [node] + w.lists[h].objs else PutAfter(w.lists[h].objs, prevLink - w.lists[h].off, node)
  {
    hide PutAfter;
    var r := w.lists[h];
    assert Placed(w, prevLink);
    k :| 0 <= k <= |r.objs| && LinkAt(h, r, k) == prevLink;
    RingShape(w.m, h, r);
    assert Linked(w.m, h, r, k);
    if k > 0 {
      LinksDiffer(h, r, 0, k);
      PutAfterAt(r.objs, k - 1, node);
    }
  }

  /** The fields of a link outside the list do not matter to `NextLink` inside. */
  lemma NextAmongOthers(w: World, w': World, h: Address, k: int, l: Address)
    requires Ok(w) && h in w.lists && 0 <= k <= |w.lists[h].objs| && l !in w.owner
    requires forall a :: a != l ==> Same(w.m, w'.m, a)
    ensures var a := LinkAt(h, w.lists[h], k);
      && a in w'.m.next && a in w'.m.prev && w'.m.prev[a] in w'.m.next
      && NextLink(w'.m, a) == LinkAt(h, w.lists[h], NextPos(w.lists[h], k))
  {
    hide RingOk, Shaped, NextLink, Same;
    var r := w.lists[h];
    assert Owns(w.owner, h, r);
    RingKept(w.m, w'.m, h, r);
    NextLinkIs(w'.m, h, r, k);
  }

  /* ------------------------------------ TList ------------------------------------ */

  class TList {
    const memory: LinkMemory
    const link: Address
    const offset: int

    ghost predicate Valid()
      reads memory
    {
      memory.Valid() && link in memory.lists && memory.lists[link].off == offset
    }

    /** The objects in the list. */
    ghost function Items(): seq<Address>
      requires Valid()
      reads memory
    {
      memory.lists[link].objs
    }

    /** An object whose link can be moved: the link exists and is not the head of a list. */
    ghost predicate Movable(node: Address)
      reads memory
    {
      node % 2 == 0 && node != 0 && node + offset in memory.owner && node + offset !in memory.lists
    }

    constructor (memory: LinkMemory, link: Address, offset: int)
      requires memory.Valid() && link !in memory.owner && link % 2 == 0 && offset % 2 == 0
      modifies memory
      ensures Valid() && Items() == [] && this.memory == memory && this.link == link
      ensures memory.lists == old(memory.lists)[link := Ring(offset, [])]
      ensures memory.owner == old(memory.owner)[link := link]
    {
      this.memory, this.link, this.offset := memory, link, offset;
      new;
      memory.NewList(link, offset);
    }

    method Empty() returns (e: bool)
      requires Valid()
      ensures e <==> Items() == []
    {
      hide Ok;
      var node := Head();
      ItemsNotNull(memory.View(), link);
      return node == 0;
    }

    method Head() returns (node: Address)
      requires Valid()
      ensures node == if Items() == [] then 0 else Items()[0]
    {
      Neighbours(memory.View(), link, 0);
      node := Next(memory, link);
    }

    method Tail() returns (node: Address)
      requires Valid()
      ensures node == if Items() == [] then 0 else Items()[|Items()| - 1]
    {
      Neighbours(memory.View(), link, 0);
      node := Prev(memory, link);
    }

    method NextOf(node: Address, ghost i: int) returns (n: Address)
      requires Valid() && 0 <= i < |Items()| && Items()[i] == node
      ensures n == if i + 1 < |Items()| then Items()[i + 1] else 0
    {
      Neighbours(memory.View(), link, i + 1);
      n := Next(memory, node + offset);
    }

    method PrevOf(node: Address, ghost i: int) returns (p: Address)
      requires Valid() && 0 <= i < |Items()| && Items()[i] == node
      ensures p == if i > 0 then Items()[i - 1] else 0
    {
      Neighbours(memory.View(), link, i + 1);
      p := Prev(memory, node + offset);
    }

    /** The object leaves the list it is in and comes just before another, or to the end. */
    method InsertBefore(node: Address, before: Address)
      requires Valid() && Movable(node) && before != node && (before == 0 || before in Items())
      modifies memory
      ensures Valid() && memory.owner == old(memory.owner)[node + offset := link]
      ensures var d := Detached(old(memory.lists), old(memory.owner), node + offset);
        memory.lists == d[link := Ring(offset, PutBefore(d[link].objs, before, node))]
    {
      hide Ok, LinkWorld.PutBefore;
      ghost var w := memory.View();
      HeadsOwned(w);
      StillNotNull(w, link, node + offset);
      if before != 0 {
        ItemOwned(w, link, before);
      } else {
        ghost var objs := Detached(w.lists, w.owner, node + offset)[link].objs;
        PutBeforeNone(objs, 0, node);
        PutBeforeNone(objs, link - offset, node);
      }
      memory.InsertBefore(node + offset, node, if before != 0 then before + offset else link, link);
    }

    method InsertAfter(node: Address, after: Address)
      requires Valid() && Movable(node) && after != node && (after == 0 || after in Items())
      modifies memory
      ensures Valid() && memory.owner == old(memory.owner)[node + offset := link]
      ensures var d := Detached(old(memory.lists), old(memory.owner), node + offset);
        memory.lists == d[link := Ring(offset,
          if after == 0 then [node] + d[link].objs else PutAfter(d[link].objs, after, node))]
    {
      hide Ok, LinkWorld.PutAfter;
      ghost var w := memory.View();
      HeadsOwned(w);
      StillNotNull(w, link, node + offset);
      if after != 0 {
        ItemOwned(w, link, after);
      }
      memory.InsertAfter(node + offset, node, if after != 0 then after + offset else link, link);
    }

    method InsertHead(node: Address)
      requires Valid() && Movable(node)
      modifies memory
      ensures Valid() && memory.owner == old(memory.owner)[node + offset := link]
      ensures var d := Detached(old(memory.lists), old(memory.owner), node + offset);
        memory.lists == d[link := Ring(offset, [node] + d[link].objs)]
    {
      InsertAfter(node, 0);
    }

    method InsertTail(node: Address)
      requires Valid() && Movable(node)
      modifies memory
      ensures Valid() && memory.owner == old(memory.owner)[node + offset := link]
      ensures var d := Detached(old(memory.lists), old(memory.owner), node + offset);
        memory.lists == d[link := Ring(offset, d[link].objs + [node])]
    {
      hide Ok, LinkWorld.PutBefore;
      StillNotNull(memory.View(), link, node + offset);
      PutBeforeNone(Detached(memory.lists, memory.owner, node + offset)[link].objs, 0, node);
      InsertBefore(node, 0);
    }

    /** Every link of the list ends up alone; no other list changes. */
    method UnlinkAll()
      requires Valid()
      modifies memory
      ensures Valid() && memory.lists == old(memory.lists)[link := Ring(offset, [])]
      ensures memory.owner.Keys == old(memory.owner).Keys
      ensures forall l :: l in old(memory.owner) ==>
        memory.owner[l] == if old(memory.owner)[l] == link && l != link then l else old(memory.owner)[l]
    {
      UnlinkRing(memory, link);
    }
  }

  /** The loop of `TList::UnlinkAll` and `THash::UnlinkAll`: unlink the last until only the head is left. */
  method UnlinkRing(memory: LinkMemory, head: Address)
    requires memory.Valid() && head in memory.lists
    modifies memory
    ensures memory.Valid() && memory.lists == old(memory.lists)[head := Ring(old(memory.lists)[head].off, [])]
    ensures memory.owner.Keys == old(memory.owner).Keys
    ensures forall l :: l in old(memory.owner) ==>
      memory.owner[l] == if old(memory.owner)[l] == head && l != head then l else old(memory.owner)[l]
  {
    hide Ok;
    ghost var r := memory.lists[head];
    ghost var n := |r.objs|;
    HeadsOwned(memory.View());
    assert r.objs[..n] == r.objs;
    while true
      invariant memory.Valid() && 0 <= n <= |r.objs|
      invariant memory.lists == old(memory.lists)[head := Ring(r.off, r.objs[..n])]
      invariant memory.owner.Keys == old(memory.owner).Keys && memory.owner[head] == head
      invariant forall l :: l in old(memory.owner) ==>
        memory.owner[l] == old(memory.owner)[l] || (memory.owner[l] == l && old(memory.owner)[l] == head)
      decreases n
    {
      LastLink(memory.View(), head);
      var l := memory.prev[head];
      if l == head { break; }
      memory.Unlink(l);
      n := n - 1;
      assert r.objs[..n + 1][..n] == r.objs[..n];
    }
    EmptyOwnsHead(memory.View(), head);
  }

  /** The link before the head is that of the last object. */
  lemma LastLink(w: World, h: Address)
    requires Ok(w) && h in w.lists
    ensures h in w.m.prev
    ensures var r, l := w.lists[h], w.m.prev[h];
      if r.objs == [] then l == h
      else
        var n := |r.objs| - 1;
        l != h && l in w.owner && w.owner[l] == h && l !in w.lists && l == r.objs[n] + r.off
        && Minus(r.objs, l - r.off) == r.objs[..n]
  {
    var r := w.lists[h];
    assert Linked(w.m, h, r, 0);
    if r.objs != [] {
      var n := |r.objs| - 1;
      ItemOwned(w, h, r.objs[n]);
      HeadsOwned(w);
      RingShape(w.m, h, r);
      MinusAt(r.objs, n);
    }
  }

  lemma EmptyOwnsHead(w: World, h: Address)
    requires Ok(w) && h in w.lists && w.lists[h].objs == []
    ensures forall l :: l in w.owner && w.owner[l] == h ==> l == h
  {
    hide RingOk;
    forall l | l in w.owner && w.owner[l] == h
      ensures l == h
    {
      assert Placed(w, l);
    }
  }
}
