/**
 Rings of intrusive links. A link holds the address of the next object, not of the next link, and
 the address of the previous link; the last link holds the head's address with the low bit set.
 */
module LinkRings {
  type Address = int

  /** `m_nextNode` and `m_prevLink` of every link, by the address of the link. */
  datatype Links = Links(next: map<Address, int>, prev: map<Address, Address>)

  /** A list: where the link is inside the objects, and the objects in order. */
  datatype Ring = Ring(off: int, objs: seq<Address>)

  /** `x & 1` and `x & ~1`. */
  function LowBit(x: int): int { x % 2 }

  function Untagged(x: int): int { x - x % 2 }

  /** Where the link at position `i` of a ring is; position 0 is the head. */
  function LinkAt(head: Address, r: Ring, i: int): Address
    requires 0 <= i <= |r.objs|
  {
    if i == 0 then head else r.objs[i - 1] + r.off
  }

  /** What the link at position `i` holds as next object. */
  function NextAt(head: Address, r: Ring, i: int): int
    requires 0 <= i <= |r.objs|
  {
    if i < |r.objs| then r.objs[i] else head + 1 - r.off
  }

  function PrevPos(r: Ring, i: int): int { if i == 0 then |r.objs| else i - 1 }

  function NextPos(r: Ring, i: int): int { if i == |r.objs| then 0 else i + 1 }

  /** Addresses are even, objects are not null, and no link is in the ring twice. */
  ghost predicate Shaped(head: Address, r: Ring) {
    && head % 2 == 0 && r.off % 2 == 0
    && (forall i :: 0 <= i < |r.objs| ==> r.objs[i] % 2 == 0 && r.objs[i] != 0 && r.objs[i] + r.off != head)
    && (forall i, j :: 0 <= i < j < |r.objs| ==> r.objs[i] != r.objs[j])
  }

  ghost predicate Linked(m: Links, head: Address, r: Ring, i: int)
    requires 0 <= i <= |r.objs|
  {
    var l := LinkAt(head, r, i);
    l in m.next && l in m.prev && m.next[l] == NextAt(head, r, i) && m.prev[l] == LinkAt(head, r, PrevPos(r, i))
  }

  ghost predicate RingOk(m: Links, head: Address, r: Ring) {
    Shaped(head, r) && forall i :: 0 <= i <= |r.objs| ==> Linked(m, head, r, i)
  }

  /** A link in no list, as the constructor and `Unlink` leave it. */
  ghost predicate Alone(m: Links, l: Address) {
    l % 2 == 0 && l in m.next && l in m.prev && m.next[l] == l + 1 && m.prev[l] == l
  }

  lemma LinksDiffer(head: Address, r: Ring, i: int, j: int)
    requires Shaped(head, r) && 0 <= i <= |r.objs| && 0 <= j <= |r.objs| && i != j
    ensures LinkAt(head, r, i) != LinkAt(head, r, j)
  {
  }

  /** `NextLink`: the offset is what the previous link's next object lies below this link. */
  function NextLink(m: Links, l: Address): Address
    requires l in m.next && l in m.prev && m.prev[l] in m.next
  {
    var offset := l - Untagged(m.next[m.prev[l]]);
    Untagged(m.next[l]) + offset
  }

  lemma NextLinkIs(m: Links, head: Address, r: Ring, i: int)
    requires RingOk(m, head, r) && 0 <= i <= |r.objs|
    ensures var l := LinkAt(head, r, i);
      && l in m.next && l in m.prev && m.prev[l] in m.next
      && NextLink(m, l) == LinkAt(head, r, NextPos(r, i))
  {
    assert Linked(m, head, r, i);
    assert Linked(m, head, r, PrevPos(r, i));
  }

  lemma NextLinkAlone(m: Links, l: Address)
    requires Alone(m, l)
    ensures NextLink(m, l) == l
  {
  }

  /** Nothing outside a ring matters to it. */
  lemma RingKept(m: Links, m': Links, head: Address, r: Ring)
    requires RingOk(m, head, r)
    requires forall i :: 0 <= i <= |r.objs| ==> Same(m, m', LinkAt(head, r, i))
    ensures RingOk(m', head, r)
  {
    forall i | 0 <= i <= |r.objs|
      ensures Linked(m', head, r, i)
    {
      assert Linked(m, head, r, i) && Same(m, m', LinkAt(head, r, i));
    }
  }

  ghost predicate Same(m: Links, m': Links, l: Address) {
    && (l in m.next <==> l in m'.next) && (l in m.next && l in m'.next ==> m.next[l] == m'.next[l])
    && (l in m.prev <==> l in m'.prev) && (l in m.prev && l in m'.prev ==> m.prev[l] == m'.prev[l])
  }

  /* ------------------------------------ removal ------------------------------------ */

  function Without(r: Ring, k: int): Ring
    requires 0 <= k < |r.objs|
  {
    r.(objs := r.objs[..k] + r.objs[k + 1..])
  }

  /** `RemoveFromList`. */
  function Bypassed(m: Links, l: Address): Links
    requires l in m.next && l in m.prev && m.prev[l] in m.next
  {
    Links(m.next[m.prev[l] := m.next[l]], m.prev[NextLink(m, l) := m.prev[l]])
  }

  /** Removing object `k` leaves the ring of the others, and touches its two neighbours only. */
  lemma RemoveOk(m: Links, head: Address, r: Ring, k: int)
    requires RingOk(m, head, r) && 0 <= k < |r.objs|
    ensures var l := LinkAt(head, r, k + 1);
      && l in m.next && l in m.prev && m.prev[l] in m.next
      && m.prev[l] == LinkAt(head, r, k) && NextLink(m, l) == LinkAt(head, r, NextPos(r, k + 1))
      && RingOk(Bypassed(m, l), head, Without(r, k))
  {
    hide Shaped, Same;
    var l := LinkAt(head, r, k + 1);
    assert Linked(m, head, r, k + 1);
    assert Linked(m, head, r, k);
    NextLinkIs(m, head, r, k + 1);
    var r', m' := Without(r, k), Bypassed(m, l);
    WithoutShaped(head, r, k);
    forall i | 0 <= i <= |r'.objs|
      ensures Linked(m', head, r', i)
    {
      StillLinked(m, head, r, k, i);
    }
  }

  lemma StillLinked(m: Links, head: Address, r: Ring, k: int, i: int)
    requires RingOk(m, head, r) && 0 <= k < |r.objs| && 0 <= i < |r.objs|
    requires var l := LinkAt(head, r, k + 1);
      && l in m.next && l in m.prev && m.prev[l] == LinkAt(head, r, k) && m.prev[l] in m.next
      && m.next[l] == NextAt(head, r, k + 1) && NextLink(m, l) == LinkAt(head, r, NextPos(r, k + 1))
    ensures Linked(Bypassed(m, LinkAt(head, r, k + 1)), head, Without(r, k), i)
  {
    hide Shaped, NextLink;
    var j := if i <= k then i else i + 1;
    assert Linked(m, head, r, j);
    if j != k { LinksDiffer(head, r, j, k); }
    if j != NextPos(r, k + 1) { LinksDiffer(head, r, j, NextPos(r, k + 1)); }
  }

  lemma WithoutShaped(head: Address, r: Ring, k: int)
    requires Shaped(head, r) && 0 <= k < |r.objs|
    ensures Shaped(head, Without(r, k))
  {
  }

  /* ----------------------------------- insertion ----------------------------------- */

  function With(r: Ring, k: int, node: Address): Ring
    requires 0 <= k <= |r.objs|
  {
    r.(objs := r.objs[..k] + [node] + r.objs[k..])
  }

  /** `l` between the links `before` and `after`, for the object `node`. */
  function Between(m: Links, l: Address, node: Address, before: Address, after: Address): Links
    requires before in m.next
  {
    Links(m.next[l := m.next[before]][before := node], m.prev[l := before][after := l])
  }

  /** Inserting an object at index `k` makes the ring with it. */
  lemma InsertOk(m: Links, head: Address, r: Ring, k: int, node: Address)
    requires RingOk(m, head, r) && 0 <= k <= |r.objs|
    requires node % 2 == 0 && node != 0 && forall i :: 0 <= i <= |r.objs| ==> LinkAt(head, r, i) != node + r.off
    ensures LinkAt(head, r, k) in m.next
    ensures RingOk(
      Between(m, node + r.off, node, LinkAt(head, r, k), LinkAt(head, r, NextPos(r, k))), head, With(r, k, node))
  {
    hide Shaped, Same;
    assert Linked(m, head, r, k);
    assert Linked(m, head, r, NextPos(r, k));
    var r' := With(r, k, node);
    var m' := Between(m, node + r.off, node, LinkAt(head, r, k), LinkAt(head, r, NextPos(r, k)));
    WithShaped(head, r, k, node);
    forall i | 0 <= i <= |r'.objs|
      ensures Linked(m', head, r', i)
    {
      if i == k + 1 {
        NewLinked(m, head, r, k, node);
      } else {
        OldLinked(m, head, r, k, node, i);
      }
    }
  }

  lemma NewLinked(m: Links, head: Address, r: Ring, k: int, node: Address)
    requires 0 <= k <= |r.objs| && Linked(m, head, r, k) && Linked(m, head, r, NextPos(r, k))
    requires forall i :: 0 <= i <= |r.objs| ==> LinkAt(head, r, i) != node + r.off
    ensures Linked(
      Between(m, node + r.off, node, LinkAt(head, r, k), LinkAt(head, r, NextPos(r, k))), head, With(r, k, node), k + 1)
  {
  }

  lemma OldLinked(m: Links, head: Address, r: Ring, k: int, node: Address, i: int)
    requires RingOk(m, head, r) && 0 <= k <= |r.objs| && 0 <= i <= |r.objs| + 1 && i != k + 1
    requires Linked(m, head, r, k)
    requires forall i :: 0 <= i <= |r.objs| ==> LinkAt(head, r, i) != node + r.off
    ensures Linked(
      Between(m, node + r.off, node, LinkAt(head, r, k), LinkAt(head, r, NextPos(r, k))), head, With(r, k, node), i)
  {
    hide Shaped;
    var j := if i <= k then i else i - 1;
    assert Linked(m, head, r, j);
    if j != k { LinksDiffer(head, r, j, k); }
    if j != NextPos(r, k) { LinksDiffer(head, r, j, NextPos(r, k)); }
  }

  lemma WithShaped(head: Address, r: Ring, k: int, node: Address)
    requires Shaped(head, r) && 0 <= k <= |r.objs|
    requires node % 2 == 0 && node != 0 && forall i :: 0 <= i <= |r.objs| ==> LinkAt(head, r, i) != node + r.off
    ensures Shaped(head, With(r, k, node))
  {
    assert LinkAt(head, r, 0) != node + r.off;
    forall i | 0 <= i < |r.objs|
      ensures r.objs[i] != node
    {
      assert LinkAt(head, r, i + 1) != node + r.off;
    }
  }

  /** An object inserted before itself is never found in a ring again: its link's previous link is itself. */
  lemma BeforeItselfBreaks(m: Links, head: Address, r: Ring, k: int, r': Ring, k': int)
    requires RingOk(m, head, r) && 0 <= k < |r.objs|
    requires r'.off == r.off && 0 <= k' < |r'.objs| && r'.objs[k'] == r.objs[k]
    ensures var l := LinkAt(head, r, k + 1);
      && l in m.next && l in m.prev && m.prev[l] in m.next
      && var b := Bypassed(m, l);
        l in b.prev && b.prev[l] in b.next && !RingOk(Between(b, l, r.objs[k], b.prev[l], l), head, r')
  {
    var l := LinkAt(head, r, k + 1);
    RemoveOk(m, head, r, k);
    LinksDiffer(head, r, k + 1, NextPos(r, k + 1));
    var b := Bypassed(m, l);
    var m' := Between(b, l, r.objs[k], b.prev[l], l);
    if RingOk(m', head, r') {
      assert Linked(m', head, r', k' + 1);
      LinksDiffer(head, r', k' + 1, k');
    }
  }

  /** The same goes for an object inserted after itself; it is its own next object, too. */
  lemma AfterItselfBreaks(m: Links, head: Address, r: Ring, k: int, r': Ring, k': int)
    requires RingOk(m, head, r) && 0 <= k < |r.objs|
    requires r'.off == r.off && 0 <= k' < |r'.objs| && r'.objs[k'] == r.objs[k]
    ensures var l, node := LinkAt(head, r, k + 1), r.objs[k];
      && l in m.next && l in m.prev && m.prev[l] in m.next
      && var b := Bypassed(m, l);
        var b' := b.(prev := b.prev[l := l]);
        && l in b.next && NextLink(b', l) == l
        && var m' := Between(b', l, node, l, NextLink(b', l));
          m'.prev[l] == l && m'.next[l] == node && !RingOk(m', head, r')
  {
    var l := LinkAt(head, r, k + 1);
    RemoveOk(m, head, r, k);
    LinksDiffer(head, r, k + 1, NextPos(r, k + 1));
    var b := Bypassed(m, l);
    var m' := Between(b.(prev := b.prev[l := l]), l, r.objs[k], l, l);
    if RingOk(m', head, r') {
      assert Linked(m', head, r', k' + 1);
      LinksDiffer(head, r', k' + 1, k');
    }
  }
}
