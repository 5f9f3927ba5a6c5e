/**
 The bitwise tries of free chunks and the pointer surgery of `insert_large_chunk` and
 `unlink_large_chunk`, as functions on the link words.

 `Tree` is the trie a bin's root pointer denotes: a node holds one size and the ring of chunks
 of that size, whose first member is the one with a parent. `Rep` ties words to a `Tree`.
 */
module SizeTrie {
  import opened PowersOfTwo
  import opened FreeLinks

  datatype Tree = Leaf | Node(size: nat, ring: seq<int>, left: Tree, right: Tree)

  ghost function Members(s: seq<int>): set<int> {
    set a | a in s
  }

  ghost function Addrs(t: Tree): set<int> {
    match t
    case Leaf => {}
    case Node(_, ring, l, r) => Members(ring) + Addrs(l) + Addrs(r)
  }

  ghost function Sizes(t: Tree): set<nat> {
    match t
    case Leaf => {}
    case Node(s, _, l, r) => {s} + Sizes(l) + Sizes(r)
  }

  function Half(w: nat): nat
    requires w > 0
  {
    Pow2(w - 1)
  }

  /**
   The trie invariant, for a subtree that resolves the sizes from `lo` up to `lo + Pow2(w)`:
   the smaller half of the range is on the left, each node's size occurs once, and every member
   of a node's ring has that node's size according to `sz`.
   */
  ghost predicate WF(t: Tree, lo: nat, w: nat, sz: map<int, nat>)
    decreases t
  {
    t.Node? ==>
      && NodeWF(t, lo, w, sz)
      && (w > 0 ==> WF(t.left, lo, w - 1, sz) && WF(t.right, lo + Half(w), w - 1, sz))
  }

  ghost predicate NodeWF(t: Tree, lo: nat, w: nat, sz: map<int, nat>)
    requires t.Node?
  {
    && RingWF(t.ring, t.size, sz)
    && lo <= t.size < lo + Pow2(w)
    && t.size !in Sizes(t.left) && t.size !in Sizes(t.right)
    && (w == 0 ==> t.left.Leaf? && t.right.Leaf?)
  }

  ghost predicate RingWF(ring: seq<int>, s: nat, sz: map<int, nat>) {
    && |ring| > 0 && NoDup(ring)
    && (forall a :: a in ring ==> a > 0 && a in sz && sz[a] == s)
  }

  /** The chained members of a ring: no parent, no children, and the bin's index. */
  ghost predicate Chained(l: Links, ring: seq<int>, idx: int) {
    forall i :: 0 < i < |ring| ==>
      && Get(l.parent, ring[i]) == 0
      && Get(l.child0, ring[i]) == 0
      && Get(l.child1, ring[i]) == 0
      && Get(l.index, ring[i]) == idx
  }

  /** Pointer `p` with parent `par` denotes the tree `t` of bin `idx`. */
  ghost predicate Rep(l: Links, p: int, t: Tree, par: int, idx: int)
    decreases t
  {
    match t
    case Leaf => p == 0
    case Node(_, ring, lt, rt) =>
      && |ring| > 0 && ring[0] == p && p != 0
      && IsRing(l.fd, l.bk, ring)
      && Chained(l, ring, idx)
      && Get(l.parent, p) == par
      && Get(l.index, p) == idx
      && Rep(l, Get(l.child0, p), lt, p, idx)
      && Rep(l, Get(l.child1, p), rt, p, idx)
  }

  /* --------------------------------- basic facts --------------------------------- */

  lemma {:induction false} WFRange(t: Tree, lo: nat, w: nat, sz: map<int, nat>)
    requires WF(t, lo, w, sz)
    ensures forall s :: s in Sizes(t) ==> lo <= s < lo + Pow2(w)
    ensures forall a :: a in Addrs(t) ==> a > 0 && a in sz && sz[a] in Sizes(t)
    decreases t
  {
    if t.Node? && w > 0 {
      WFRange(t.left, lo, w - 1, sz);
      WFRange(t.right, lo + Half(w), w - 1, sz);
    }
  }

  /** A node's ring and its two subtrees have no member in common. */
  ghost predicate Disjoint(t: Tree)
    requires t.Node?
  {
    && (forall a :: a in t.ring ==> a !in Addrs(t.left) && a !in Addrs(t.right))
    && Addrs(t.left) !! Addrs(t.right)
    && NoDup(t.ring)
  }

  /** No chunk is in two places. */
  lemma WFDisjoint(t: Tree, lo: nat, w: nat, sz: map<int, nat>)
    requires t.Node? && WF(t, lo, w, sz)
    ensures Disjoint(t)
    ensures Sizes(t.left) !! Sizes(t.right)
  {
    if w > 0 {
      WFRange(t.left, lo, w - 1, sz);
      WFRange(t.right, lo + Half(w), w - 1, sz);
      assert Sizes(t.left) !! Sizes(t.right);
      forall a | a in Addrs(t.left)
        ensures a !in Addrs(t.right)
      {
        assert sz[a] !in Sizes(t.right);
      }
    }
  }

  lemma {:induction false} WFFrame(t: Tree, lo: nat, w: nat, sz: map<int, nat>, sz': map<int, nat>)
    requires WF(t, lo, w, sz)
    requires forall a :: a in Addrs(t) && a in sz ==> a in sz' && sz'[a] == sz[a]
    ensures WF(t, lo, w, sz')
    decreases t
  {
    if t.Node? && w > 0 {
      WFFrame(t.left, lo, w - 1, sz, sz');
      WFFrame(t.right, lo + Half(w), w - 1, sz, sz');
    }
  }

  lemma RingFrame(l: Links, m: Links, s: seq<int>)
    requires IsRing(l.fd, l.bk, s)
    requires forall a :: a in s ==> Get(l.fd, a) == Get(m.fd, a) && Get(l.bk, a) == Get(m.bk, a)
    ensures IsRing(m.fd, m.bk, s)
  {
    forall i {:trigger s[i]} | 0 <= i < |s| - 1
      ensures Linked(m.fd, m.bk, s[i], s[i + 1])
    {
      assert s[i] in s && s[i + 1] in s && Linked(l.fd, l.bk, s[i], s[i + 1]);
    }
    if |s| > 0 {
      assert s[|s| - 1] in s && s[0] in s;
    }
  }

  lemma ChainedFrame(l: Links, m: Links, s: seq<int>, idx: int)
    requires Chained(l, s, idx)
    requires forall a :: a in s ==> Same(l, m, a)
    ensures Chained(m, s, idx)
  {
    forall i | 0 < i < |s|
      ensures Same(l, m, s[i])
    {
      assert s[i] in s;
    }
  }

  lemma SameOnNode(l: Links, m: Links, t: Tree)
    requires t.Node? && forall a :: a in Addrs(t) ==> Same(l, m, a)
    ensures forall a :: a in t.ring ==> Same(l, m, a)
    ensures forall a :: a in Addrs(t.left) ==> Same(l, m, a)
    ensures forall a :: a in Addrs(t.right) ==> Same(l, m, a)
  {
    forall a | a in t.ring
      ensures Same(l, m, a)
    {
      assert a in Addrs(t);
    }
  }

  lemma {:induction false} RepFrame(l: Links, m: Links, p: int, t: Tree, par: int, idx: int)
    requires Rep(l, p, t, par, idx)
    requires forall a :: a in Addrs(t) ==> Same(l, m, a)
    ensures Rep(m, p, t, par, idx)
    decreases t
  {
    if t.Node? {
      SameOnNode(l, m, t);
      assert p in t.ring;
      RingFrame(l, m, t.ring);
      ChainedFrame(l, m, t.ring, idx);
      RepFrame(l, m, Get(l.child0, p), t.left, p, idx);
      RepFrame(l, m, Get(l.child1, p), t.right, p, idx);
    }
  }

  lemma RepRoot(l: Links, p: int, t: Tree, par: int, idx: int)
    requires Rep(l, p, t, par, idx)
    ensures t.Node? ==> p in Addrs(t)
    ensures t.Leaf? <==> p == 0
  {
  }

  /* ---------------------------------- insertion ---------------------------------- */

  ghost function InsertTree(t: Tree, lo: nat, w: nat, s: nat, x: int): Tree
    decreases t
  {
    if t.Leaf? then Node(s, [x], Leaf, Leaf)
    else if t.size == s && |t.ring| > 0 then t.(ring := [t.ring[0], x] + t.ring[1..])
    else if w == 0 then t
    else if s >= lo + Half(w) then t.(right := InsertTree(t.right, lo + Half(w), w - 1, s, x))
    else t.(left := InsertTree(t.left, lo, w - 1, s, x))
  }

  lemma MembersInsert(s: seq<int>, x: int)
    requires |s| > 0
    ensures Members([s[0], x] + s[1..]) == Members(s) + {x}
  {
    assert s == [s[0]] + s[1..];
  }

  lemma {:induction false} InsertTreeMembers(t: Tree, lo: nat, w: nat, sz: map<int, nat>, s: nat, x: int)
    requires WF(t, lo, w, sz) && lo <= s < lo + Pow2(w)
    ensures Addrs(InsertTree(t, lo, w, s, x)) == Addrs(t) + {x}
    ensures Sizes(InsertTree(t, lo, w, s, x)) == Sizes(t) + {s}
    decreases t
  {
    hide WF, Half, Pow2;
    if t.Leaf? {
      assert Members([x]) == {x};
    } else {
      InsertWay(t, lo, w, sz, s, x);
      if t.size == s {
        MembersInsert(t.ring, x);
      } else if s >= lo + Half(w) {
        InsertTreeMembers(t.right, lo + Half(w), w - 1, sz, s, x);
      } else {
        InsertTreeMembers(t.left, lo, w - 1, sz, s, x);
      }
    }
  }

  /** Where the insertion goes on from a node. */
  lemma InsertWay(t: Tree, lo: nat, w: nat, sz: map<int, nat>, s: nat, x: int)
    requires t.Node? && WF(t, lo, w, sz) && lo <= s < lo + Pow2(w)
    ensures |t.ring| > 0 && (t.size != s ==> w > 0)
    ensures t.size != s ==>
      && WF(t.left, lo, w - 1, sz) && WF(t.right, lo + Half(w), w - 1, sz)
      && if s >= lo + Half(w) then s < lo + Half(w) + Pow2(w - 1) else s < lo + Pow2(w - 1)
  {
    if w > 0 {
      assert Pow2(w) == 2 * Pow2(w - 1);
    }
  }

  lemma {:induction false} InsertTreeWF(t: Tree, lo: nat, w: nat, sz: map<int, nat>, s: nat, x: int)
    requires WF(t, lo, w, sz) && lo <= s < lo + Pow2(w) && x > 0 && x !in sz
    ensures WF(InsertTree(t, lo, w, s, x), lo, w, sz[x := s])
    decreases t
  {
    if t.Leaf? {
      assert NodeWF(Node(s, [x], Leaf, Leaf), lo, w, sz[x := s]);
    } else {
      InsertWFChildren(t, lo, w, sz, s, x);
      if t.size == s {
        InsertRingWF(t.ring, s, sz, x);
      } else if s >= lo + Half(w) {
        InsertTreeWF(t.right, lo + Half(w), w - 1, sz, s, x);
        InsertNodeWF(t, lo, w, sz, s, x);
      } else {
        InsertTreeWF(t.left, lo, w - 1, sz, s, x);
        InsertNodeWF(t, lo, w, sz, s, x);
      }
    }
  }

  lemma InsertNodeWF(t: Tree, lo: nat, w: nat, sz: map<int, nat>, s: nat, x: int)
    requires t.Node? && t.size != s && w > 0
    requires WF(t, lo, w, sz) && lo <= s < lo + Pow2(w) && RingWF(t.ring, t.size, sz[x := s])
    ensures NodeWF(InsertTree(t, lo, w, s, x), lo, w, sz[x := s])
  {
    if s >= lo + Half(w) {
      InsertTreeMembers(t.right, lo + Half(w), w - 1, sz, s, x);
    } else {
      InsertTreeMembers(t.left, lo, w - 1, sz, s, x);
    }
  }

  lemma InsertRingWF(ring: seq<int>, s: nat, sz: map<int, nat>, x: int)
    requires RingWF(ring, s, sz) && x > 0 && x !in sz
    ensures RingWF([ring[0], x] + ring[1..], s, sz[x := s])
  {
    assert ring == [ring[0]] + ring[1..];
    assert forall i :: 0 <= i < |ring| ==> ring[i] in ring;
  }

  /** The chunk being inserted is new, so nothing that is already there changes size. */
  lemma InsertWFChildren(t: Tree, lo: nat, w: nat, sz: map<int, nat>, s: nat, x: int)
    requires t.Node? && WF(t, lo, w, sz) && x !in sz
    ensures w > 0 ==> WF(t.left, lo, w - 1, sz[x := s]) && WF(t.right, lo + Half(w), w - 1, sz[x := s])
    ensures RingWF(t.ring, t.size, sz[x := s])
  {
    if w > 0 {
      WFRange(t.left, lo, w - 1, sz);
      WFRange(t.right, lo + Half(w), w - 1, sz);
      WFFrame(t.left, lo, w - 1, sz, sz[x := s]);
      WFFrame(t.right, lo + Half(w), w - 1, sz, sz[x := s]);
    }
  }

  /**
   The words after the descent of `insert_large_chunk` from the non-null node `p`: the chunk is
   chained behind a node of its size, or becomes a child where the path ends.
   */
  ghost function InsertLinks(l: Links, p: int, t: Tree, lo: nat, w: nat, s: nat, x: int): Links
    requires t.Node?
    decreases t
  {
    if t.size == s then
      var m := RingInsert(l, p, x);
      m.(parent := m.parent[x := 0])
    else if w == 0 then l
    else
      var right := s >= lo + Half(w);
      var c := if right then t.right else t.left;
      if c.Leaf? then Hang(l, p, right, x)
      else InsertLinks(l, Child(l, p, right), c, if right then lo + Half(w) else lo, w - 1, s, x)
  }

  /** `*C = X; X->parent = T; X->fd = X->bk = X`. */
  function Hang(l: Links, p: int, right: bool, x: int): Links {
    var m := SetChild(l, p, right, x);
    m.(parent := m.parent[x := p], fd := m.fd[x := x], bk := m.bk[x := x])
  }

  /** The initialisation `X->index = I; X->child[0] = X->child[1] = 0`. */
  function Prepare(l: Links, x: int, idx: int): Links {
    l.(index := l.index[x := idx], child0 := l.child0[x := 0], child1 := l.child1[x := 0])
  }

  ghost predicate Prepared(l: Links, x: int, idx: int) {
    Get(l.index, x) == idx && Get(l.child0, x) == 0 && Get(l.child1, x) == 0
  }

  /** One step of the descent. */
  lemma InsertUnfold(l: Links, p: int, t: Tree, lo: nat, w: nat, s: nat, x: int, right: bool)
    requires t.Node? && w > 0 && t.size != s && (right <==> s >= lo + Half(w))
    ensures var c := if right then t.right else t.left;
      InsertLinks(l, p, t, lo, w, s, x) ==
      if c.Leaf? then Hang(l, p, right, x)
      else InsertLinks(l, Child(l, p, right), c, if right then lo + Half(w) else lo, w - 1, s, x)
  {
    hide Hang, Child;
  }

  lemma InsertEnds(l: Links, p: int, t: Tree, lo: nat, w: nat, s: nat, x: int)
    requires t.Node? && (t.size == s || w == 0)
    ensures var m := RingInsert(l, p, x);
      InsertLinks(l, p, t, lo, w, s, x) == if t.size == s then m.(parent := m.parent[x := 0]) else l
  {
  }

  /** Nothing outside the trie changes. */
  lemma {:induction false} InsertLinksFrame(
    l: Links, p: int, t: Tree, par: int, idx: int, lo: nat, w: nat, s: nat, x: int, a: int)
    requires t.Node? && Rep(l, p, t, par, idx) && a !in Addrs(t) && a != x
    ensures Same(l, InsertLinks(l, p, t, lo, w, s, x), a)
    decreases t
  {
    hide InsertLinks, Half, Hang, Same;
    assert p in t.ring;
    if t.size == s || w == 0 {
      InsertEnds(l, p, t, lo, w, s, x);
      RingInsertFrame(l, p, t.ring, x, a);
    } else {
      var right := s >= lo + Half(w);
      var c := if right then t.right else t.left;
      InsertUnfold(l, p, t, lo, w, s, x, right);
      if c.Leaf? {
        HangOthers(l, p, right, x, a);
      } else {
        InsertLinksFrame(l, Child(l, p, right), c, p, idx,
          if right then lo + Half(w) else lo, w - 1, s, x, a);
      }
    }
  }

  lemma RingInsertFrame(l: Links, p: int, ring: seq<int>, x: int, a: int)
    requires |ring| > 0 && ring[0] == p && IsRing(l.fd, l.bk, ring) && a !in ring && a != x
    ensures var m := RingInsert(l, p, x);
      Same(l, m.(parent := m.parent[x := 0]), a) && Same(l, l, a)
  {
    RingNeighbours(l.fd, l.bk, ring, 0);
    assert Get(l.fd, p) in ring && p in ring;
  }

  lemma HangOthers(l: Links, p: int, right: bool, x: int, a: int)
    requires a != p && a != x
    ensures Same(l, Hang(l, p, right, x), a)
  {
  }

  /** On the links, the insertion loop yields the trie with the chunk in it. */
  lemma {:induction false} InsertRep(
    l: Links, p: int, t: Tree, par: int, idx: int, lo: nat, w: nat, sz: map<int, nat>, s: nat, x: int)
    requires t.Node? && Rep(l, p, t, par, idx) && WF(t, lo, w, sz)
    requires lo <= s < lo + Pow2(w) && x > 0 && x !in Addrs(t) && Prepared(l, x, idx)
    ensures Rep(InsertLinks(l, p, t, lo, w, s, x), p, InsertTree(t, lo, w, s, x), par, idx)
    decreases t
  {
    hide RingWF, Disjoint, Chained, Same, IsRing;
    WFDisjoint(t, lo, w, sz);
    if t.size == s {
      InsertRepRing(l, p, t, par, idx, x);
    } else {
      var right := s >= lo + Half(w);
      var c := if right then t.right else t.left;
      if c.Leaf? {
        InsertRepHang(l, p, t, par, idx, right, s, x);
      } else {
        var lo' := if right then lo + Half(w) else lo;
        InsertRep(l, Child(l, p, right), c, p, idx, lo', w - 1, sz, s, x);
        var m := InsertLinks(l, p, t, lo, w, s, x);
        forall a | a !in Addrs(c) && a != x
          ensures Same(l, m, a)
        {
          InsertLinksFrame(l, Child(l, p, right), c, p, idx, lo', w - 1, s, x, a);
        }
        InsertRepStep(l, m, p, t, par, idx, right, InsertTree(c, lo', w - 1, s, x), x);
      }
    }
  }

  lemma InsertRepRing(l: Links, p: int, t: Tree, par: int, idx: int, x: int)
    requires t.Node? && Rep(l, p, t, par, idx) && Disjoint(t)
    requires x > 0 && x !in Addrs(t) && Prepared(l, x, idx)
    ensures var m := RingInsert(l, p, x);
      Rep(m.(parent := m.parent[x := 0]), p, t.(ring := [p, x] + t.ring[1..]), par, idx)
  {
    hide Addrs, IsRing, NoDup, Disjoint, Chained, RingInsert, Get;
    var m' := RingInserted(l, p, x);
    RingApart(t, x);
    RingInsertOk(l, t.ring, x);
    RingInsertSame(l, t, p, x);
    RepFrame(l, m', Get(l.child0, p), t.left, p, idx);
    RepFrame(l, m', Get(l.child1, p), t.right, p, idx);
    RingInsertChained(l, p, t.ring, x, idx);
  }

  function RingInserted(l: Links, p: int, x: int): Links {
    var m := RingInsert(l, p, x);
    m.(parent := m.parent[x := 0])
  }

  lemma RingApart(t: Tree, x: int)
    requires t.Node? && |t.ring| > 0 && Disjoint(t) && x !in Addrs(t)
    ensures x !in t.ring && NoDup(t.ring) && x !in Addrs(t.left) && x !in Addrs(t.right)
  {
  }

  /** The ring insertion touches no link of the subtrees, and no parent, child or index but of `x`. */
  lemma RingInsertSame(l: Links, t: Tree, p: int, x: int)
    requires t.Node? && |t.ring| > 0 && t.ring[0] == p && IsRing(l.fd, l.bk, t.ring) && Disjoint(t) && x !in Addrs(t)
    ensures forall a :: a in Addrs(t.left) || a in Addrs(t.right) ==> Same(l, RingInserted(l, p, x), a)
    ensures Get(RingInserted(l, p, x).parent, p) == Get(l.parent, p)
    ensures RingInserted(l, p, x).index == l.index
    ensures RingInserted(l, p, x).child0 == l.child0 && RingInserted(l, p, x).child1 == l.child1
  {
    hide IsRing, NoDup, Addrs, Same, RingInserted;
    RingApart(t, x);
    RingNeighbours(l.fd, l.bk, t.ring, 0);
    assert p in t.ring && Get(l.fd, p) in t.ring;
    forall a | a in Addrs(t.left) || a in Addrs(t.right)
      ensures Same(l, RingInserted(l, p, x), a)
    {
      RingInsertSameAt(l, p, x, a);
    }
    RingInsertKeeps(l, p, x);
  }

  lemma RingInsertSameAt(l: Links, p: int, x: int, a: int)
    requires a != p && a != x && a != Get(l.fd, p)
    ensures Same(l, RingInserted(l, p, x), a)
  {
  }

  lemma RingInsertKeeps(l: Links, p: int, x: int)
    ensures var m := RingInserted(l, p, x);
      && m.index == l.index && m.child0 == l.child0 && m.child1 == l.child1
      && (p != x ==> Get(m.parent, p) == Get(l.parent, p))
  {
  }

  lemma RingInsertChained(l: Links, p: int, ring: seq<int>, x: int, idx: int)
    requires |ring| > 0 && Chained(l, ring, idx) && Prepared(l, x, idx)
    ensures Chained(RingInserted(l, p, x), [p, x] + ring[1..], idx)
  {
    var m', u := RingInserted(l, p, x), [p, x] + ring[1..];
    forall i | 0 < i < |u|
      ensures Get(m'.parent, u[i]) == 0 && Get(m'.child0, u[i]) == 0
        && Get(m'.child1, u[i]) == 0 && Get(m'.index, u[i]) == idx
    {
      if i > 1 {
        assert u[i] == ring[i - 1];
      }
    }
  }

  lemma InsertRepHang(l: Links, p: int, t: Tree, par: int, idx: int, right: bool, s: nat, x: int)
    requires t.Node? && Rep(l, p, t, par, idx) && Disjoint(t)
    requires x > 0 && x !in Addrs(t) && Prepared(l, x, idx)
    requires (if right then t.right else t.left).Leaf?
    ensures var n := Node(s, [x], Leaf, Leaf);
      Rep(Hang(l, p, right, x), p, if right then t.(right := n) else t.(left := n), par, idx)
  {
    var m := Hang(l, p, right, x);
    assert p in t.ring && p in Addrs(t) && x !in t.ring;
    HangFrame(l, p, right, x);
    RingFrame(l, m, t.ring);
    ChainedTail(l, m, t.ring, idx);
    if right {
      RepFrame(l, m, Get(l.child0, p), t.left, p, idx);
    } else {
      RepFrame(l, m, Get(l.child1, p), t.right, p, idx);
    }
    SingletonRep(m, x, s, p, idx);
  }

  lemma HangFrame(l: Links, p: int, right: bool, x: int)
    requires p != x
    ensures var m := Hang(l, p, right, x);
      && (forall a :: a != p && a != x ==> Same(l, m, a))
      && Get(l.fd, p) == Get(m.fd, p) && Get(l.bk, p) == Get(m.bk, p)
      && Get(l.parent, p) == Get(m.parent, p) && Get(l.index, p) == Get(m.index, p)
      && Child(m, p, right) == x && Child(m, p, !right) == Child(l, p, !right)
      && Get(m.fd, x) == x && Get(m.bk, x) == x && Get(m.parent, x) == p
      && Get(m.child0, x) == Get(l.child0, x) && Get(m.child1, x) == Get(l.child1, x)
      && Get(m.index, x) == Get(l.index, x)
  {
  }

  lemma SingletonRep(m: Links, x: int, s: nat, par: int, idx: int)
    requires x != 0 && Prepared(m, x, idx) && Get(m.fd, x) == x && Get(m.bk, x) == x && Get(m.parent, x) == par
    ensures Rep(m, x, Node(s, [x], Leaf, Leaf), par, idx)
  {
    assert IsRing(m.fd, m.bk, [x]);
  }

  /** The words of the chained members decide `Chained`; the head's do not matter. */
  lemma ChainedTail(l: Links, m: Links, s: seq<int>, idx: int)
    requires Chained(l, s, idx) && NoDup(s) && |s| > 0
    requires forall a :: a in s && a != s[0] ==> Same(l, m, a)
    ensures Chained(m, s, idx)
  {
    forall i | 0 < i < |s|
      ensures Same(l, m, s[i])
    {
      assert s[0] != s[i] && s[i] in s;
    }
  }

  lemma InsertRepStep(l: Links, m: Links, p: int, t: Tree, par: int, idx: int, right: bool, c': Tree, x: int)
    requires t.Node? && Rep(l, p, t, par, idx) && Disjoint(t) && x !in Addrs(t)
    requires forall a :: a !in Addrs(if right then t.right else t.left) && a != x ==> Same(l, m, a)
    requires Rep(m, Child(l, p, right), c', p, idx)
    ensures Rep(m, p, if right then t.(right := c') else t.(left := c'), par, idx)
  {
    assert p in t.ring;
    assert forall a :: a in t.ring ==> a in Addrs(t);
    assert forall a :: a in t.ring ==> Same(l, m, a);
    RingFrame(l, m, t.ring);
    ChainedFrame(l, m, t.ring, idx);
    if right {
      RepFrame(l, m, Get(l.child0, p), t.left, p, idx);
    } else {
      RepFrame(l, m, Get(l.child1, p), t.right, p, idx);
    }
  }
}
