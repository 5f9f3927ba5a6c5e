/**
 Removal from a bitwise trie: `unlink_large_chunk` and what it does to the tree it works on.
 A chained chunk leaves its ring; a head is succeeded by the member before it; the last chunk of
 its size is replaced by the rightmost leaf below it.
 */
module TrieRemove {
  import opened PowersOfTwo
  import opened FreeLinks
  import opened SizeTrie

  /** Takes the rightmost leaf out of a non-empty subtree: what remains, and the leaf. */
  ghost function TakeLeaf(t: Tree): (r: (Tree, Tree))
    requires t.Node?
    ensures r.1.Node? && r.1.left.Leaf? && r.1.right.Leaf?
    decreases t
  {
    if t.right.Node? then
      var (rest, leaf) := TakeLeaf(t.right);
      (t.(right := rest), leaf)
    else if t.left.Node? then
      var (rest, leaf) := TakeLeaf(t.left);
      (t.(left := rest), leaf)
    else (Leaf, t)
  }

  /** The pointer to that leaf, and the child slot (node and side) that holds it. */
  ghost function RightLeaf(l: Links, c: int, t: Tree, p: int, right: bool): (int, int, bool)
    requires t.Node?
    decreases t
  {
    if t.right.Node? then RightLeaf(l, Get(l.child1, c), t.right, c, true)
    else if t.left.Node? then RightLeaf(l, Get(l.child0, c), t.left, c, false)
    else (c, p, right)
  }

  ghost function RemoveNode(t: Tree, x: int): Tree
    requires t.Node? && |t.ring| > 0
  {
    if |t.ring| > 1 then t.(ring := RingWithout(t.ring, x))
    else if t.right.Node? then
      var (rest, leaf) := TakeLeaf(t.right);
      Node(leaf.size, leaf.ring, t.left, rest)
    else if t.left.Node? then
      var (rest, leaf) := TakeLeaf(t.left);
      Node(leaf.size, leaf.ring, rest, Leaf)
    else Leaf
  }

  /** A removed head is succeeded by the member before it. */
  ghost function RingWithout(ring: seq<int>, x: int): seq<int>
    requires |ring| > 1
  {
    if ring[0] == x then [ring[|ring| - 1]] + ring[1..|ring| - 1]
    else if x in ring then
      var k := IndexOf(ring, x);
      ring[..k] + ring[k + 1..]
    else ring
  }

  ghost function IndexOf(s: seq<int>, x: int): (k: nat)
    requires x in s
    ensures k < |s| && s[k] == x
  {
    var k :| 0 <= k < |s| && s[k] == x;
    k
  }

  ghost function RemoveTree(t: Tree, lo: nat, w: nat, s: nat, x: int): Tree
    decreases t
  {
    if t.Leaf? || |t.ring| == 0 then t
    else if t.size == s then RemoveNode(t, x)
    else if w == 0 then t
    else if s >= lo + Half(w) then t.(right := RemoveTree(t.right, lo + Half(w), w - 1, s, x))
    else t.(left := RemoveTree(t.left, lo, w - 1, s, x))
  }

  lemma {:induction false} TakeLeafWF(t: Tree, lo: nat, w: nat, sz: map<int, nat>)
    requires t.Node? && WF(t, lo, w, sz)
    ensures var (rest, leaf) := TakeLeaf(t);
      && WF(rest, lo, w, sz)
      && RingWF(leaf.ring, leaf.size, sz)
      && lo <= leaf.size < lo + Pow2(w)
      && leaf.size in Sizes(t) && leaf.size !in Sizes(rest)
      && Sizes(t) == Sizes(rest) + {leaf.size}
      && Addrs(t) == Addrs(rest) + Members(leaf.ring)
    decreases t
  {
    if t.right.Node? {
      TakeLeafWF(t.right, lo + Half(w), w - 1, sz);
      WFDisjoint(t, lo, w, sz);
      TakeLeafStep(t, true);
    } else if t.left.Node? {
      TakeLeafWF(t.left, lo, w - 1, sz);
      WFDisjoint(t, lo, w, sz);
      TakeLeafStep(t, false);
    }
  }

  lemma TakeLeafStep(t: Tree, right: bool)
    requires t.Node? && (if right then t.right.Node? else t.right.Leaf? && t.left.Node?)
    requires var c := if right then t.right else t.left;
      var (rest, leaf) := TakeLeaf(c);
      && Sizes(c) == Sizes(rest) + {leaf.size}
      && Addrs(c) == Addrs(rest) + Members(leaf.ring)
    ensures var (rest, leaf) := TakeLeaf(t);
      && Sizes(t) == Sizes(rest) + {leaf.size}
      && Addrs(t) == Addrs(rest) + Members(leaf.ring)
  {
    var c := if right then t.right else t.left;
    var (rest, leaf) := TakeLeaf(c);
    assert TakeLeaf(t) == (if right then t.(right := rest) else t.(left := rest), leaf);
  }

  lemma RingWithoutMembers(ring: seq<int>, x: int)
    requires |ring| > 1 && NoDup(ring) && x in ring
    ensures Members(RingWithout(ring, x)) == Members(ring) - {x}
    ensures NoDup(RingWithout(ring, x)) && |RingWithout(ring, x)| == |ring| - 1
    ensures ring[0] != x ==> RingWithout(ring, x)[0] == ring[0]
  {
    var u := RingWithout(ring, x);
    var n := |ring| - 1;
    if ring[0] == x {
      assert ring == [x] + ring[1..n] + [ring[n]];
    } else {
      var k := IndexOf(ring, x);
      assert ring == ring[..k] + [x] + ring[k + 1..];
    }
  }

  lemma RemoveNodeOk(t: Tree, lo: nat, w: nat, sz: map<int, nat>, x: int)
    requires t.Node? && WF(t, lo, w, sz) && x in t.ring
    ensures WF(RemoveNode(t, x), lo, w, sz)
    ensures Addrs(RemoveNode(t, x)) == Addrs(t) - {x}
    ensures Sizes(RemoveNode(t, x)) <= Sizes(t)
  {
    WFDisjoint(t, lo, w, sz);
    if |t.ring| > 1 {
      RingWithoutMembers(t.ring, x);
      assert forall a :: a in RingWithout(t.ring, x) ==> a in Members(RingWithout(t.ring, x));
    } else {
      assert t.ring == [x];
      if t.right.Node? {
        PromoteRight(t, lo, w, sz, x);
      } else if t.left.Node? {
        PromoteLeft(t, lo, w, sz, x);
      }
    }
  }

  lemma PromoteRight(t: Tree, lo: nat, w: nat, sz: map<int, nat>, x: int)
    requires t.Node? && t.right.Node? && WF(t, lo, w, sz) && t.ring == [x] && x !in Addrs(t.left)
    requires x !in Addrs(t.right)
    ensures WF(RemoveNode(t, x), lo, w, sz)
    ensures Addrs(RemoveNode(t, x)) == Addrs(t) - {x}
    ensures Sizes(RemoveNode(t, x)) <= Sizes(t)
  {
    TakeLeafWF(t.right, lo + Half(w), w - 1, sz);
    WFDisjoint(t, lo, w, sz);
    assert Members([x]) == {x};
    assert NodeWF(RemoveNode(t, x), lo, w, sz);
  }

  lemma PromoteLeft(t: Tree, lo: nat, w: nat, sz: map<int, nat>, x: int)
    requires t.Node? && t.right.Leaf? && t.left.Node? && WF(t, lo, w, sz) && t.ring == [x] && x !in Addrs(t.left)
    ensures WF(RemoveNode(t, x), lo, w, sz)
    ensures Addrs(RemoveNode(t, x)) == Addrs(t) - {x}
    ensures Sizes(RemoveNode(t, x)) <= Sizes(t)
  {
    TakeLeafWF(t.left, lo, w - 1, sz);
    assert Members([x]) == {x};
    assert NodeWF(RemoveNode(t, x), lo, w, sz);
  }

  lemma {:induction false} RemoveTreeOk(t: Tree, lo: nat, w: nat, sz: map<int, nat>, x: int)
    requires WF(t, lo, w, sz) && x in Addrs(t) && x in sz
    ensures WF(RemoveTree(t, lo, w, sz[x], x), lo, w, sz)
    ensures Addrs(RemoveTree(t, lo, w, sz[x], x)) == Addrs(t) - {x}
    ensures Sizes(RemoveTree(t, lo, w, sz[x], x)) <= Sizes(t)
    decreases t
  {
    hide WF, Half, Pow2, RemoveTree, Sizes, Addrs, Disjoint, RemoveNode;
    LeafHasNone(t, x);
    WFDisjoint(t, lo, w, sz);
    Locate(t, lo, w, sz, x);
    RemoveTreeIs(t, lo, w, sz, x);
    if x in t.ring {
      RemoveNodeOk(t, lo, w, sz, x);
    } else if sz[x] >= lo + Half(w) {
      RemoveTreeOk(t.right, lo + Half(w), w - 1, sz, x);
      OtherSubtree(t, lo, w, sz, x, t.(right := RemoveTree(t.right, lo + Half(w), w - 1, sz[x], x)));
    } else {
      RemoveTreeOk(t.left, lo, w - 1, sz, x);
      OtherSubtree(t, lo, w, sz, x, t.(left := RemoveTree(t.left, lo, w - 1, sz[x], x)));
    }
  }

  lemma LeafHasNone(t: Tree, x: int)
    requires x in Addrs(t)
    ensures t.Node?
  {
  }

  lemma RemoveTreeIs(t: Tree, lo: nat, w: nat, sz: map<int, nat>, x: int)
    requires t.Node? && WF(t, lo, w, sz) && x in sz && (x in t.ring <==> sz[x] == t.size)
    ensures w > 0 ==> WF(t.left, lo, w - 1, sz) && WF(t.right, lo + Half(w), w - 1, sz)
    ensures RemoveTree(t, lo, w, sz[x], x) ==
      if x in t.ring then RemoveNode(t, x)
      else if w == 0 then t
      else if sz[x] >= lo + Half(w) then t.(right := RemoveTree(t.right, lo + Half(w), w - 1, sz[x], x))
      else t.(left := RemoveTree(t.left, lo, w - 1, sz[x], x))
  {
    hide RemoveNode, Half, Sizes;
  }

  /** A node one of whose subtrees has lost a chunk. */
  lemma OtherSubtree(t: Tree, lo: nat, w: nat, sz: map<int, nat>, x: int, t': Tree)
    requires t.Node? && WF(t, lo, w, sz) && w > 0 && Disjoint(t) && x !in t.ring
    requires t'.Node? && t'.size == t.size && t'.ring == t.ring
    requires WF(t'.left, lo, w - 1, sz) && WF(t'.right, lo + Half(w), w - 1, sz)
    requires Sizes(t'.left) <= Sizes(t.left) && Sizes(t'.right) <= Sizes(t.right)
    requires || (t'.left == t.left && Addrs(t'.right) == Addrs(t.right) - {x} && x in Addrs(t.right))
      || (t'.right == t.right && Addrs(t'.left) == Addrs(t.left) - {x} && x in Addrs(t.left))
    ensures WF(t', lo, w, sz) && Addrs(t') == Addrs(t) - {x} && Sizes(t') <= Sizes(t)
  {
  }

  /** The size of a chunk says where in the tree it is. */
  lemma Locate(t: Tree, lo: nat, w: nat, sz: map<int, nat>, x: int)
    requires t.Node? && WF(t, lo, w, sz) && x in Addrs(t)
    ensures x in sz && lo <= sz[x] < lo + Pow2(w)
    ensures x in t.ring <==> sz[x] == t.size
    ensures x !in t.ring && w > 0 && sz[x] >= lo + Half(w) ==> x in Addrs(t.right)
    ensures x !in t.ring && w > 0 && sz[x] < lo + Half(w) ==> x in Addrs(t.left)
    ensures x !in t.ring ==> w > 0
  {
    if w > 0 {
      WFRange(t.left, lo, w - 1, sz);
      WFRange(t.right, lo + Half(w), w - 1, sz);
    }
  }

  /* ------------------------------ the pointer surgery ------------------------------ */

  /** The first half of `unlink_large_chunk`: the words after it, and the replacement `R`. */
  ghost function SpliceOut(l: Links, x: int, t: Tree): (Links, int)
    requires t.Node?
  {
    if Get(l.bk, x) != x then (RingRemove(l, x), Get(l.bk, x))
    else if t.right.Node? then
      var (r, p, d) := RightLeaf(l, Get(l.child1, x), t.right, x, true);
      (SetChild(l, p, d, 0), r)
    else if t.left.Node? then
      var (r, p, d) := RightLeaf(l, Get(l.child0, x), t.left, x, false);
      (SetChild(l, p, d, 0), r)
    else (l, 0)
  }

  /** The second half: `R` takes over the place of the base node `x` below `xp`. */
  function Relink(l: Links, x: int, r: int, xp: int, atRoot: bool): Links {
    var m := TakeSlot(l, x, r, xp, atRoot);
    if r == 0 then m
    else Adopt(Adopt(SetParent(m, r, xp), x, r, false), x, r, true)
  }

  /** The slot below `xp` that held `x` gets `r`; a bin's root slot is not a link word. */
  function TakeSlot(l: Links, x: int, r: int, xp: int, atRoot: bool): Links {
    if atRoot then l else SetChild(l, xp, Get(l.child0, xp) != x, r)
  }

  function SetParent(l: Links, r: int, xp: int): Links {
    l.(parent := l.parent[r := xp])
  }

  /** `if ((C = X->child[i]) != 0) { R->child[i] = C; C->parent = R; }`. */
  function Adopt(l: Links, x: int, r: int, right: bool): Links {
    var c := Child(l, x, right);
    if c == 0 then l
    else
      var m := SetChild(l, r, right, c);
      m.(parent := m.parent[c := r])
  }

  ghost function UnlinkLinks(l: Links, x: int, t: Tree, atRoot: bool): (Links, int)
    requires t.Node?
  {
    var (m, r) := SpliceOut(l, x, t);
    if Get(l.parent, x) == 0 then (m, r) else (Relink(m, x, r, Get(l.parent, x), atRoot), r)
  }

  /** Giving a subtree another parent changes one word of its root. */
  lemma Reparent(l: Links, m: Links, c: int, t: Tree, par: int, par': int, idx: int)
    requires Rep(l, c, t, par, idx) && (t.Node? ==> Disjoint(t))
    requires forall a :: a in Addrs(t) && a != c ==> Same(l, m, a)
    requires t.Node? ==>
      && Get(m.parent, c) == par'
      && Get(l.fd, c) == Get(m.fd, c) && Get(l.bk, c) == Get(m.bk, c)
      && Get(l.child0, c) == Get(m.child0, c) && Get(l.child1, c) == Get(m.child1, c)
      && Get(l.index, c) == Get(m.index, c)
    ensures Rep(m, c, t, par', idx)
  {
    if t.Node? {
      assert c in t.ring;
      assert forall a :: a in t.ring ==> a in Addrs(t);
      RingFrame(l, m, t.ring);
      ChainedTail(l, m, t.ring, idx);
      RepFrame(l, m, Get(l.child0, c), t.left, c, idx);
      RepFrame(l, m, Get(l.child1, c), t.right, c, idx);
    }
  }

  lemma AdoptWords(l: Links, x: int, r: int, right: bool)
    requires Child(l, r, right) == 0
    ensures var m := Adopt(l, x, r, right);
      && m.fd == l.fd && m.bk == l.bk && m.index == l.index
      && (if right then m.child0 == l.child0 else m.child1 == l.child1)
      && (!right ==> forall a :: Get(m.child0, a) == if a == r then Get(l.child0, x) else Get(l.child0, a))
      && (right ==> forall a :: Get(m.child1, a) == if a == r then Get(l.child1, x) else Get(l.child1, a))
      && (forall a ::
            Get(m.parent, a) == if a != 0 && a == Child(l, x, right) then r else Get(l.parent, a))
  {
  }

  lemma TakeSlotWords(l: Links, x: int, r: int, xp: int, atRoot: bool)
    ensures var m := SetParent(TakeSlot(l, x, r, xp, atRoot), r, xp);
      var left := Get(l.child0, xp) == x;
      && m.fd == l.fd && m.bk == l.bk && m.index == l.index
      && (forall a :: Get(m.child0, a) == if !atRoot && left && a == xp then r else Get(l.child0, a))
      && (forall a :: Get(m.child1, a) == if !atRoot && !left && a == xp then r else Get(l.child1, a))
      && (forall a :: Get(m.parent, a) == if a == r then xp else Get(l.parent, a))
  {
    if !atRoot && Get(l.child0, xp) == x {
    }
  }

  /** What `Relink` writes, word by word. */
  ghost predicate Relinked(l: Links, m: Links, x: int, r: int, xp: int, atRoot: bool) {
    var c0, c1 := Get(l.child0, x), Get(l.child1, x);
    var left := Get(l.child0, xp) == x;
    && m.fd == l.fd && m.bk == l.bk && m.index == l.index
    && (forall a ::
          Get(m.child0, a) == if a == r then c0 else if !atRoot && left && a == xp then r else Get(l.child0, a))
    && (forall a ::
          Get(m.child1, a) == if a == r then c1 else if !atRoot && !left && a == xp then r else Get(l.child1, a))
    && (forall a ::
          Get(m.parent, a) ==
          if a != 0 && (a == c0 || a == c1) then r else if a == r then xp else Get(l.parent, a))
  }

  lemma RelinkWords(l: Links, x: int, r: int, xp: int, atRoot: bool)
    requires r != 0 && x != r && xp != x && xp != r
    requires Get(l.child0, r) == 0 && Get(l.child1, r) == 0
    ensures Relinked(l, Relink(l, x, r, xp, atRoot), x, r, xp, atRoot)
  {
    hide TakeSlot, SetParent, Adopt, Relink, Get;
    var m2 := SetParent(TakeSlot(l, x, r, xp, atRoot), r, xp);
    var m3 := Adopt(m2, x, r, false);
    var m4 := Adopt(m3, x, r, true);
    RelinkIs(l, x, r, xp, atRoot);
    TakeSlotWords(l, x, r, xp, atRoot);
    AdoptWords(m2, x, r, false);
    AdoptWords(m3, x, r, true);
  }

  lemma RelinkIs(l: Links, x: int, r: int, xp: int, atRoot: bool)
    requires r != 0
    ensures Relink(l, x, r, xp, atRoot) ==
      Adopt(Adopt(SetParent(TakeSlot(l, x, r, xp, atRoot), r, xp), x, r, false), x, r, true)
  {
  }

  lemma TakeOverSide(l: Links, m: Links, x: int, r: int, xp: int, atRoot: bool, right: bool, t: Tree, idx: int)
    requires Relinked(l, m, x, r, xp, atRoot)
    requires Rep(l, Child(l, x, right), t, x, idx) && (t.Node? ==> Disjoint(t))
    requires r !in Addrs(t) && xp !in Addrs(t) && 0 !in Addrs(t)
    requires Child(l, x, !right) !in Addrs(t)
    ensures Rep(m, Child(l, x, right), t, r, idx)
  {
    RepRoot(l, Child(l, x, right), t, x, idx);
    Reparent(l, m, Child(l, x, right), t, x, r, idx);
  }

  lemma TakeOverRing(l: Links, m: Links, x: int, r: int, xp: int, atRoot: bool, n: Tree, idx: int)
    requires n.Node? && |n.ring| > 0 && n.ring[0] == r && NoDup(n.ring)
    requires xp !in n.ring && Get(l.child0, x) !in n.ring && Get(l.child1, x) !in n.ring
    requires IsRing(l.fd, l.bk, n.ring) && Chained(l, n.ring, idx)
    requires Relinked(l, m, x, r, xp, atRoot)
    ensures IsRing(m.fd, m.bk, n.ring) && Chained(m, n.ring, idx)
  {
    RingFrame(l, m, n.ring);
    ChainedTail(l, m, n.ring, idx);
  }

  /** `r`, already linked into the ring of `n`, takes over the two subtrees hanging below `x`. */
  lemma TakeOver(l: Links, m: Links, x: int, r: int, xp: int, atRoot: bool, n: Tree, idx: int)
    requires n.Node? && |n.ring| > 0 && n.ring[0] == r && Disjoint(n)
    requires r != 0 && xp !in Addrs(n)
    requires x !in Addrs(n) && 0 !in Addrs(n)
    requires IsRing(l.fd, l.bk, n.ring) && Chained(l, n.ring, idx) && Get(l.index, r) == idx
    requires Rep(l, Get(l.child0, x), n.left, x, idx) && Rep(l, Get(l.child1, x), n.right, x, idx)
    requires (n.left.Node? ==> Disjoint(n.left)) && (n.right.Node? ==> Disjoint(n.right))
    requires Relinked(l, m, x, r, xp, atRoot)
    ensures Rep(m, r, n, xp, idx)
  {
    hide Disjoint, Chained, IsRing, NoDup;
    NodeApart(n);
    var c0, c1 := Get(l.child0, x), Get(l.child1, x);
    assert r in n.ring && r in Addrs(n);
    RepRoot(l, c0, n.left, x, idx);
    RepRoot(l, c1, n.right, x, idx);
    TakeOverSide(l, m, x, r, xp, atRoot, false, n.left, idx);
    TakeOverSide(l, m, x, r, xp, atRoot, true, n.right, idx);
    assert c0 !in n.ring && c1 !in n.ring by {
      assert forall a :: a in n.ring ==> a in Addrs(n);
    }
    TakeOverRing(l, m, x, r, xp, atRoot, n, idx);
    assert Get(m.child0, r) == c0 && Get(m.child1, r) == c1 && Get(m.parent, r) == xp && Get(m.index, r) == idx;
  }

  lemma NodeApart(n: Tree)
    requires n.Node? && Disjoint(n)
    ensures NoDup(n.ring)
    ensures forall a :: a in n.ring ==> a in Addrs(n) && a !in Addrs(n.left) && a !in Addrs(n.right)
    ensures Addrs(n.left) !! Addrs(n.right) && Addrs(n.left) <= Addrs(n) && Addrs(n.right) <= Addrs(n)
  {
  }

  /* --------------------------------- the leaf below --------------------------------- */

  /** The words below a node after one of its child slots was cleared or changed further down. */
  lemma NodeAfter(l: Links, m: Links, p: int, t: Tree, par: int, idx: int, right: bool, c': Tree)
    requires t.Node? && Rep(l, p, t, par, idx) && Disjoint(t)
    requires forall a :: a in t.ring && a != p ==> Same(l, m, a)
    requires Get(l.fd, p) == Get(m.fd, p) && Get(l.bk, p) == Get(m.bk, p)
    requires Get(l.parent, p) == Get(m.parent, p) && Get(l.index, p) == Get(m.index, p)
    requires Child(m, p, !right) == Child(l, p, !right)
    requires forall a :: a in Addrs(if right then t.left else t.right) ==> Same(l, m, a)
    requires Rep(m, Child(m, p, right), c', p, idx)
    ensures Rep(m, p, if right then t.(right := c') else t.(left := c'), par, idx)
  {
    RingFrame(l, m, t.ring);
    ChainedTail(l, m, t.ring, idx);
    if right {
      RepFrame(l, m, Get(l.child0, p), t.left, p, idx);
    } else {
      RepFrame(l, m, Get(l.child1, p), t.right, p, idx);
    }
  }

  /** `RightLeaf` points at what `TakeLeaf` takes, and clearing its slot leaves the rest. */
  ghost predicate LeafTaken(l: Links, c: int, t: Tree, p: int, right: bool, idx: int)
    requires t.Node?
  {
    var (r, q, d) := RightLeaf(l, c, t, p, right);
    var (rest, leaf) := TakeLeaf(t);
    && Rep(l, r, leaf, q, idx)
    && (rest.Leaf? ==> r == c && q == p && d == right)
    && (rest.Node? ==> q in Addrs(rest) && q !in leaf.ring && Rep(SetChild(l, q, d, 0), c, rest, p, idx))
  }

  /** `Disjoint` at every node: all that the pointer surgery needs of the trie invariant. */
  ghost predicate AllDisjoint(t: Tree) {
    t.Node? ==> Disjoint(t) && AllDisjoint(t.left) && AllDisjoint(t.right)
  }

  lemma {:induction false} WFAllDisjoint(t: Tree, lo: nat, w: nat, sz: map<int, nat>)
    requires WF(t, lo, w, sz)
    ensures AllDisjoint(t)
    decreases t
  {
    hide Disjoint, Half, Sizes, RingWF;
    if t.Node? {
      WFDisjoint(t, lo, w, sz);
      if w > 0 {
        WFAllDisjoint(t.left, lo, w - 1, sz);
        WFAllDisjoint(t.right, lo + Half(w), w - 1, sz);
      }
    }
  }

  lemma {:induction false} TakeLeafAddrs(t: Tree)
    requires t.Node?
    ensures Addrs(t) == Addrs(TakeLeaf(t).0) + Members(TakeLeaf(t).1.ring)
  {
    if t.right.Node? {
      TakeLeafAddrs(t.right);
    } else if t.left.Node? {
      TakeLeafAddrs(t.left);
    }
  }

  lemma {:induction false} TakeLeafRep(l: Links, c: int, t: Tree, p: int, right: bool, idx: int)
    requires t.Node? && Rep(l, c, t, p, idx) && AllDisjoint(t) && p !in Addrs(t)
    ensures LeafTaken(l, c, t, p, right, idx)
    decreases t
  {
    assert c in t.ring;
    if t.right.Node? {
      TakeLeafRep(l, Get(l.child1, c), t.right, c, true, idx);
      TakeLeafAbove(l, c, t, p, right, idx, true);
    } else if t.left.Node? {
      TakeLeafRep(l, Get(l.child0, c), t.left, c, false, idx);
      TakeLeafAbove(l, c, t, p, right, idx, false);
    } else {
      TakeLeafBase(l, c, t, p, right, idx);
    }
  }

  lemma TakeLeafBase(l: Links, c: int, t: Tree, p: int, right: bool, idx: int)
    requires t.Node? && t.left.Leaf? && t.right.Leaf? && Rep(l, c, t, p, idx)
    ensures LeafTaken(l, c, t, p, right, idx)
  {
  }

  lemma TakeLeafAbove(l: Links, c: int, t: Tree, p: int, right: bool, idx: int, side: bool)
    requires t.Node? && Rep(l, c, t, p, idx) && Disjoint(t)
    requires side <==> t.right.Node?
    requires var s := if side then t.right else t.left;
      s.Node? && LeafTaken(l, Child(l, c, side), s, c, side, idx)
    ensures LeafTaken(l, c, t, p, right, idx)
  {
    hide Same, SetChild, IsRing, Chained, NoDup;
    var s := if side then t.right else t.left;
    var (r, q, d) := RightLeaf(l, Child(l, c, side), s, c, side);
    var (rest, leaf) := TakeLeaf(s);
    var m := SetChild(l, q, d, 0);
    TakeLeafAddrs(s);
    assert c in t.ring;
    assert q in t.ring ==> q == c;
    SetChildKeeps(l, q, d, 0);
    NodeAfter(l, m, c, t, p, idx, side, rest);
    assert c !in leaf.ring by {
      assert forall a :: a in leaf.ring ==> a in Addrs(s);
    }
  }

  /** A child pointer is one word. */
  lemma SetChildKeeps(l: Links, q: int, d: bool, v: int)
    ensures var m := SetChild(l, q, d, v);
      && m.fd == l.fd && m.bk == l.bk && m.parent == l.parent && m.index == l.index
      && (forall a :: a != q ==> Same(l, m, a)) && Child(m, q, !d) == Child(l, q, !d) && Child(m, q, d) == v
      && (forall a :: a != q ==> Child(m, a, false) == Child(l, a, false) && Child(m, a, true) == Child(l, a, true))
  {
  }

  /* ------------------------------ unlinking at its node ------------------------------ */

  /** The words of the node above: only the slot that held `x` may change, to `r`. */
  ghost predicate SlotAfter(l: Links, m: Links, par: int, x: int, r: int, changed: bool) {
    var left := Get(l.child0, par) == x;
    && Get(l.fd, par) == Get(m.fd, par) && Get(l.bk, par) == Get(m.bk, par)
    && Get(l.parent, par) == Get(m.parent, par) && Get(l.index, par) == Get(m.index, par)
    && Get(m.child0, par) == (if changed && left then r else Get(l.child0, par))
    && Get(m.child1, par) == (if changed && !left then r else Get(l.child1, par))
  }

  /** `m` is `l` with `x` unlinked below `par`: the subtree is `t'`, nothing outside `addrs` moved. */
  ghost predicate Unlinked(
    l: Links, m: Links, p: int, r: int, t': Tree, x: int, par: int, idx: int, atRoot: bool, addrs: set<int>)
  {
    && Rep(m, if x == p then r else p, t', par, idx)
    && (forall a :: a !in addrs && a != par ==> Same(l, m, a))
    && SlotAfter(l, m, par, x, r, x == p && !atRoot)
  }

  lemma UnlinkChained(l: Links, p: int, t: Tree, par: int, idx: int, x: int, atRoot: bool)
    requires t.Node? && Rep(l, p, t, par, idx) && Disjoint(t)
    requires |t.ring| > 1 && x in t.ring && x != p && par !in Addrs(t)
    ensures var (m, r) := UnlinkLinks(l, x, t, atRoot);
      Unlinked(l, m, p, r, RemoveNode(t, x), x, par, idx, atRoot, Addrs(t))
  {
    hide RingRemove, IsRing, Chained, Disjoint, RingWithout, NoDup, Same, Addrs;
    RingIsApart(t, par);
    ChainedRing(l, p, t.ring, x, idx);
    var m := RingRemove(l, x);
    assert UnlinkLinks(l, x, t, atRoot) == (m, Get(l.bk, x));
    RingWithoutMembers(t.ring, x);
    RingRemoveFrame(l, t.ring, x);
    SubtreesKept(l, m, p, t, par, idx);
    assert Rep(m, p, RemoveNode(t, x), par, idx);
    SlotUntouched(l, m, par, x, Get(l.bk, x), p);
  }

  lemma RingIsApart(t: Tree, par: int)
    requires t.Node? && Disjoint(t) && par !in Addrs(t)
    ensures NoDup(t.ring) && par !in t.ring && forall a :: a in t.ring ==> a in Addrs(t)
  {
  }

  lemma SlotUntouched(l: Links, m: Links, par: int, x: int, r: int, p: int)
    requires Same(l, m, par) && x != p
    ensures SlotAfter(l, m, par, x, r, false)
  {
  }

  lemma RingRemoveFrame(l: Links, ring: seq<int>, x: int)
    requires Get(l.fd, x) in ring && Get(l.bk, x) in ring
    ensures var m := RingRemove(l, x);
      && m.parent == l.parent && m.child0 == l.child0 && m.child1 == l.child1 && m.index == l.index
      && forall a :: a !in ring ==> Same(l, m, a)
  {
  }

  /** Changing links of the ring alone leaves the subtrees below it. */
  lemma SubtreesKept(l: Links, m: Links, p: int, t: Tree, par: int, idx: int)
    requires t.Node? && Rep(l, p, t, par, idx) && Disjoint(t)
    requires forall a :: a !in t.ring ==> Same(l, m, a)
    requires m.child0 == l.child0 && m.child1 == l.child1
    ensures Rep(m, Get(m.child0, p), t.left, p, idx)
    ensures Rep(m, Get(m.child1, p), t.right, p, idx)
  {
    RepFrame(l, m, Get(l.child0, p), t.left, p, idx);
    RepFrame(l, m, Get(l.child1, p), t.right, p, idx);
  }

  /** Unlinking a chained member keeps the ring and its head. */
  lemma ChainedRing(l: Links, p: int, ring: seq<int>, x: int, idx: int)
    requires |ring| > 1 && ring[0] == p && NoDup(ring) && IsRing(l.fd, l.bk, ring) && Chained(l, ring, idx)
    requires x in ring && x != p
    ensures Get(l.bk, x) != x && Get(l.parent, x) == 0 && Get(l.bk, x) in ring && Get(l.fd, x) in ring
    ensures var m, u := RingRemove(l, x), RingWithout(ring, x);
      IsRing(m.fd, m.bk, u) && Chained(m, u, idx)
  {
    hide IsRing, RingRemove, RingWithout, Chained;
    var k := IndexOf(ring, x);
    RingNeighbours(l.fd, l.bk, ring, k);
    RingRemoveOk(l, ring, k);
    WithoutAt(ring, x, k);
    RemoveKeepsTree(l, x);
    ChainedPart(l, RingRemove(l, x), ring, RingWithout(ring, x), k, idx);
  }

  lemma WithoutAt(ring: seq<int>, x: int, k: nat)
    requires |ring| > 1 && NoDup(ring) && 0 < k < |ring| && ring[k] == x
    ensures RingWithout(ring, x) == ring[..k] + ring[k + 1..]
  {
  }

  lemma ChainedPart(l: Links, m: Links, ring: seq<int>, u: seq<int>, k: nat, idx: int)
    requires Chained(l, ring, idx) && 0 < k < |ring| && u == ring[..k] + ring[k + 1..]
    requires l.parent == m.parent && l.child0 == m.child0 && l.child1 == m.child1 && l.index == m.index
    ensures Chained(m, u, idx) && Get(l.parent, ring[k]) == 0
  {
    assert forall i :: 0 < i < |u| ==> u[i] == ring[if i < k then i else i + 1];
  }

  /** The ring a removed head leaves behind, led by the member before it. */
  lemma HeadRing(l: Links, p: int, ring: seq<int>, idx: int)
    requires |ring| > 1 && ring[0] == p && NoDup(ring) && IsRing(l.fd, l.bk, ring) && Chained(l, ring, idx)
    ensures Get(l.bk, p) == ring[|ring| - 1] && Get(l.fd, p) in ring
    ensures var m, u := RingRemove(l, p), RingWithout(ring, p);
      && IsRing(m.fd, m.bk, u) && Chained(m, u, idx) && u[0] == Get(l.bk, p)
      && Get(m.index, u[0]) == idx && Get(m.child0, u[0]) == 0 && Get(m.child1, u[0]) == 0
  {
    hide IsRing, NoDup, RingRemove, RingWithout, Chained;
    RingNeighbours(l.fd, l.bk, ring, 0);
    HeadRingLinks(l, p, ring);
    HeadGone(ring);
    RemoveKeepsTree(l, p);
    ChainedFront(l, RingRemove(l, p), ring, RingWithout(ring, p), idx);
  }

  lemma HeadGone(ring: seq<int>)
    requires |ring| > 1
    ensures var u := RingWithout(ring, ring[0]);
      |u| == |ring| - 1 && u[0] == ring[|ring| - 1] && forall i :: 0 < i < |u| ==> u[i] == ring[i]
  {
  }

  lemma RemoveKeepsTree(l: Links, x: int)
    ensures var m := RingRemove(l, x);
      l.parent == m.parent && l.child0 == m.child0 && l.child1 == m.child1 && l.index == m.index
  {
  }

  lemma ChainedFront(l: Links, m: Links, ring: seq<int>, u: seq<int>, idx: int)
    requires |ring| > 1 && Chained(l, ring, idx)
    requires l.parent == m.parent && l.child0 == m.child0 && l.child1 == m.child1 && l.index == m.index
    requires |u| == |ring| - 1 && u[0] == ring[|ring| - 1] && forall i :: 0 < i < |u| ==> u[i] == ring[i]
    ensures Chained(m, u, idx) && Get(m.index, u[0]) == idx && Get(m.child0, u[0]) == 0 && Get(m.child1, u[0]) == 0
  {
  }

  lemma HeadRingLinks(l: Links, p: int, ring: seq<int>)
    requires |ring| > 1 && ring[0] == p && NoDup(ring) && IsRing(l.fd, l.bk, ring)
    ensures var m := RingRemove(l, p); IsRing(m.fd, m.bk, RingWithout(ring, p))
  {
    hide RingRemove, IsRing, NoDup;
    var m, v := RingRemove(l, p), ring[1..];
    RingRemoveOk(l, ring, 0);
    FirstGone(ring);
    RingRotate(m.fd, m.bk, v);
  }

  lemma FirstGone(ring: seq<int>)
    requires |ring| > 1
    ensures ring[..0] + ring[1..] == ring[1..]
    ensures RingWithout(ring, ring[0]) == [ring[1..][|ring| - 2]] + ring[1..][..|ring| - 2]
  {
  }

  /** Everything `Relink` changes lies in the subtree or in the slot above it. */
  lemma RelinkFrame(l: Links, m0: Links, m: Links, x: int, r: int, par: int, atRoot: bool, addrs: set<int>)
    requires Relinked(m0, m, x, r, par, atRoot)
    requires forall a :: a !in addrs ==> Same(l, m0, a)
    requires r in addrs && par !in addrs && par != 0
    requires Get(m0.child0, x) == 0 || Get(m0.child0, x) in addrs
    requires Get(m0.child1, x) == 0 || Get(m0.child1, x) in addrs
    ensures forall a :: a !in addrs && a != par ==> Same(l, m, a)
    ensures SlotAfter(l, m, par, x, r, !atRoot)
  {
    assert Same(l, m0, par);
  }

  /** A head with other members in its ring. */
  lemma UnlinkHead(l: Links, p: int, t: Tree, par: int, idx: int, atRoot: bool)
    requires t.Node? && Rep(l, p, t, par, idx) && AllDisjoint(t)
    requires |t.ring| > 1 && par !in Addrs(t) && par != 0 && 0 !in Addrs(t)
    ensures var (m, r) := UnlinkLinks(l, p, t, atRoot);
      Unlinked(l, m, p, r, RemoveNode(t, p), p, par, idx, atRoot, Addrs(t))
  {
    var r := Get(l.bk, p);
    var m0 := RingRemove(l, p);
    HeadRing(l, p, t.ring, idx);
    RingRemoveFrame(l, t.ring, p);
    SubtreesKept(l, m0, p, t, par, idx);
    assert forall a :: a in t.ring ==> a in Addrs(t);
    assert r in t.ring && r != p;
    RepRoot(l, Get(l.child0, p), t.left, p, idx);
    RepRoot(l, Get(l.child1, p), t.right, p, idx);
    var m := Relink(m0, p, r, par, atRoot);
    assert UnlinkLinks(l, p, t, atRoot) == (m, r);
    hide RingRemove, SpliceOut, UnlinkLinks, RemoveNode;
    RelinkWords(m0, p, r, par, atRoot);
    hide Relink;
    RelinkFrame(l, m0, m, p, r, par, atRoot, Addrs(t));
    UnlinkHeadRep(l, m0, m, p, t, r, par, idx, atRoot);
  }

  lemma UnlinkHeadRep(l: Links, m0: Links, m: Links, p: int, t: Tree, r: int, par: int, idx: int, atRoot: bool)
    requires t.Node? && |t.ring| > 1 && t.ring[0] == p && AllDisjoint(t)
    requires par !in Addrs(t) && 0 !in Addrs(t)
    requires var u := RingWithout(t.ring, p);
      IsRing(m0.fd, m0.bk, u) && Chained(m0, u, idx) && u[0] == r && Get(m0.index, r) == idx
    requires Rep(m0, Get(m0.child0, p), t.left, p, idx) && Rep(m0, Get(m0.child1, p), t.right, p, idx)
    requires Relinked(m0, m, p, r, par, atRoot)
    ensures Rep(m, r, RemoveNode(t, p), par, idx)
  {
    var t' := RemoveNode(t, p);
    RingWithoutMembers(t.ring, p);
    assert forall a :: a in t'.ring <==> a in Members(t'.ring);
    assert p in t.ring;
    TakeOver(m0, m, p, r, par, atRoot, t', idx);
  }

  lemma {:induction false} TakeLeafDisjoint(t: Tree)
    requires t.Node? && AllDisjoint(t)
    ensures var (rest, leaf) := TakeLeaf(t);
      AllDisjoint(rest) && NoDup(leaf.ring) && forall a :: a in leaf.ring ==> a !in Addrs(rest)
  {
    if t.right.Node? {
      TakeLeafDisjoint(t.right);
      TakeLeafAddrs(t.right);
      assert forall a :: a in TakeLeaf(t.right).1.ring ==> a in Addrs(t.right);
    } else if t.left.Node? {
      TakeLeafDisjoint(t.left);
      TakeLeafAddrs(t.left);
      assert forall a :: a in TakeLeaf(t.left).1.ring ==> a in Addrs(t.left);
    }
  }

  /** The last chunk of its size, with a subtree below it: the rightmost leaf moves up. */
  ghost function Promoted(t: Tree, side: bool): Tree
    requires t.Node? && (if side then t.right else t.left).Node?
  {
    var (rest, leaf) := TakeLeaf(if side then t.right else t.left);
    if side then Node(leaf.size, leaf.ring, t.left, rest) else Node(leaf.size, leaf.ring, rest, t.right)
  }

  lemma PromotedDisjoint(t: Tree, side: bool)
    requires t.Node? && AllDisjoint(t) && (if side then t.right else t.left).Node?
    ensures var n := Promoted(t, side);
      && Disjoint(n) && AllDisjoint(n.left) && AllDisjoint(n.right)
      && Addrs(n) <= Addrs(t.left) + Addrs(t.right)
  {
    var s := if side then t.right else t.left;
    TakeLeafDisjoint(s);
    TakeLeafAddrs(s);
    assert forall a :: a in TakeLeaf(s).1.ring ==> a in Addrs(s);
  }

  /** Node `n`, headed by `r`, is ready to take over the subtrees that hang below `p`. */
  ghost predicate Ready(m: Links, p: int, r: int, n: Tree, idx: int) {
    && n.Node? && |n.ring| > 0 && n.ring[0] == r && r != 0
    && IsRing(m.fd, m.bk, n.ring) && Chained(m, n.ring, idx) && Get(m.index, r) == idx
    && Get(m.child0, r) == 0 && Get(m.child1, r) == 0
    && Rep(m, Get(m.child0, p), n.left, p, idx) && Rep(m, Get(m.child1, p), n.right, p, idx)
  }

  /** The leaf's ring is untouched by the clearing of the leaf's slot. */
  lemma LeafRing(l: Links, r: int, leaf: Tree, q: int, d: bool, idx: int)
    requires leaf.Node? && leaf.left.Leaf? && leaf.right.Leaf? && Rep(l, r, leaf, q, idx) && q !in leaf.ring
    ensures var m := SetChild(l, q, d, 0);
      && IsRing(m.fd, m.bk, leaf.ring) && Chained(m, leaf.ring, idx) && Get(m.index, r) == idx
      && Get(m.child0, r) == 0 && Get(m.child1, r) == 0
  {
    var m := SetChild(l, q, d, 0);
    assert r in leaf.ring;
    RingFrame(l, m, leaf.ring);
    ChainedFrame(l, m, leaf.ring, idx);
  }

  lemma PromoteWords(l: Links, p: int, t: Tree, par: int, idx: int, side: bool)
    requires t.Node? && Rep(l, p, t, par, idx) && AllDisjoint(t) && t.ring == [p]
    requires (if side then t.right else t.left).Node?
    ensures var s := if side then t.right else t.left;
      var (r, q, d) := RightLeaf(l, Child(l, p, side), s, p, side);
      var m := SetChild(l, q, d, 0);
      && Ready(m, p, r, Promoted(t, side), idx) && r in Addrs(s)
      && (forall a :: a !in Addrs(t) ==> Same(l, m, a))
  {
    hide RightLeaf, TakeLeaf, Same, SetChild, IsRing, Chained, NoDup;
    var s := if side then t.right else t.left;
    var (r, q, d) := RightLeaf(l, Child(l, p, side), s, p, side);
    var (rest, leaf) := TakeLeaf(s);
    var m := SetChild(l, q, d, 0);
    assert p in t.ring;
    TakeLeafRep(l, Child(l, p, side), s, p, side, idx);
    SetChildKeeps(l, q, d, 0);
    TakeLeafAddrs(s);
    assert r in leaf.ring && r in Addrs(s) && q !in leaf.ring by {
      assert forall a :: a in leaf.ring ==> a in Addrs(s);
    }
    LeafRing(l, r, leaf, q, d, idx);
    PromoteOther(l, m, p, t, par, idx, side, q, d);
    assert q in Addrs(t) && forall a :: a !in Addrs(t) ==> Same(l, m, a);
    hide IsRing, Chained, Addrs, Disjoint, AllDisjoint;
    assert Rep(m, Child(m, p, side), rest, p, idx);
  }

  lemma PromoteOther(l: Links, m: Links, p: int, t: Tree, par: int, idx: int, side: bool, q: int, d: bool)
    requires t.Node? && Rep(l, p, t, par, idx) && Disjoint(t)
    requires m == SetChild(l, q, d, 0)
    requires q in Addrs(if side then t.right else t.left) || (q == p && d == side)
    ensures Rep(m, Child(m, p, !side), if side then t.left else t.right, p, idx)
  {
    assert p in t.ring;
    if side {
      RepFrame(l, m, Get(l.child0, p), t.left, p, idx);
    } else {
      RepFrame(l, m, Get(l.child1, p), t.right, p, idx);
    }
  }

  /** The last chunk of its size, with something below it. */
  lemma UnlinkPromote(l: Links, p: int, t: Tree, par: int, idx: int, side: bool, atRoot: bool)
    requires t.Node? && Rep(l, p, t, par, idx) && AllDisjoint(t) && t.ring == [p]
    requires side <==> t.right.Node?
    requires (if side then t.right else t.left).Node?
    requires par !in Addrs(t) && par != 0 && 0 !in Addrs(t)
    ensures var (m, r) := UnlinkLinks(l, p, t, atRoot);
      Unlinked(l, m, p, r, RemoveNode(t, p), p, par, idx, atRoot, Addrs(t))
  {
    var s := if side then t.right else t.left;
    var (r, q, d) := RightLeaf(l, Child(l, p, side), s, p, side);
    var m0, n := SetChild(l, q, d, 0), Promoted(t, side);
    assert p in t.ring && Get(l.bk, p) == p;
    assert SpliceOut(l, p, t) == (m0, r);
    assert RemoveNode(t, p) == n;
    PromoteWords(l, p, t, par, idx, side);
    PromotedDisjoint(t, side);
    hide RightLeaf, Promoted, RemoveNode, SpliceOut, SetChild;
    assert p !in Addrs(n) && r != p && r in Addrs(t);
    assert Addrs(n) <= Addrs(t);
    var m := Relink(m0, p, r, par, atRoot);
    assert UnlinkLinks(l, p, t, atRoot) == (m, r);
    hide UnlinkLinks, Relink, Addrs, Rep, Ready, Disjoint, AllDisjoint;
    PromotedRelinked(l, m0, p, r, n, par, idx, atRoot, Addrs(t));
  }

  lemma PromotedRelinked(
    l: Links, m0: Links, p: int, r: int, n: Tree, par: int, idx: int, atRoot: bool, addrs: set<int>)
    requires Ready(m0, p, r, n, idx) && Disjoint(n) && AllDisjoint(n.left) && AllDisjoint(n.right)
    requires forall a :: a !in addrs ==> Same(l, m0, a)
    requires Addrs(n) <= addrs && p !in Addrs(n) && p in addrs && r != p && r in addrs
    requires par !in addrs && par != 0 && 0 !in addrs
    ensures Unlinked(l, Relink(m0, p, r, par, atRoot), p, r, n, p, par, idx, atRoot, addrs)
  {
    RepRoot(m0, Get(m0.child0, p), n.left, p, idx);
    RepRoot(m0, Get(m0.child1, p), n.right, p, idx);
    var m := Relink(m0, p, r, par, atRoot);
    hide Addrs;
    RelinkWords(m0, p, r, par, atRoot);
    hide Relink, IsRing, Chained, Rep;
    RelinkFrame(l, m0, m, p, r, par, atRoot, addrs);
    TakeOver(m0, m, p, r, par, atRoot, n, idx);
  }

  /** The last chunk of its size, a leaf. */
  lemma UnlinkLeaf(l: Links, p: int, t: Tree, par: int, idx: int, atRoot: bool)
    requires t.Node? && Rep(l, p, t, par, idx) && t.ring == [p] && t.left.Leaf? && t.right.Leaf?
    requires par !in Addrs(t) && par != 0
    ensures var (m, r) := UnlinkLinks(l, p, t, atRoot);
      Unlinked(l, m, p, r, RemoveNode(t, p), p, par, idx, atRoot, Addrs(t))
  {
    assert p in t.ring && Get(l.bk, p) == p;
    assert UnlinkLinks(l, p, t, atRoot) == (TakeSlot(l, p, 0, par, atRoot), 0);
  }

  lemma UnlinkNode(l: Links, p: int, t: Tree, par: int, idx: int, x: int, atRoot: bool)
    requires t.Node? && Rep(l, p, t, par, idx) && AllDisjoint(t) && x in t.ring
    requires par !in Addrs(t) && par != 0 && 0 !in Addrs(t)
    ensures var (m, r) := UnlinkLinks(l, x, t, atRoot);
      Unlinked(l, m, p, r, RemoveNode(t, x), x, par, idx, atRoot, Addrs(t))
  {
    if |t.ring| > 1 {
      if x == p {
        UnlinkHead(l, p, t, par, idx, atRoot);
      } else {
        UnlinkChained(l, p, t, par, idx, x, atRoot);
      }
    } else {
      assert t.ring == [p] && x == p;
      if t.right.Node? || t.left.Node? {
        UnlinkPromote(l, p, t, par, idx, t.right.Node?, atRoot);
      } else {
        UnlinkLeaf(l, p, t, par, idx, atRoot);
      }
    }
  }

  /* ------------------------------ the nodes above ------------------------------ */

  /** The node whose ring holds a chunk of size `s`. */
  ghost function NodeOf(t: Tree, lo: nat, w: nat, s: nat): Tree
    decreases t
  {
    if t.Leaf? || t.size == s || w == 0 then t
    else if s >= lo + Half(w) then NodeOf(t.right, lo + Half(w), w - 1, s)
    else NodeOf(t.left, lo, w - 1, s)
  }

  lemma HasRing(t: Tree, lo: nat, w: nat, sz: map<int, nat>)
    requires t.Node? && WF(t, lo, w, sz)
    ensures |t.ring| > 0
    ensures w > 0 ==> WF(t.left, lo, w - 1, sz) && WF(t.right, lo + Half(w), w - 1, sz)
  {
  }

  lemma {:induction false} NodeOfOk(t: Tree, lo: nat, w: nat, sz: map<int, nat>, x: int)
    requires WF(t, lo, w, sz) && x in Addrs(t) && x in sz
    ensures NodeOf(t, lo, w, sz[x]).Node? && x in NodeOf(t, lo, w, sz[x]).ring
    decreases t
  {
    hide WF, Addrs, Half;
    LeafHasNone(t, x);
    Locate(t, lo, w, sz, x);
    HasRing(t, lo, w, sz);
    if x !in t.ring {
      if sz[x] >= lo + Half(w) {
        NodeOfOk(t.right, lo + Half(w), w - 1, sz, x);
      } else {
        NodeOfOk(t.left, lo, w - 1, sz, x);
      }
    }
  }

  /** `unlink_large_chunk` removes `x` from the trie and touches nothing else. */
  lemma {:induction false} UnlinkRep(
    l: Links, p: int, t: Tree, par: int, idx: int, lo: nat, w: nat, sz: map<int, nat>, x: int, atRoot: bool)
    requires Rep(l, p, t, par, idx) && WF(t, lo, w, sz) && x in Addrs(t) && x in sz
    requires par !in Addrs(t) && par != 0 && (atRoot ==> x == p)
    requires NodeOf(t, lo, w, sz[x]).Node?
    ensures var (m, r) := UnlinkLinks(l, x, NodeOf(t, lo, w, sz[x]), atRoot);
      Unlinked(l, m, p, r, RemoveTree(t, lo, w, sz[x], x), x, par, idx, atRoot, Addrs(t))
    decreases t
  {
    hide Rep, WF, Addrs, Disjoint, AllDisjoint, NodeOf, RemoveTree, UnlinkLinks, Unlinked, Half;
    UnlinkFacts(t, lo, w, sz, x);
    if x in t.ring {
      UnlinkNode(l, p, t, par, idx, x, atRoot);
    } else {
      var side := sz[x] >= lo + Half(w);
      var c, s := Child(l, p, side), if side then t.right else t.left;
      var lo' := if side then lo + Half(w) else lo;
      BelowNode(l, p, t, par, idx, lo, w, sz, x);
      UnlinkRep(l, c, s, p, idx, lo', w - 1, sz, x, false);
      var (m, r) := UnlinkLinks(l, x, NodeOf(t, lo, w, sz[x]), atRoot);
      UnlinkAbove(l, m, p, r, t, par, idx, x, side, RemoveTree(s, lo', w - 1, sz[x], x));
    }
  }

  lemma UnlinkFacts(t: Tree, lo: nat, w: nat, sz: map<int, nat>, x: int)
    requires WF(t, lo, w, sz) && x in Addrs(t)
    ensures t.Node? && AllDisjoint(t) && Disjoint(t) && 0 !in Addrs(t) && x in sz
    ensures x in t.ring ==>
      NodeOf(t, lo, w, sz[x]) == t && |t.ring| > 0 && RemoveTree(t, lo, w, sz[x], x) == RemoveNode(t, x)
    ensures x !in t.ring ==> w > 0
  {
    WFRange(t, lo, w, sz);
    WFAllDisjoint(t, lo, w, sz);
    Locate(t, lo, w, sz, x);
  }

  /** The subtree that a chunk's size leads to. */
  lemma BelowNode(l: Links, p: int, t: Tree, par: int, idx: int, lo: nat, w: nat, sz: map<int, nat>, x: int)
    requires Rep(l, p, t, par, idx) && WF(t, lo, w, sz) && x in Addrs(t) && x in sz && t.Node? && x !in t.ring && w > 0
    ensures var side := sz[x] >= lo + Half(w);
      var c, s := Child(l, p, side), if side then t.right else t.left;
      var lo' := if side then lo + Half(w) else lo;
      && Rep(l, c, s, p, idx) && WF(s, lo', w - 1, sz) && x in Addrs(s) && s < t && p !in Addrs(s) && p != 0 && x != p
      && NodeOf(t, lo, w, sz[x]) == NodeOf(s, lo', w - 1, sz[x])
      && RemoveTree(t, lo, w, sz[x], x) ==
         if side then t.(right := RemoveTree(s, lo', w - 1, sz[x], x))
         else t.(left := RemoveTree(s, lo', w - 1, sz[x], x))
  {
    WFDisjoint(t, lo, w, sz);
    Locate(t, lo, w, sz, x);
    assert p in t.ring;
  }

  lemma UnlinkAbove(l: Links, m: Links, p: int, r: int, t: Tree, par: int, idx: int, x: int, side: bool, c': Tree)
    requires t.Node? && Rep(l, p, t, par, idx) && Disjoint(t) && par !in Addrs(t)
    requires x in Addrs(if side then t.right else t.left) && x != p && 0 !in Addrs(t)
    requires var s := if side then t.right else t.left;
      Unlinked(l, m, Child(l, p, side), r, c', x, p, idx, false, Addrs(s))
    ensures Unlinked(l, m, p, r, if side then t.(right := c') else t.(left := c'), x, par, idx, false, Addrs(t))
  {
    var s := if side then t.right else t.left;
    assert p in t.ring && p in Addrs(t);
    RepRoot(l, Get(l.child0, p), t.left, p, idx);
    RepRoot(l, Get(l.child1, p), t.right, p, idx);
    assert Child(m, p, !side) == Child(l, p, !side);
    assert Child(m, p, side) == if x == Child(l, p, side) then r else Child(l, p, side);
    NodeAfter(l, m, p, t, par, idx, side, c');
    assert Same(l, m, par);
  }
}
