/**
 The link words of free chunks and the circular lists they form. Chunks are named by their
 addresses; each kind of word is one map from chunk address to value.
 */
module FreeLinks {
  datatype Links = Links(
    fd: map<int, int>,
    bk: map<int, int>,
    child0: map<int, int>,
    child1: map<int, int>,
    parent: map<int, int>,
    index: map<int, int>)

  /** Reads a word; memory that was never written holds no pointer. */
  function Get(m: map<int, int>, p: int): int {
    if p in m then m[p] else 0
  }

  function Child(l: Links, t: int, right: bool): int {
    if right then Get(l.child1, t) else Get(l.child0, t)
  }

  function SetChild(l: Links, t: int, right: bool, v: int): Links {
    if right then l.(child1 := l.child1[t := v]) else l.(child0 := l.child0[t := v])
  }

  /** All link words of chunk `a` agree in the two memories. */
  ghost predicate Same(l: Links, m: Links, a: int) {
    && Get(l.fd, a) == Get(m.fd, a)
    && Get(l.bk, a) == Get(m.bk, a)
    && Get(l.child0, a) == Get(m.child0, a)
    && Get(l.child1, a) == Get(m.child1, a)
    && Get(l.parent, a) == Get(m.parent, a)
    && Get(l.index, a) == Get(m.index, a)
  }

  /* ---------------------------------- rings ---------------------------------- */

  ghost predicate NoDup(s: seq<int>) {
    forall i, j :: 0 <= i < j < |s| ==> s[i] != s[j]
  }

  /** `b` follows `a` on a doubly linked list. */
  ghost predicate Linked(fd: map<int, int>, bk: map<int, int>, a: int, b: int) {
    Get(fd, a) == b && Get(bk, b) == a
  }

  /** `s` is a circular doubly linked list, in `fd` order. */
  ghost predicate IsRing(fd: map<int, int>, bk: map<int, int>, s: seq<int>) {
    && (forall i {:trigger s[i]} :: 0 <= i < |s| - 1 ==> Linked(fd, bk, s[i], s[i + 1]))
    && (|s| > 0 ==> Linked(fd, bk, s[|s| - 1], s[0]))
  }

  /** Links `x` behind the first member: `T->fd = F->bk = X; X->fd = F; X->bk = T`. */
  function RingInsert(l: Links, t: int, x: int): Links {
    var f := Get(l.fd, t);
    l.(fd := l.fd[t := x][x := f], bk := l.bk[f := x][x := t])
  }

  /** Links `x` out: `F->bk = R; R->fd = F`. */
  function RingRemove(l: Links, x: int): Links {
    var f, r := Get(l.fd, x), Get(l.bk, x);
    l.(bk := l.bk[f := r], fd := l.fd[r := f])
  }

  lemma RingInsertOk(l: Links, s: seq<int>, x: int)
    requires |s| > 0 && NoDup(s) && x !in s && IsRing(l.fd, l.bk, s)
    ensures var m := RingInsert(l, s[0], x);
      IsRing(m.fd, m.bk, [s[0], x] + s[1..])
    ensures NoDup([s[0], x] + s[1..])
  {
    var m := RingInsert(l, s[0], x);
    var u := [s[0], x] + s[1..];
    var f := if |s| > 1 then s[1] else s[0];
    assert Linked(l.fd, l.bk, s[0], f);
    forall i {:trigger u[i]} | 0 <= i < |u| - 1
      ensures Linked(m.fd, m.bk, u[i], u[i + 1])
    {
      if i >= 2 {
        assert u[i] == s[i - 1] && u[i + 1] == s[i];
        assert Linked(l.fd, l.bk, s[i - 1], s[(i - 1) + 1]);
      }
    }
  }

  lemma RingRotate(fd: map<int, int>, bk: map<int, int>, s: seq<int>)
    requires |s| > 0 && IsRing(fd, bk, s)
    ensures IsRing(fd, bk, [s[|s| - 1]] + s[..|s| - 1])
  {
    var u := [s[|s| - 1]] + s[..|s| - 1];
    forall i {:trigger u[i]} | 0 <= i < |u| - 1
      ensures Linked(fd, bk, u[i], u[i + 1])
    {
      if i > 0 {
        assert Linked(fd, bk, s[i - 1], s[(i - 1) + 1]);
      }
    }
    if |s| > 1 {
      assert Linked(fd, bk, s[|s| - 2], s[(|s| - 2) + 1]);
    }
  }

  /** The neighbours of the member at position `k`. */
  lemma RingNeighbours(fd: map<int, int>, bk: map<int, int>, s: seq<int>, k: nat)
    requires k < |s| && IsRing(fd, bk, s)
    ensures Get(fd, s[k]) == s[if k + 1 < |s| then k + 1 else 0]
    ensures Get(bk, s[k]) == s[if k > 0 then k - 1 else |s| - 1]
  {
    if k > 0 {
      assert Linked(fd, bk, s[k - 1], s[(k - 1) + 1]);
    }
  }

  /** Two members that follow each other, neither of them `s[k]`, still do after the removal. */
  lemma RingRemoveKeeps(l: Links, s: seq<int>, k: nat, i: nat, j: nat)
    requires 1 < |s| && k < |s| && NoDup(s) && IsRing(l.fd, l.bk, s)
    requires i < |s| && j == (if i + 1 < |s| then i + 1 else 0) && i != k && j != k
    ensures var m := RingRemove(l, s[k]); Linked(m.fd, m.bk, s[i], s[j])
  {
    RingNeighbours(l.fd, l.bk, s, k);
    assert Linked(l.fd, l.bk, s[i], s[j]);
  }

  lemma RingRemoveJoins(l: Links, s: seq<int>, k: nat)
    requires 1 < |s| && k < |s| && NoDup(s) && IsRing(l.fd, l.bk, s)
    ensures var m := RingRemove(l, s[k]);
      Linked(m.fd, m.bk, s[if k > 0 then k - 1 else |s| - 1], s[if k + 1 < |s| then k + 1 else 0])
  {
    RingNeighbours(l.fd, l.bk, s, k);
  }

  lemma RingRemoveOk(l: Links, s: seq<int>, k: nat)
    requires 1 < |s| && k < |s| && NoDup(s) && IsRing(l.fd, l.bk, s)
    ensures var m := RingRemove(l, s[k]);
      IsRing(m.fd, m.bk, s[..k] + s[k + 1..])
  {
    var m := RingRemove(l, s[k]);
    var u := s[..k] + s[k + 1..];
    RingRemoveJoins(l, s, k);
    forall i {:trigger u[i]} | 0 <= i < |u| - 1
      ensures Linked(m.fd, m.bk, u[i], u[i + 1])
    {
      if i < k - 1 {
        RingRemoveKeeps(l, s, k, i, i + 1);
      } else if i >= k {
        RingRemoveKeeps(l, s, k, i + 1, i + 2);
      }
    }
    if 0 < k < |s| - 1 {
      RingRemoveKeeps(l, s, k, |s| - 1, 0);
    }
  }
}
