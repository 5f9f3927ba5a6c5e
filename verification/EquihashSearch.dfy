/**
 What the Equihash search finds: of the solutions that collide block by block and have no duplicate
 inputs, exactly those all of whose parts come early enough in every round.
 */
module EquihashSearch {
  import opened PowersOfTwo
  import opened WordXor
  import opened Equihash
  import opened EquihashRounds

  /** Both halves, and the halves of the halves, collide on the block of their level. */
  ghost predicate Collides(p: Puzzle, inputs: seq<nat>, r: nat)
    requires p.Valid() && r <= p.k
    decreases r
  {
    && |inputs| == Pow2(r)
    && (r > 0 ==>
          var (a, b) := Halves(inputs, r);
          && Collides(p, a, r - 1) && Collides(p, b, r - 1)
          && XorAll(p, a, r - 1) == XorAll(p, b, r - 1))
  }

  function Halves(inputs: seq<nat>, r: nat): (ab: (seq<nat>, seq<nat>))
    requires r > 0 && |inputs| == Pow2(r)
    ensures inputs == ab.0 + ab.1 && |ab.0| == |ab.1| == Pow2(r - 1)
  {
    assert Pow2(r) == 2 * Pow2(r - 1);
    (inputs[..Pow2(r - 1)], inputs[Pow2(r - 1)..])
  }

  ghost predicate InRange(inputs: seq<nat>, length: nat) {
    forall i :: i in inputs ==> i < length
  }

  /** A solution of the puzzle in the order in which the search would build it. */
  ghost predicate Solution(p: Puzzle, inputs: seq<nat>, length: nat)
    requires p.Valid()
  {
    && Collides(p, inputs, p.k) && XorAll(p, inputs, p.k) == 0
    && NoDuplicates(inputs) && InRange(inputs, length)
  }

  /** `a` is `b` with some halves swapped. */
  ghost predicate Mirror(a: seq<nat>, b: seq<nat>, r: nat)
    requires |a| == |b| == Pow2(r)
    decreases r
  {
    if r == 0 then a == b
    else
      var (a1, a2) := Halves(a, r);
      var (b1, b2) := Halves(b, r);
      (Mirror(a1, b1, r - 1) && Mirror(a2, b2, r - 1)) || (Mirror(a1, b2, r - 1) && Mirror(a2, b1, r - 1))
  }

  ghost predicate SameInputs(a: seq<nat>, b: seq<nat>) {
    multiset(a) == multiset(b)
  }

  lemma JoinSame(a: seq<nat>, b: seq<nat>, a1: seq<nat>, a2: seq<nat>, b1: seq<nat>, b2: seq<nat>)
    requires a == a1 + a2 && b == b1 + b2
    requires (SameInputs(a1, b1) && SameInputs(a2, b2)) || (SameInputs(a1, b2) && SameInputs(a2, b1))
    ensures SameInputs(a, b)
  {
    assert multiset(a) == multiset(a1) + multiset(a2);
    assert multiset(b) == multiset(b1) + multiset(b2);
  }

  lemma SameSelf(a: seq<nat>)
    ensures SameInputs(a, a)
  {
  }

  lemma {:induction false} MirrorSame(a: seq<nat>, b: seq<nat>, r: nat)
    requires |a| == |b| == Pow2(r) && Mirror(a, b, r)
    ensures SameInputs(a, b)
    decreases r
  {
    hide SameInputs;
    if r == 0 {
      SameSelf(a);
    } else {
      var (a1, a2) := Halves(a, r);
      var (b1, b2) := Halves(b, r);
      if Mirror(a1, b1, r - 1) && Mirror(a2, b2, r - 1) {
        MirrorSame(a1, b1, r - 1);
        MirrorSame(a2, b2, r - 1);
      } else {
        MirrorSame(a1, b2, r - 1);
        MirrorSame(a2, b1, r - 1);
      }
      JoinSame(a, b, a1, a2, b1, b2);
    }
  }

  lemma {:induction false} MirrorXor(p: Puzzle, a: seq<nat>, b: seq<nat>, r: nat, j: nat)
    requires p.Valid() && j <= p.k && |a| == |b| == Pow2(r) && Mirror(a, b, r)
    ensures XorAll(p, a, j) == XorAll(p, b, j)
    decreases r
  {
    hide Xor, XorAll;
    if r > 0 {
      var (a1, a2) := Halves(a, r);
      var (b1, b2) := Halves(b, r);
      XorAllAppend(p, a1, a2, j);
      XorAllAppend(p, b1, b2, j);
      if Mirror(a1, b1, r - 1) && Mirror(a2, b2, r - 1) {
        MirrorXor(p, a1, b1, r - 1, j);
        MirrorXor(p, a2, b2, r - 1, j);
      } else {
        MirrorXor(p, a1, b2, r - 1, j);
        MirrorXor(p, a2, b1, r - 1, j);
        XorCommutes(XorAll(p, b1, j), XorAll(p, b2, j));
      }
    }
  }

  lemma MirrorJoins(a1: seq<nat>, a2: seq<nat>, b1: seq<nat>, b2: seq<nat>, r: nat)
    requires r > 0 && |a1| == |a2| == |b1| == |b2| == Pow2(r - 1)
    requires (Mirror(a1, b1, r - 1) && Mirror(a2, b2, r - 1)) || (Mirror(a1, b2, r - 1) && Mirror(a2, b1, r - 1))
    ensures |a1 + a2| == |b1 + b2| == Pow2(r) && Mirror(a1 + a2, b1 + b2, r)
  {
    assert Pow2(r) == 2 * Pow2(r - 1);
    assert Halves(a1 + a2, r) == (a1, a2) && Halves(b1 + b2, r) == (b1, b2);
  }

  /** If one entry mirrors both halves, they have inputs in common. */
  lemma HalvesApart(a: seq<nat>, b: seq<nat>, c: seq<nat>, r: nat)
    requires |a| == |b| == |c| == Pow2(r) && Mirror(c, a, r) && Mirror(c, b, r)
    ensures !NoDuplicates(a + b)
  {
    hide Mirror, SameInputs;
    MirrorSame(c, a, r);
    MirrorSame(c, b, r);
    Pow2Positive(r);
    SameThrough(a, b, c);
    InBoth(a, b);
    var j :| 0 <= j < |b| && b[j] == a[0];
    assert (a + b)[0] == (a + b)[|a| + j];
  }

  lemma SameThrough(a: seq<nat>, b: seq<nat>, c: seq<nat>)
    requires SameInputs(c, a) && SameInputs(c, b)
    ensures SameInputs(a, b)
  {
  }

  lemma InBoth(a: seq<nat>, b: seq<nat>)
    requires SameInputs(a, b) && a != []
    ensures a[0] in b
  {
    assert a[0] in multiset(a);
  }

  lemma {:induction false} Pow2Positive(r: nat)
    ensures Pow2(r) > 0
  {
  }

  ghost predicate Mirrors(a: seq<nat>, b: seq<nat>, r: nat) {
    |a| == |b| == Pow2(r) && Mirror(a, b, r)
  }

  lemma {:induction false} MirrorSelf(a: seq<nat>, r: nat)
    requires |a| == Pow2(r)
    ensures Mirror(a, a, r)
    decreases r
  {
    if r > 0 {
      MirrorSelf(Halves(a, r).0, r - 1);
      MirrorSelf(Halves(a, r).1, r - 1);
    }
  }

  /* -------------------------------- entries of the tables -------------------------------- */

  ghost function EntryInputs(p: Puzzle, mem: Memory, y: nat, c: nat, length: nat): seq<nat>
    requires p.Valid() && MemoryOk(p, mem, length) && HasEntry(mem, y, c)
  {
    assert TupleOk(p, mem.forks, |mem.forks|, y, mem.table[y][c], length);
    InputsOf(mem.forks, |mem.forks|, mem.table[y][c].reference, length)
  }

  /** Entry `c` of row `y` after `r` rounds stands for inputs that mirror `inputs`. */
  ghost predicate Stands(p: Puzzle, length: nat, r: nat, y: nat, c: nat, inputs: seq<nat>)
    requires p.Valid() && r < p.k
  {
    HasEntry(After(p, length, r), y, c) && Mirrors(EntryInputs(p, After(p, length, r), y, c, length), inputs, r)
  }

  ghost function ForkInputs(p: Puzzle, mem: Memory, q: nat, length: nat): seq<nat>
    requires p.Valid() && MemoryOk(p, mem, length) && |mem.forks| < p.k && q < |Collisions(p, mem)|
  {
    CollisionsOk(p, mem, length);
    assert Collisions(p, mem)[q] in Collisions(p, mem);
    ResolveTreeByLevel(mem.forks, Collisions(p, mem)[q].fork, |mem.forks|, length)
  }

  /** The collisions of the round after `r` rounds. */
  ghost function CollisionsAt(p: Puzzle, length: nat, r: nat): seq<Collision>
    requires p.Valid() && r < p.k
  {
    Collisions(p, After(p, length, r))
  }

  /** Collision `q` stands for inputs that mirror `inputs`. */
  ghost predicate Joins(p: Puzzle, length: nat, r: nat, q: nat, inputs: seq<nat>)
    requires p.Valid() && r < p.k
  {
    q < |CollisionsAt(p, length, r)| && Mirrors(ForkInputs(p, After(p, length, r), q, length), inputs, r + 1)
  }

  /** The halves of `inputs` meet before their row and the list of forks are full. */
  ghost predicate InTime(p: Puzzle, length: nat, r: nat, inputs: seq<nat>)
    requires p.Valid() && r < p.k
  {
    forall q: nat :: Joins(p, length, r, q, inputs) ==>
      Early(CollisionsAt(p, length, r), q, MaxNewCollisions(Pow2(p.Width())))
  }

  /** There is room for these inputs, and for all halves of halves of them, up to round `r`. */
  ghost predicate Room(p: Puzzle, length: nat, inputs: seq<nat>, r: nat)
    requires p.Valid() && r <= p.k && |inputs| == Pow2(r)
    decreases r
  {
    if r == 0 then EarlyInput(p, inputs[0])
    else
      var (a, b) := Halves(inputs, r);
      && Room(p, length, a, r - 1) && Room(p, length, b, r - 1)
      && (r < p.k ==> InTime(p, length, r - 1, inputs))
  }

  /** What a tuple stands for has the xor values that its place and its blocks say. */
  lemma StandsRow(p: Puzzle, length: nat, r: nat, y: nat, c: nat, inputs: seq<nat>)
    requires p.Valid() && r < p.k && Stands(p, length, r, y, c, inputs)
    ensures y == XorAll(p, inputs, r)
  {
    hide XorAll, Mirror, After;
    var mem := After(p, length, r);
    assert TupleOk(p, mem.forks, r, y, mem.table[y][c], length);
    MirrorXor(p, EntryInputs(p, mem, y, c, length), inputs, r, r);
  }

  /** A pair of entries of a row: its collision, and what that stands for. */
  lemma PairJoins(p: Puzzle, length: nat, r: nat, i: nat, j: nat, m: nat) returns (q: nat)
    requires p.Valid() && r < p.k
    requires i < |After(p, length, r).table| && j < m < After(p, length, r).filled[i]
    ensures HasEntry(After(p, length, r), i, j) && HasEntry(After(p, length, r), i, m)
    ensures q == Position(After(p, length, r).table, After(p, length, r).filled, p.k - r, i, j, m)
    ensures q < |CollisionsAt(p, length, r)|
    ensures CollisionsAt(p, length, r)[q] == CollisionOf(After(p, length, r).table[i], j, m)
    ensures ForkInputs(p, After(p, length, r), q, length) ==
      EntryInputs(p, After(p, length, r), i, j, length) + EntryInputs(p, After(p, length, r), i, m, length)
    ensures CollisionsAt(p, length, r)[q].row == XorAll(p, ForkInputs(p, After(p, length, r), q, length), r + 1)
  {
    hide XorAll, Xor, XorBlocks, After, Position, InRows, ResolveTreeByLevel, ValidFork, Pow2, InputsOf, ValidRef;
    var mem := After(p, length, r);
    assert RowShaped(mem.table[i], p.k - r);
    assert HasEntry(mem, i, j) && HasEntry(mem, i, m);
    assert TupleOk(p, mem.forks, r, i, mem.table[i][j], length) && TupleOk(p, mem.forks, r, i, mem.table[i][m], length);
    AtPosition(mem.table, mem.filled, p.k - r, i, j, m);
    q := Position(mem.table, mem.filled, p.k - r, i, j, m);
    ForkJoins(mem.forks, r, mem.table[i][j].reference, mem.table[i][m].reference, length);
    PairOk(p, mem, i, j, m, length);
  }

  /** The pair that collision `q` came from. */
  lemma JoinFrom(p: Puzzle, length: nat, r: nat, q: nat) returns (i: nat, j: nat, m: nat)
    requires p.Valid() && r < p.k && q < |CollisionsAt(p, length, r)|
    ensures i < |After(p, length, r).table| && j < m < After(p, length, r).filled[i]
    ensures q == Position(After(p, length, r).table, After(p, length, r).filled, p.k - r, i, j, m)
  {
    hide After, Position, InRows, Pow2, TupleOk;
    var mem := After(p, length, r);
    i, j, m := Locate(mem.table, mem.filled, p.k - r, |mem.table|, q);
  }

  /** Two entries stand for two halves, in one order or the other. */
  ghost predicate StandForHalves(
    p: Puzzle, length: nat, r: nat, y: nat, j: nat, m: nat, a: seq<nat>, b: seq<nat>)
    requires p.Valid() && r < p.k
  {
    || (Stands(p, length, r, y, j, a) && Stands(p, length, r, y, m, b))
    || (Stands(p, length, r, y, j, b) && Stands(p, length, r, y, m, a))
  }

  /** Entries that stand for two halves of a row: their collision stands for both. */
  lemma HalvesJoin(p: Puzzle, length: nat, r: nat, y: nat, j: nat, m: nat, a: seq<nat>, b: seq<nat>)
    returns (q: nat)
    requires p.Valid() && r < p.k && j < m && |a| == |b| == Pow2(r)
    requires StandForHalves(p, length, r, y, j, m, a, b)
    ensures Joins(p, length, r, q, a + b) && CollisionsAt(p, length, r)[q].row == XorAll(p, a + b, r + 1)
  {
    hide XorAll, After, Position, ForkInputs, EntryInputs, MemoryOk, CollisionOf, Mirror;
    EntryInRow(p, length, r, y, m);
    q := PairJoins(p, length, r, y, j, m);
    var mem := After(p, length, r);
    var u, v := EntryInputs(p, mem, y, j, length), EntryInputs(p, mem, y, m, length);
    MirrorJoins(u, v, a, b, r + 1);
    MirrorXor(p, u + v, a + b, r + 1, r + 1);
  }

  lemma EntryInRow(p: Puzzle, length: nat, r: nat, y: nat, c: nat)
    requires p.Valid() && r < p.k && HasEntry(After(p, length, r), y, c)
    ensures y < |After(p, length, r).table| == |After(p, length, r).filled| && c < After(p, length, r).filled[y]
  {
    hide After;
  }

  /** And the other way round: what joins two halves came from entries that stand for them. */
  lemma JoinParts(p: Puzzle, length: nat, r: nat, q: nat, a: seq<nat>, b: seq<nat>)
    returns (i: nat, j: nat, m: nat)
    requires p.Valid() && r < p.k && |a| == |b| == Pow2(r) && Joins(p, length, r, q, a + b)
    ensures i < |After(p, length, r).table| && j < m < After(p, length, r).filled[i]
    ensures q == Position(After(p, length, r).table, After(p, length, r).filled, p.k - r, i, j, m)
    ensures StandForHalves(p, length, r, i, j, m, a, b)
    ensures CollisionsAt(p, length, r)[q].row == XorAll(p, a + b, r + 1)
  {
    hide XorAll, After, Position, ForkInputs, EntryInputs, MemoryOk, CollisionOf, Collisions, Mirror, HasEntry, Pow2;
    i, j, m := JoinFrom(p, length, r, q);
    var q' := PairJoins(p, length, r, i, j, m);
    var mem := After(p, length, r);
    var u, v := EntryInputs(p, mem, i, j, length), EntryInputs(p, mem, i, m, length);
    EntryLength(p, length, r, i, j);
    EntryLength(p, length, r, i, m);
    MirrorParts(u, v, a, b, r);
    MirrorXor(p, u + v, a + b, r + 1, r + 1);
  }

  /** What mirrors a sum is made of what mirrors its parts. */
  lemma MirrorParts(u: seq<nat>, v: seq<nat>, a: seq<nat>, b: seq<nat>, r: nat)
    requires |u| == |v| == |a| == |b| == Pow2(r) && Mirrors(u + v, a + b, r + 1)
    ensures (Mirrors(u, a, r) && Mirrors(v, b, r)) || (Mirrors(u, b, r) && Mirrors(v, a, r))
  {
    HalvesOfSum(u, v, r);
    HalvesOfSum(a, b, r);
    hide Halves, Pow2;
  }

  lemma HalvesOfSum(a: seq<nat>, b: seq<nat>, r: nat)
    requires |a| == |b| == Pow2(r)
    ensures |a + b| == Pow2(r + 1) && Halves(a + b, r + 1) == (a, b)
  {
  }

  lemma EntryLength(p: Puzzle, length: nat, r: nat, y: nat, c: nat)
    requires p.Valid() && r < p.k && HasEntry(After(p, length, r), y, c)
    ensures |EntryInputs(p, After(p, length, r), y, c, length)| == Pow2(r)
    ensures InRange(EntryInputs(p, After(p, length, r), y, c, length), length)
  {
    assert Pow2(0) == 1;
    hide After, Sums, Pow2;
    var mem := After(p, length, r);
    assert TupleOk(p, mem.forks, r, y, mem.table[y][c], length);
  }

  /* ------------------------------- from one table to the next ------------------------------- */

  /** What an entry of the next table stands for is what its collision stands for. */
  lemma EntryIsJoin(p: Puzzle, length: nat, r: nat, q: nat, x: nat, c: nat)
    requires p.Valid() && r + 1 < p.k && q < |CollisionsAt(p, length, r)|
    requires Placed(RoundOf(p, After(p, length, r)), CollisionsAt(p, length, r), q)
    requires IsAt(CollisionsAt(p, length, r), q, x, c)
    ensures HasEntry(After(p, length, r + 1), x, c)
    ensures EntryInputs(p, After(p, length, r + 1), x, c, length) == ForkInputs(p, After(p, length, r), q, length)
  {
    hide RoundOf, Collisions, ResolveTreeByLevel, ValidFork, Sums, Pow2, Shaped, TupleOk, CollisionOk;
    hide Arrivals, Admitted;
    NextMemory(p, length, r);
    var mem, round := After(p, length, r), RoundOf(p, After(p, length, r));
    var cs := Collisions(p, mem);
    CollisionsOk(p, mem, length);
    assert cs[q] in cs;
    ForkKept(p, mem, round, cs[q], length);
  }

  lemma NextMemory(p: Puzzle, length: nat, r: nat)
    requires p.Valid() && r + 1 < p.k
    ensures After(p, length, r + 1) == Next(After(p, length, r), RoundOf(p, After(p, length, r)))
  {
  }

  lemma ForkKept(p: Puzzle, mem: Memory, round: Round, c: Collision, length: nat)
    requires p.Valid() && |mem.forks| < p.k && CollisionOk(p, mem.forks, c, length)
    ensures ValidFork(mem.forks, c.fork, |mem.forks|, length)
    ensures ValidFork(mem.forks + [round.forks], c.fork, |mem.forks|, length)
    ensures ResolveTreeByLevel(mem.forks + [round.forks], c.fork, |mem.forks|, length)
      == ResolveTreeByLevel(mem.forks, c.fork, |mem.forks|, length)
  {
    hide Sums, ValidFork, ResolveTreeByLevel;
    ResolveKept(mem.forks, round.forks, c.fork, |mem.forks|, length);
  }

  /** A collision that came early is an entry of the next table. */
  lemma JoinEnters(p: Puzzle, length: nat, r: nat, q: nat, inputs: seq<nat>) returns (c: nat)
    requires p.Valid() && r + 1 < p.k && Joins(p, length, r, q, inputs)
    requires Early(CollisionsAt(p, length, r), q, MaxNewCollisions(Pow2(p.Width())))
    ensures Stands(p, length, r + 1, CollisionsAt(p, length, r)[q].row, c, inputs)
  {
    hide Pow2, Arrivals, Admitted, RoundOf, Collisions, ForkInputs, After, Placed, Mirrors, MaxNewCollisions;
    RoundExact(p, After(p, length, r), length);
    var cs := CollisionsAt(p, length, r);
    c := Arrivals(cs, cs[q].row, q);
    EntryIsJoin(p, length, r, q, cs[q].row, c);
  }

  /** An entry of the next table is a collision that came early. */
  lemma EntryCame(p: Puzzle, length: nat, r: nat, x: nat, c: nat) returns (q: nat)
    requires p.Valid() && r + 1 < p.k && HasEntry(After(p, length, r + 1), x, c)
    ensures IsAt(CollisionsAt(p, length, r), q, x, c)
    ensures Early(CollisionsAt(p, length, r), q, MaxNewCollisions(Pow2(p.Width())))
    ensures EntryInputs(p, After(p, length, r + 1), x, c, length) == ForkInputs(p, After(p, length, r), q, length)
  {
    hide Pow2, Arrivals, Admitted, RoundOf, Collisions, ForkInputs, MemoryOk, After, Placed, Early, IsAt;
    NextMemory(p, length, r);
    q := EntryFrom(p, After(p, length, r), length, x, c);
    RoundExact(p, After(p, length, r), length);
    PlaceInRange(CollisionsAt(p, length, r), q, x, c);
    EntryIsJoin(p, length, r, q, x, c);
  }

  lemma EntryJoins(p: Puzzle, length: nat, r: nat, x: nat, c: nat, inputs: seq<nat>) returns (q: nat)
    requires p.Valid() && r + 1 < p.k && Stands(p, length, r + 1, x, c, inputs)
    ensures Joins(p, length, r, q, inputs) && IsAt(CollisionsAt(p, length, r), q, x, c)
    ensures Early(CollisionsAt(p, length, r), q, MaxNewCollisions(Pow2(p.Width())))
  {
    hide Pow2, Collisions, ForkInputs, MemoryOk, After, Mirrors, Early, IsAt;
    q := EntryCame(p, length, r, x, c);
    PlaceInRange(CollisionsAt(p, length, r), q, x, c);
  }

  lemma PlaceInRange(cs: seq<Collision>, q: nat, x: nat, c: nat)
    requires IsAt(cs, q, x, c)
    ensures q < |cs|
  {
  }

  /* ----------------------------- nothing is represented twice ----------------------------- */

  lemma PartsDistinct(a: seq<nat>, b: seq<nat>, length: nat)
    requires NoDuplicates(a + b) && InRange(a + b, length)
    ensures NoDuplicates(a) && NoDuplicates(b) && InRange(a, length) && InRange(b, length)
  {
    var s := a + b;
    assert forall i :: 0 <= i < |a| ==> a[i] == s[i];
    assert forall i :: 0 <= i < |b| ==> b[i] == s[|a| + i];
    forall i | i in a || i in b
      ensures i < length
    {
      assert i in s;
    }
  }

  lemma OneEntry(p: Puzzle, length: nat, y: nat, c: nat, inputs: seq<nat>)
    requires p.Valid() && Stands(p, length, 0, y, c, inputs)
    ensures |inputs| == 1 && After(p, length, 0).table[y][c].reference == inputs[0]
  {
    hide XorAll;
  }

  /** At most one entry after `r` rounds stands for some different inputs. */
  lemma {:induction false} EntryUnique(
    p: Puzzle, length: nat, r: nat, y: nat, c: nat, y': nat, c': nat, inputs: seq<nat>)
    requires p.Valid() && r < p.k && NoDuplicates(inputs) && InRange(inputs, length)
    requires Stands(p, length, r, y, c, inputs) && Stands(p, length, r, y', c', inputs)
    ensures y == y' && c == c'
    decreases r, 0
  {
    hide NoDuplicates, After, Collisions, Joins, Early, Mirrors, EntryInputs, Arrivals, MemoryOk;
    if r == 0 {
      OneEntry(p, length, y, c, inputs);
      OneEntry(p, length, y', c', inputs);
      AfterDiffers(p, length, 0);
      assert SameReference(After(p, length, 0), y, c, y', c');
    } else {
      var q := EntryJoins(p, length, r - 1, y, c, inputs);
      var q' := EntryJoins(p, length, r - 1, y', c', inputs);
      StandsLength(p, length, r, y, c, inputs);
      JoinUnique(p, length, r - 1, q, q', inputs);
    }
  }

  lemma StandsLength(p: Puzzle, length: nat, r: nat, y: nat, c: nat, inputs: seq<nat>)
    requires p.Valid() && r < p.k && Stands(p, length, r, y, c, inputs)
    ensures |inputs| == Pow2(r)
  {
  }

  /** At most one collision of a round stands for some different inputs. */
  lemma {:induction false} JoinUnique(p: Puzzle, length: nat, r: nat, q: nat, q': nat, inputs: seq<nat>)
    requires p.Valid() && r < p.k && NoDuplicates(inputs) && InRange(inputs, length) && |inputs| == Pow2(r + 1)
    requires Joins(p, length, r, q, inputs) && Joins(p, length, r, q', inputs)
    ensures q == q'
    decreases r, 1
  {
    hide NoDuplicates, After, Stands, InRange, Joins, Pow2, Position;
    var (a, b) := Halves(inputs, r + 1);
    PartsDistinct(a, b, length);
    var i, j, m := JoinParts(p, length, r, q, a, b);
    var i', j', m' := JoinParts(p, length, r, q', a, b);
    SamePair(p, length, r, i, j, m, i', j', m', a, b);
  }

  /** Two pairs of entries that stand for the same halves are the same pair. */
  lemma {:induction false} SamePair(
    p: Puzzle, length: nat, r: nat, i: nat, j: nat, m: nat, i': nat, j': nat, m': nat, a: seq<nat>, b: seq<nat>)
    requires p.Valid() && r < p.k && j < m && j' < m'
    requires NoDuplicates(a) && NoDuplicates(b) && InRange(a, length) && InRange(b, length)
    requires StandForHalves(p, length, r, i, j, m, a, b) && StandForHalves(p, length, r, i', j', m', a, b)
    ensures i == i' && j == j' && m == m'
    decreases r, 1, 0
  {
    hide NoDuplicates, InRange, Stands;
    var ca, cb := PartsOf(p, length, r, i, j, m, a, b);
    var ca', cb' := PartsOf(p, length, r, i', j', m', a, b);
    EntryUnique(p, length, r, i, ca, i', ca', a);
    EntryUnique(p, length, r, i, cb, i', cb', b);
  }

  lemma PartsOf(p: Puzzle, length: nat, r: nat, y: nat, j: nat, m: nat, a: seq<nat>, b: seq<nat>)
    returns (ca: nat, cb: nat)
    requires p.Valid() && r < p.k && StandForHalves(p, length, r, y, j, m, a, b)
    ensures Stands(p, length, r, y, ca, a) && Stands(p, length, r, y, cb, b)
    ensures (ca == j && cb == m) || (ca == m && cb == j)
  {
    hide Stands;
    if Stands(p, length, r, y, j, a) && Stands(p, length, r, y, m, b) {
      ca, cb := j, m;
    } else {
      ca, cb := m, j;
    }
  }

  /* --------------------------------- exactly what is found --------------------------------- */

  /** Some entry after `r` rounds stands for these inputs. */
  ghost predicate Present(p: Puzzle, length: nat, inputs: seq<nat>, r: nat)
    requires p.Valid() && r < p.k
  {
    exists y: nat, c: nat :: Stands(p, length, r, y, c, inputs)
  }

  lemma PresentOne(p: Puzzle, length: nat, inputs: seq<nat>)
    requires p.Valid() && |inputs| == Pow2(0) && InRange(inputs, length)
    ensures Present(p, length, inputs, 0) <==> EarlyInput(p, inputs[0])
  {
    hide InputsBefore, TupleOk, Shaped, Filled, RowOf, XorAll;
    FilledIs(p, length);
    var mem, i := Filled(p, length), inputs[0];
    assert inputs == [i] && i in inputs;
    if EarlyInput(p, i) {
      assert InputPlaced(p, mem, i);
      assert Stands(p, length, 0, RowOf(p, i), InputsBefore(p, RowOf(p, i), i), inputs);
    }
    if Present(p, length, inputs, 0) {
      var y: nat, c: nat :| Stands(p, length, 0, y, c, inputs);
      OneEntry(p, length, y, c, inputs);
      EarlyFrom(p, length, mem, y, c);
    }
  }

  lemma EarlyFrom(p: Puzzle, length: nat, mem: Memory, y: nat, c: nat)
    requires p.Valid() && MemoryShaped(p, mem) && mem.forks == [] && FilledExact(p, mem, length) && HasEntry(mem, y, c)
    ensures EarlyInput(p, mem.table[y][c].reference)
  {
    hide InputsBefore, RowOf;
    assert InputIsAt(p, mem.table[y][c].reference, y, c);
    assert RowShaped(mem.table[y], p.k);
  }

  /** Two halves that are present meet in the round. */
  lemma HalvesMeet(p: Puzzle, length: nat, r: nat, a: seq<nat>, b: seq<nat>) returns (q: nat)
    requires p.Valid() && r < p.k && |a| == |b| == Pow2(r) && Present(p, length, a, r) && Present(p, length, b, r)
    requires NoDuplicates(a + b) && XorAll(p, a, r) == XorAll(p, b, r)
    ensures Joins(p, length, r, q, a + b) && CollisionsAt(p, length, r)[q].row == XorAll(p, a + b, r + 1)
  {
    hide NoDuplicates, After, EntryInputs, Mirrors, Pow2, XorAll, Joins, Collisions, Stands;
    var y: nat, j: nat :| Stands(p, length, r, y, j, a);
    var y': nat, m: nat :| Stands(p, length, r, y', m, b);
    StandsRow(p, length, r, y, j, a);
    StandsRow(p, length, r, y', m, b);
    if j == m {
      NotBothHalves(p, length, r, y, j, a, b);
    }
    q := HalvesJoin(p, length, r, y, if j < m then j else m, if j < m then m else j, a, b);
  }

  lemma NotBothHalves(p: Puzzle, length: nat, r: nat, y: nat, c: nat, a: seq<nat>, b: seq<nat>)
    requires p.Valid() && r < p.k && Stands(p, length, r, y, c, a) && Stands(p, length, r, y, c, b)
    ensures !NoDuplicates(a + b)
  {
    hide NoDuplicates, After, EntryInputs, Mirror, Pow2;
    HalvesApart(a, b, EntryInputs(p, After(p, length, r), y, c, length), r);
  }

  /**
   Inputs that collide block by block are in the tables after `r` rounds if and only if there was
   room for them and all halves of halves of them when they came.
   */
  lemma {:induction false} PresentIffRoom(p: Puzzle, length: nat, inputs: seq<nat>, r: nat)
    requires p.Valid() && r < p.k && Collides(p, inputs, r) && NoDuplicates(inputs) && InRange(inputs, length)
    ensures Present(p, length, inputs, r) <==> Room(p, length, inputs, r)
    decreases r
  {
    hide NoDuplicates, Present, XorAll, Pow2, InTime;
    if r == 0 {
      PresentOne(p, length, inputs);
    } else {
      var (a, b) := Halves(inputs, r);
      PartsDistinct(a, b, length);
      PresentIffRoom(p, length, a, r - 1);
      PresentIffRoom(p, length, b, r - 1);
      PresentIfMet(p, length, inputs, r, a, b);
      PresentOnlyIfMet(p, length, inputs, r, a, b);
    }
  }

  lemma PresentIfMet(p: Puzzle, length: nat, inputs: seq<nat>, r: nat, a: seq<nat>, b: seq<nat>)
    requires p.Valid() && 0 < r < p.k && |a| == |b| == Pow2(r - 1) && inputs == a + b && NoDuplicates(inputs)
    requires XorAll(p, a, r - 1) == XorAll(p, b, r - 1)
    ensures Present(p, length, a, r - 1) && Present(p, length, b, r - 1) && InTime(p, length, r - 1, inputs) ==>
      Present(p, length, inputs, r)
  {
    hide NoDuplicates, XorAll, Pow2, Joins, Stands, Early, MaxNewCollisions, CollisionsAt;
    if Present(p, length, a, r - 1) && Present(p, length, b, r - 1) && InTime(p, length, r - 1, inputs) {
      var q := HalvesMeet(p, length, r - 1, a, b);
      JoinInRange(p, length, r - 1, q, inputs);
      var c := JoinEnters(p, length, r - 1, q, inputs);
    }
  }

  lemma JoinInRange(p: Puzzle, length: nat, r: nat, q: nat, inputs: seq<nat>)
    requires p.Valid() && r < p.k && Joins(p, length, r, q, inputs)
    ensures q < |CollisionsAt(p, length, r)|
  {
  }

  /** No other collision stands for the same inputs. */
  lemma OnlyOneMeeting(p: Puzzle, length: nat, r: nat, q: nat, inputs: seq<nat>)
    requires p.Valid() && r < p.k && Joins(p, length, r, q, inputs)
    requires NoDuplicates(inputs) && InRange(inputs, length) && |inputs| == Pow2(r + 1)
    requires Early(CollisionsAt(p, length, r), q, MaxNewCollisions(Pow2(p.Width())))
    ensures InTime(p, length, r, inputs)
  {
    hide NoDuplicates, Pow2, Joins, Early, MaxNewCollisions, CollisionsAt, InRange;
    forall q': nat | Joins(p, length, r, q', inputs)
      ensures q' == q
    {
      JoinUnique(p, length, r, q, q', inputs);
    }
  }

  lemma PresentOnlyIfMet(p: Puzzle, length: nat, inputs: seq<nat>, r: nat, a: seq<nat>, b: seq<nat>)
    requires p.Valid() && 0 < r < p.k && |a| == |b| == Pow2(r - 1) && inputs == a + b && |inputs| == Pow2(r)
    requires NoDuplicates(inputs) && InRange(inputs, length)
    ensures Present(p, length, inputs, r) ==>
      Present(p, length, a, r - 1) && Present(p, length, b, r - 1) && InTime(p, length, r - 1, inputs)
  {
    hide NoDuplicates, Pow2, Joins, Stands, Early, MaxNewCollisions, CollisionsAt, InRange, IsAt, InTime;
    if Present(p, length, inputs, r) {
      var y: nat, c: nat :| Stands(p, length, r, y, c, inputs);
      var q := EntryJoins(p, length, r - 1, y, c, inputs);
      JoinInRange(p, length, r - 1, q, inputs);
      HalvesPresent(p, length, r - 1, q, a, b);
      OnlyOneMeeting(p, length, r - 1, q, inputs);
    }
  }

  lemma HalvesPresent(p: Puzzle, length: nat, r: nat, q: nat, a: seq<nat>, b: seq<nat>)
    requires p.Valid() && r < p.k && |a| == |b| == Pow2(r) && Joins(p, length, r, q, a + b)
    ensures Present(p, length, a, r) && Present(p, length, b, r)
  {
    hide XorAll, Pow2, Joins, Stands, After, Position;
    var i, j, m := JoinParts(p, length, r, q, a, b);
    var ca, cb := PartsOf(p, length, r, i, j, m, a, b);
  }

  /** The search finds these inputs, with some halves swapped. */
  ghost predicate IsFound(p: Puzzle, length: nat, inputs: seq<nat>)
    requires p.Valid()
  {
    exists s :: s in Found(p, length) && Mirrors(s.inputs, inputs, p.k)
  }

  lemma {:induction false} SolutionsHave(
    p: Puzzle, forks: seq<seq<Fork>>, cs: seq<Collision>, n: nat, q: nat, length: nat)
    requires q < n <= |cs| && cs[q].row == 0 && forall c :: c in cs ==> ValidFork(forks, c.fork, |forks|, length)
    ensures SolutionOf(p, forks, cs[q].fork, length) in Solutions(p, forks, cs, n, length)
    decreases n
  {
    hide ValidFork, SolutionOf;
    if q < n - 1 {
      SolutionsHave(p, forks, cs, n - 1, q, length);
    }
  }

  lemma {:induction false} SolutionsFrom(
    p: Puzzle, forks: seq<seq<Fork>>, cs: seq<Collision>, n: nat, s: Proof, length: nat) returns (q: nat)
    requires n <= |cs| && forall c :: c in cs ==> ValidFork(forks, c.fork, |forks|, length)
    requires s in Solutions(p, forks, cs, n, length)
    ensures q < n && cs[q].row == 0 && s == SolutionOf(p, forks, cs[q].fork, length)
    decreases n
  {
    hide ValidFork, SolutionOf;
    if s in Solutions(p, forks, cs, n - 1, length) {
      q := SolutionsFrom(p, forks, cs, n - 1, s, length);
    } else {
      q := n - 1;
    }
  }

  /** Collision `q` of the last round stands for these inputs and cancels the last block. */
  ghost predicate JoinsLast(p: Puzzle, length: nat, q: nat, inputs: seq<nat>)
    requires p.Valid()
  {
    Joins(p, length, p.k - 1, q, inputs) && CollisionsAt(p, length, p.k - 1)[q].row == 0
  }

  /** What is found is what the collisions of the last round with row 0 stand for. */
  lemma FoundIs(p: Puzzle, length: nat, inputs: seq<nat>)
    requires p.Valid()
    ensures IsFound(p, length, inputs) <==> exists q: nat :: JoinsLast(p, length, q, inputs)
  {
    hide Collisions, Solutions, ResolveTreeByLevel, ValidFork, Sums, After, TupleOk, Shaped, Mirrors;
    var mem := After(p, length, p.k - 1);
    var cs := Collisions(p, mem);
    CollisionsOk(p, mem, length);
    SolutionsSolve(p, mem.forks, cs, |cs|, length);
    if IsFound(p, length, inputs) {
      var s :| s in Found(p, length) && Mirrors(s.inputs, inputs, p.k);
      var q := SolutionsFrom(p, mem.forks, cs, |cs|, s, length);
      assert JoinsLast(p, length, q, inputs);
    }
    if q: nat :| JoinsLast(p, length, q, inputs) {
      SolutionsHave(p, mem.forks, cs, |cs|, q, length);
    }
  }

  lemma FoundIffPresent(p: Puzzle, length: nat, inputs: seq<nat>, r: nat, a: seq<nat>, b: seq<nat>)
    requires p.Valid() && r + 1 == p.k && |a| == |b| == Pow2(r) && inputs == a + b && NoDuplicates(inputs)
    requires XorAll(p, a, r) == XorAll(p, b, r) && XorAll(p, inputs, p.k) == 0
    ensures IsFound(p, length, inputs) <==> Present(p, length, a, r) && Present(p, length, b, r)
  {
    hide NoDuplicates, Present, XorAll, Pow2, Joins, CollisionsAt, IsFound;
    FoundIs(p, length, inputs);
    if Present(p, length, a, r) && Present(p, length, b, r) {
      var q := HalvesMeet(p, length, r, a, b);
      assert JoinsLast(p, length, q, inputs);
    }
    if q: nat :| JoinsLast(p, length, q, inputs) {
      HalvesPresent(p, length, r, q, a, b);
    }
  }

  lemma SolutionHalves(p: Puzzle, length: nat, inputs: seq<nat>) returns (a: seq<nat>, b: seq<nat>)
    requires p.Valid() && Solution(p, inputs, length)
    ensures inputs == a + b && |a| == |b| == Pow2(p.k - 1) && Collides(p, a, p.k - 1) && Collides(p, b, p.k - 1)
    ensures XorAll(p, a, p.k - 1) == XorAll(p, b, p.k - 1) && XorAll(p, inputs, p.k) == 0
    ensures NoDuplicates(inputs) && NoDuplicates(a) && NoDuplicates(b) && InRange(a, length) && InRange(b, length)
    ensures |inputs| == Pow2(p.k) && Halves(inputs, p.k) == (a, b)
  {
    hide NoDuplicates, XorAll, Pow2, InRange;
    a, b := Halves(inputs, p.k).0, Halves(inputs, p.k).1;
    PartsDistinct(a, b, length);
  }

  /** After the last round nothing has to be recorded. */
  lemma RoomAtEnd(p: Puzzle, length: nat, inputs: seq<nat>, r: nat, a: seq<nat>, b: seq<nat>)
    requires p.Valid() && p.k == r + 1 && |a| == |b| == Pow2(r)
    requires |inputs| == Pow2(p.k) && Halves(inputs, p.k) == (a, b)
    ensures Room(p, length, inputs, p.k) <==> Room(p, length, a, r) && Room(p, length, b, r)
  {
    hide Room, InTime, Pow2, Halves, Puzzle.Valid;
    RoomOfHalves(p, length, inputs, p.k);
  }

  lemma RoomOfHalves(p: Puzzle, length: nat, inputs: seq<nat>, r: nat)
    requires p.Valid() && 0 < r <= p.k && |inputs| == Pow2(r)
    ensures Room(p, length, inputs, r) <==>
      && Room(p, length, Halves(inputs, r).0, r - 1) && Room(p, length, Halves(inputs, r).1, r - 1)
      && (r < p.k ==> InTime(p, length, r - 1, inputs))
  {
    hide EarlyInput, InTime, Pow2, Halves, Puzzle.Valid;
  }

  /** A solution is found, up to swapped halves, if and only if there was room for all its parts. */
  lemma FoundIffRoom(p: Puzzle, length: nat, inputs: seq<nat>)
    requires p.Valid() && Solution(p, inputs, length)
    ensures |inputs| == Pow2(p.k) && (IsFound(p, length, inputs) <==> Room(p, length, inputs, p.k))
  {
    hide NoDuplicates, Present, XorAll, Pow2, IsFound, Collides, Room, InRange, Solution;
    var a, b := SolutionHalves(p, length, inputs);
    RoomAtEnd(p, length, inputs, p.k - 1, a, b);
    PresentIffRoom(p, length, a, p.k - 1);
    PresentIffRoom(p, length, b, p.k - 1);
    FoundIffPresent(p, length, inputs, p.k - 1, a, b);
  }

  /* --------------------------------- searches that fail --------------------------------- */

  lemma PairCollides(p: Puzzle, a: seq<nat>, b: seq<nat>, r: nat)
    requires p.Valid() && r < p.k && Collides(p, a, r) && Collides(p, b, r) && XorAll(p, a, r) == XorAll(p, b, r)
    ensures Collides(p, a + b, r + 1)
  {
    hide XorAll;
    HalvesOfSum(a, b, r);
  }

  lemma EntryRow(p: Puzzle, length: nat, r: nat, y: nat, c: nat)
    requires p.Valid() && r < p.k && HasEntry(After(p, length, r), y, c)
    ensures XorAll(p, EntryInputs(p, After(p, length, r), y, c, length), r) == y
  {
    hide XorAll, After;
    var mem := After(p, length, r);
    assert TupleOk(p, mem.forks, r, y, mem.table[y][c], length);
  }

  /** What an entry stands for collides block by block. */
  lemma {:induction false} EntryCollides(p: Puzzle, length: nat, r: nat, y: nat, c: nat)
    requires p.Valid() && r < p.k && HasEntry(After(p, length, r), y, c)
    ensures Collides(p, EntryInputs(p, After(p, length, r), y, c, length), r)
    ensures XorAll(p, EntryInputs(p, After(p, length, r), y, c, length), r) == y
    decreases r, 0
  {
    hide XorAll, After, EntryInputs, MemoryOk, Early, Pow2, IsAt, CollisionsAt;
    EntryLength(p, length, r, y, c);
    EntryRow(p, length, r, y, c);
    if r > 0 {
      var q := EntryCame(p, length, r - 1, y, c);
      PlaceInRange(CollisionsAt(p, length, r - 1), q, y, c);
      JoinCollides(p, length, r - 1, q);
    }
  }

  /** So does what a collision stands for. */
  lemma {:induction false} JoinCollides(p: Puzzle, length: nat, r: nat, q: nat)
    requires p.Valid() && r < p.k && q < |CollisionsAt(p, length, r)|
    ensures Collides(p, ForkInputs(p, After(p, length, r), q, length), r + 1)
    ensures InRange(ForkInputs(p, After(p, length, r), q, length), length)
    ensures XorAll(p, ForkInputs(p, After(p, length, r), q, length), r + 1) == CollisionsAt(p, length, r)[q].row
    decreases r, 1
  {
    hide XorAll, After, EntryInputs, ForkInputs, MemoryOk, Collides, Position, CollisionOf, Collisions;
    var i, j, m := JoinFrom(p, length, r, q);
    var q' := PairJoins(p, length, r, i, j, m);
    EntryCollides(p, length, r, i, j);
    EntryCollides(p, length, r, i, m);
    EntryLength(p, length, r, i, j);
    EntryLength(p, length, r, i, m);
    var mem := After(p, length, r);
    PairCollides(p, EntryInputs(p, mem, i, j, length), EntryInputs(p, mem, i, m, length), r);
  }

  /** Everything that is found without duplicates is a solution in this sense. */
  lemma FoundIsSolution(p: Puzzle, length: nat, s: Proof)
    requires p.Valid() && s in Found(p, length) && NoDuplicates(s.inputs)
    ensures Solution(p, s.inputs, length) && IsFound(p, length, s.inputs)
  {
    hide Collisions, Solutions, ResolveTreeByLevel, ValidFork, Sums, After, TupleOk, Shaped, Mirror, Collides;
    hide NoDuplicates;
    var mem := After(p, length, p.k - 1);
    var cs := Collisions(p, mem);
    CollisionsOk(p, mem, length);
    SolutionsSolve(p, mem.forks, cs, |cs|, length);
    var q := SolutionsFrom(p, mem.forks, cs, |cs|, s, length);
    JoinCollides(p, length, p.k - 1, q);
    MirrorSelf(s.inputs, p.k);
  }

  lemma SameDuplicates(s: seq<nat>, u: seq<nat>)
    requires SameInputs(s, u)
    ensures NoDuplicates(s) <==> NoDuplicates(u)
  {
    DuplicateIffCount(s);
    DuplicateIffCount(u);
    hide NoDuplicates;
  }

  lemma VainMisses(p: Puzzle, length: nat, inputs: seq<nat>)
    requires p.Valid() && InVain(p, length) && NoDuplicates(inputs)
    ensures !IsFound(p, length, inputs)
  {
    hide Found, NoDuplicates, Mirror, SameInputs;
    if IsFound(p, length, inputs) {
      var s :| s in Found(p, length) && Mirrors(s.inputs, inputs, p.k);
      MirrorSame(s.inputs, inputs, p.k);
      SameDuplicates(s.inputs, inputs);
    }
  }

  /**
   Exactly when the search for a nonce fails: every solution without duplicates has a part that came
   too late, when its row or the list of forks was full.
   */
  lemma FailsIff(p: Puzzle, length: nat)
    requires p.Valid()
    ensures InVain(p, length) <==> forall inputs :: Solution(p, inputs, length) ==> !Room(p, length, inputs, p.k)
  {
    hide Found, NoDuplicates, IsFound, Room, XorAll;
    forall inputs | Solution(p, inputs, length)
      ensures IsFound(p, length, inputs) <==> Room(p, length, inputs, p.k)
    {
      FoundIffRoom(p, length, inputs);
    }
    if InVain(p, length) {
      forall inputs | Solution(p, inputs, length)
        ensures !IsFound(p, length, inputs)
      {
        VainMisses(p, length, inputs);
      }
    } else {
      var q :| 0 <= q < |Found(p, length)| && NoDuplicates(Found(p, length)[q].inputs);
      FoundIsSolution(p, length, Found(p, length)[q]);
    }
  }

  /* --------------------------------- a solution that is missed --------------------------------- */

  function FirstOf(i: nat): nat { if i < 7 then 0 else 1 + (i - 7) % 7 }

  function SecondOf(i: nat): nat { if i < 5 then i else if i < 7 then 7 else if i < 14 then 0 else 1 }

  /** Inputs 5 and 6 collide in both blocks, behind five others in row 0. */
  function LateHash(seed: seq<nat>, nonce: nat, i: nat): seq<nat> {
    [FirstOf(i) * 0x2000_0000, SecondOf(i) * 0x2000_0000, 0, 0, 0, 0, 0, 0]
  }

  function LatePuzzle(): Puzzle { Puzzle(LateHash, 6, 1, [], 2) }

  lemma LateIsValid()
    ensures LatePuzzle().Valid() && LatePuzzle().Width() == 3
  {
    Pow2Is();
    hide Pow2;
    forall s, v, i
      ensures |LateHash(s, v, i)| == 8 && forall w :: w in LateHash(s, v, i) ==> w < Pow2(32)
    {
    }
  }

  lemma LateBlocks(i: nat)
    ensures LatePuzzle().Valid() && LatePuzzle().Width() == 3
    ensures LatePuzzle().Block(i, 0) == FirstOf(i) && LatePuzzle().Block(i, 1) == SecondOf(i)
  {
    LateIsValid();
    Pow2Is();
    hide Pow2, FirstOf, SecondOf;
    hide Puzzle.Valid;
    Whole(FirstOf(i), 0x2000_0000);
    Whole(SecondOf(i), 0x2000_0000);
  }

  lemma Pow2Is()
    ensures Pow2(29) == 0x2000_0000 && Pow2(32) == 0x1_0000_0000 && Pow2(3) == 8 && Pow2(4) == 16
  {
    assert Pow2(7) == 128 && Pow2(8) == 256;
    Pow2Add(7, 7);
    Pow2Add(14, 7);
    Pow2Add(21, 8);
    assert Pow2(32) == 8 * Pow2(29);
  }

  lemma Whole(a: nat, d: nat)
    requires d > 0
    ensures (a * d) / d == a
  {
    DivUnique(a * d, d, a, 0);
  }

  lemma HalvesOfTwo(inputs: seq<nat>)
    requires |inputs| == 2
    ensures |inputs| == Pow2(1) && Halves(inputs, 1) == ([inputs[0]], [inputs[1]])
  {
    assert Pow2(0) == 1 && Pow2(1) == 2;
    assert inputs[..1] == [inputs[0]] && inputs[1..] == [inputs[1]];
  }

  lemma TwoInputs(p: Puzzle, inputs: seq<nat>, j: nat)
    requires p.Valid() && |inputs| == 2 && j <= p.k
    ensures XorAll(p, [inputs[0]], j) == p.Block(inputs[0], j) && XorAll(p, [inputs[1]], j) == p.Block(inputs[1], j)
    ensures XorAll(p, inputs, j) == 0 <==> p.Block(inputs[0], j) == p.Block(inputs[1], j)
  {
    hide Xor, XorAll;
    assert inputs == [inputs[0]] + [inputs[1]];
    XorAllOne(p, inputs[0], j);
    XorAllOne(p, inputs[1], j);
    XorAllAppend(p, [inputs[0]], [inputs[1]], j);
    XorZeroIffEqual(p.Block(inputs[0], j), p.Block(inputs[1], j));
  }

  /** With one round, a solution is a pair of inputs below the length whose blocks are equal. */
  lemma SolutionOfTwo(p: Puzzle, inputs: seq<nat>, length: nat)
    requires p.Valid() && p.k == 1
    ensures Solution(p, inputs, length) <==>
      && |inputs| == 2 && inputs[0] != inputs[1] && inputs[0] < length && inputs[1] < length
      && p.Block(inputs[0], 0) == p.Block(inputs[1], 0) && p.Block(inputs[0], 1) == p.Block(inputs[1], 1)
  {
    hide Xor, XorAll;
    assert Pow2(0) == 1 && Pow2(1) == 2;
    if |inputs| == 2 {
      TwoInputs(p, inputs, 0);
      TwoInputs(p, inputs, 1);
      HalvesOfTwo(inputs);
      assert inputs[0] in inputs && inputs[1] in inputs;
    }
  }

  lemma FiveBefore()
    ensures LatePuzzle().Valid() && InputsBefore(LatePuzzle(), 0, 5) == 5 && InputsBefore(LatePuzzle(), 0, 6) == 6
  {
    hide Puzzle.Valid;
    LateBlocks(5);
    var i := 0;
    while i < 6
      invariant i <= 6 && forall j: nat :: j <= i ==> InputsBefore(LatePuzzle(), 0, j) == j
    {
      LateBlocks(i);
      i := i + 1;
    }
  }

  /** A search that fails although there is a solution. */
  lemma LateSolution()
    ensures LatePuzzle().Valid() && FillLength(3) == 16 && Solution(LatePuzzle(), [5, 6], 16)
    ensures InVain(LatePuzzle(), 16)
  {
    hide Puzzle.Valid, Solution, InVain, InputsBefore, Puzzle.Block;
    var p := LatePuzzle();
    Pow2Is();
    FillLengthIs(3);
    LateBlocks(5);
    LateBlocks(6);
    SolutionOfTwo(p, [5, 6], 16);
    FiveBefore();
    forall inputs | Solution(p, inputs, 16)
      ensures |inputs| == Pow2(p.k) && !Room(p, 16, inputs, p.k)
    {
      SolutionOfTwo(p, inputs, 16);
      LateBlocks(inputs[0]);
      LateBlocks(inputs[1]);
      assert {inputs[0], inputs[1]} == {5, 6};
      HalvesOfTwo(inputs);
    }
    FailsIff(p, 16);
  }
}
