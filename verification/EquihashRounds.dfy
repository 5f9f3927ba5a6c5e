/**
 Which inputs and collisions of an Equihash search find room. Rows hold five tuples and the list of
 forks has an end, so what comes late is dropped: exactly what is dropped is said here.
 */
module EquihashRounds {
  import opened PowersOfTwo
  import opened WordXor
  import opened Equihash

  /** How many of the first `q` collisions go to row `x`. */
  ghost function Arrivals(cs: seq<Collision>, x: nat, q: nat): nat
    requires q <= |cs|
  {
    if q == 0 then 0 else Arrivals(cs, x, q - 1) + if cs[q - 1].row == x then 1 else 0
  }

  /** How many of the first `q` collisions find fewer than five before them in their row. */
  ghost function Admitted(cs: seq<Collision>, q: nat): nat
    requires q <= |cs|
  {
    if q == 0 then 0
    else Admitted(cs, q - 1) + if Arrivals(cs, cs[q - 1].row, q - 1) < LIST_LENGTH then 1 else 0
  }

  /** Collision `q` comes before its row is full, and before the list of `room` forks is. */
  ghost predicate Early(cs: seq<Collision>, q: nat, room: nat)
    requires q < |cs|
  {
    Arrivals(cs, cs[q].row, q) < LIST_LENGTH && Admitted(cs, q) < room
  }

  lemma {:induction false} AdmittedGrows(cs: seq<Collision>, q: nat, q': nat)
    requires q <= q' <= |cs|
    ensures Admitted(cs, q) <= Admitted(cs, q')
    decreases q'
  {
    hide Arrivals;
    if q < q' {
      AdmittedGrows(cs, q, q' - 1);
    }
  }

  lemma {:induction false} ArrivalsGrow(cs: seq<Collision>, x: nat, q: nat, q': nat)
    requires q <= q' <= |cs|
    ensures Arrivals(cs, x, q) <= Arrivals(cs, x, q')
    decreases q'
  {
    if q < q' {
      ArrivalsGrow(cs, x, q, q' - 1);
    }
  }

  /** The places of collisions that found room are different, and so are their forks. */
  lemma PlacesDiffer(cs: seq<Collision>, q: nat, q': nat, room: nat)
    requires q < q' < |cs| && Early(cs, q, room)
    ensures Admitted(cs, q) < Admitted(cs, q')
    ensures cs[q].row == cs[q'].row ==> Arrivals(cs, cs[q].row, q) < Arrivals(cs, cs[q].row, q')
  {
    hide Arrivals, Admitted;
    OneMore(cs, q);
    AdmittedGrows(cs, q + 1, q');
    ArrivalsGrow(cs, cs[q].row, q + 1, q');
  }

  lemma OneMore(cs: seq<Collision>, q: nat)
    requires q < |cs|
    ensures Arrivals(cs, cs[q].row, q + 1) == Arrivals(cs, cs[q].row, q) + 1
    ensures Arrivals(cs, cs[q].row, q) < LIST_LENGTH ==> Admitted(cs, q + 1) == Admitted(cs, q) + 1
  {
  }

  function Least(a: nat, b: nat): nat { if a < b then a else b }

  /** Collision `q` is in its row and has its fork. */
  ghost predicate Placed(round: Round, cs: seq<Collision>, q: nat)
    requires q < |cs|
  {
    var x, c, ref := cs[q].row, Arrivals(cs, cs[q].row, q), Admitted(cs, q);
    && x < |round.table| == |round.filled| && c < round.filled[x] && c < |round.table[x]| && ref < |round.forks|
    && ref < round.colls && round.table[x][c] == Tuple(cs[q].blocks, ref) && round.forks[ref] == cs[q].fork
  }

  /** Collision `q` is the one in place `c` of row `x`. */
  ghost predicate IsAt(cs: seq<Collision>, q: nat, x: nat, c: nat) {
    q < |cs| && cs[q].row == x && Arrivals(cs, x, q) == c
  }

  /** Place `c` of row `x` has a collision that came early. */
  ghost predicate Taken(round: Round, cs: seq<Collision>, q: nat, x: nat, c: nat) {
    exists q': nat :: q' < q && IsAt(cs, q', x, c) && Early(cs, q', |round.forks|)
  }

  ghost predicate Reaches(round: Round, x: nat, c: nat) {
    x < |round.filled| && c < round.filled[x]
  }

  ghost predicate Rows(round: Round, cs: seq<Collision>) {
    && |round.table| == |round.filled|
    && (forall x :: 0 <= x < |round.table| ==> |round.table[x]| == LIST_LENGTH)
    && (forall c :: c in cs ==> c.row < |round.table|)
  }

  /** Exactly the collisions that came early were recorded. */
  ghost predicate Exact(round: Round, cs: seq<Collision>, q: nat)
    requires q <= |cs|
  {
    && Rows(round, cs) && round.colls == Least(Admitted(cs, q), |round.forks|)
    && (Admitted(cs, q) <= |round.forks| ==>
          forall x: nat :: x < |round.filled| ==> round.filled[x] == Least(Arrivals(cs, x, q), LIST_LENGTH))
    && (forall q': nat :: q' < q && Early(cs, q', |round.forks|) ==> Placed(round, cs, q'))
    && (forall x: nat, c: nat :: Reaches(round, x, c) ==>
          c < LIST_LENGTH && Taken(round, cs, q, x, c))
  }

  lemma AddExact(round: Round, cs: seq<Collision>, q: nat)
    requires q < |cs| && Exact(round, cs, q)
    ensures Exact(AddCollision(round, cs[q]), cs, q + 1)
  {
    hide Early;
    var after, x := AddCollision(round, cs[q]), cs[q].row;
    assert cs[q] in cs;
    AddedWhenEarly(round, cs, q);
    forall q': nat | q' < q + 1 && Early(cs, q', |after.forks|)
      ensures Placed(after, cs, q')
    {
      if q' < q {
        assert Placed(round, cs, q');
      }
    }
    forall y: nat, c: nat | Reaches(after, y, c)
      ensures c < LIST_LENGTH && Taken(after, cs, q + 1, y, c)
    {
      if c < round.filled[y] {
        assert Taken(round, cs, q, y, c);
        var q': nat :| q' < q && IsAt(cs, q', y, c) && Early(cs, q', |round.forks|);
      } else {
        assert IsAt(cs, q, y, c);
      }
    }
  }

  lemma AddedWhenEarly(round: Round, cs: seq<Collision>, q: nat)
    requires q < |cs| && Exact(round, cs, q)
    ensures var after, x := AddCollision(round, cs[q]), cs[q].row;
      if Early(cs, q, |round.forks|) then
        && x < |round.filled| && round.filled[x] == Arrivals(cs, x, q) < LIST_LENGTH
        && round.colls == Admitted(cs, q) < |round.forks|
        && after == Round(
             round.forks[round.colls := cs[q].fork],
             round.table[x := round.table[x][round.filled[x] := Tuple(cs[q].blocks, round.colls)]],
             round.filled[x := round.filled[x] + 1],
             round.colls + 1)
      else after == round
  {
    hide Taken, Placed, Arrivals, Admitted;
    assert cs[q] in cs;
  }

  lemma NothingRecorded(start: Round, cs: seq<Collision>)
    requires Rows(start, cs) && start.colls == 0 && forall x :: 0 <= x < |start.filled| ==> start.filled[x] == 0
    ensures Exact(start, cs, 0)
  {
  }

  lemma {:induction false} RecordingExact(start: Round, cs: seq<Collision>, q: nat)
    requires q <= |cs| && Rows(start, cs) && start.colls == 0
    requires forall x :: 0 <= x < |start.filled| ==> start.filled[x] == 0
    ensures Exact(Recording(start, cs, q), cs, q) && |Recording(start, cs, q).forks| == |start.forks|
    decreases q
  {
    hide Exact, AddCollision;
    if q == 0 {
      NothingRecorded(start, cs);
    } else {
      RecordingExact(start, cs, q - 1);
      AddExact(Recording(start, cs, q - 1), cs, q - 1);
      SameForks(Recording(start, cs, q - 1), cs[q - 1]);
    }
  }

  lemma SameForks(round: Round, c: Collision)
    requires |round.table| == |round.filled|
    ensures |AddCollision(round, c).forks| == |round.forks|
  {
  }

  /**
   What a round records: collision `q` is in the next table, and its fork in the forest, if and only
   if fewer than five collisions before it go to its row and the list of forks is not full yet.
   */
  lemma RoundExact(p: Puzzle, mem: Memory, length: nat)
    requires p.Valid() && MemoryOk(p, mem, length) && |mem.forks| < p.k
    ensures |RoundOf(p, mem).forks| == MaxNewCollisions(Pow2(p.Width()))
    ensures Exact(RoundOf(p, mem), Collisions(p, mem), |Collisions(p, mem)|)
  {
    hide Exact, Recording, Collisions, TupleOk, CollisionOk, Pow2;
    var cs := Collisions(p, mem);
    CollisionsOk(p, mem, length);
    RowsInRange(p, mem.forks, cs, length);
    var start := Fresh(|mem.table|, p.k - |mem.forks| - 1);
    RecordingExact(start, cs, |cs|);
  }

  lemma RowsInRange(p: Puzzle, forks: seq<seq<Fork>>, cs: seq<Collision>, length: nat)
    requires p.Valid() && |forks| < p.k && forall c :: c in cs ==> CollisionOk(p, forks, c, length)
    ensures forall c :: c in cs ==> c.row < Pow2(p.Width())
  {
    hide Sums, ValidFork;
  }

  /* ------------------------------------- the inputs ------------------------------------- */

  ghost function RowOf(p: Puzzle, i: nat): (x: nat)
    requires p.Valid()
    ensures x < Pow2(p.Width())
  {
    BlockBound(p, i, 0);
    p.Block(i, 0)
  }

  /** How many of the first `i` inputs go to row `x`. */
  ghost function InputsBefore(p: Puzzle, x: nat, i: nat): nat
    requires p.Valid()
  {
    if i == 0 then 0 else InputsBefore(p, x, i - 1) + if RowOf(p, i - 1) == x then 1 else 0
  }

  ghost predicate EarlyInput(p: Puzzle, i: nat)
    requires p.Valid()
  {
    InputsBefore(p, RowOf(p, i), i) < LIST_LENGTH
  }

  ghost predicate InputPlaced(p: Puzzle, mem: Memory, i: nat)
    requires p.Valid()
  {
    var x, c := RowOf(p, i), InputsBefore(p, RowOf(p, i), i);
    HasEntry(mem, x, c) && mem.table[x][c].reference == i
  }

  ghost predicate InputIsAt(p: Puzzle, i: nat, x: nat, c: nat)
    requires p.Valid()
  {
    RowOf(p, i) == x && InputsBefore(p, x, i) == c
  }

  /** Exactly the inputs that came early were stored. */
  ghost predicate FilledExact(p: Puzzle, mem: Memory, i: nat)
    requires p.Valid() && MemoryShaped(p, mem) && mem.forks == []
  {
    && (forall x: nat :: x < |mem.filled| ==> mem.filled[x] == Least(InputsBefore(p, x, i), LIST_LENGTH))
    && (forall i': nat :: i' < i && EarlyInput(p, i') ==> InputPlaced(p, mem, i'))
    && (forall x: nat, c: nat :: HasEntry(mem, x, c) ==>
          mem.table[x][c].reference < i && InputIsAt(p, mem.table[x][c].reference, x, c))
  }

  lemma PutExact(p: Puzzle, mem: Memory, i: nat)
    requires p.Valid() && MemoryShaped(p, mem) && mem.forks == [] && FilledExact(p, mem, i)
    ensures FilledExact(p, PutInput(p, mem, i), i + 1)
  {
    hide Pow2;
    var after := PutInput(p, mem, i);
    forall x: nat, c: nat | HasEntry(after, x, c)
      ensures after.table[x][c].reference < i + 1 && InputIsAt(p, after.table[x][c].reference, x, c)
    {
      if c < mem.filled[x] {
        assert HasEntry(mem, x, c);
      }
    }
    forall i': nat | i' < i + 1 && EarlyInput(p, i')
      ensures InputPlaced(p, after, i')
    {
      if i' < i {
        assert InputPlaced(p, mem, i');
      }
    }
  }

  lemma NothingFilled(p: Puzzle)
    requires p.Valid()
    ensures FilledExact(p, Filled(p, 0), 0)
  {
  }

  /**
   What the filled memory holds: input `i` is in the row of its first block if and only if fewer
   than five smaller inputs have that block.
   */
  lemma {:induction false} FilledIs(p: Puzzle, i: nat)
    requires p.Valid()
    ensures FilledExact(p, Filled(p, i), i)
    decreases i
  {
    hide PutInput, MemoryShaped, FilledExact;
    if i == 0 {
      NothingFilled(p);
    } else {
      FilledIs(p, i - 1);
      PutExact(p, Filled(p, i - 1), i - 1);
    }
  }

  /* ------------------------------------ the references ------------------------------------ */

  /** No two entries of the table have the same reference. */
  ghost predicate Differ(mem: Memory) {
    forall x: nat, c: nat, x': nat, c': nat :: SameReference(mem, x, c, x', c') ==> x == x' && c == c'
  }

  ghost predicate SameReference(mem: Memory, x: nat, c: nat, x': nat, c': nat) {
    && HasEntry(mem, x, c) && HasEntry(mem, x', c')
    && mem.table[x][c].reference == mem.table[x'][c'].reference
  }

  lemma InputsDiffer(p: Puzzle, length: nat)
    requires p.Valid()
    ensures Differ(Filled(p, length))
  {
    hide Pow2, Filled, MemoryShaped;
    FilledIs(p, length);
  }

  /** The collision that entry `c` of row `x` of the next table came from. */
  lemma EntryFrom(p: Puzzle, mem: Memory, length: nat, x: nat, c: nat) returns (q: nat)
    requires p.Valid() && MemoryOk(p, mem, length) && |mem.forks| < p.k && HasEntry(Resolved(p, mem), x, c)
    ensures IsAt(Collisions(p, mem), q, x, c) && Early(Collisions(p, mem), q, |RoundOf(p, mem).forks|)
    ensures Placed(RoundOf(p, mem), Collisions(p, mem), q)
  {
    hide TupleOk, Collisions, RoundOf, Placed, Shaped;
    RoundExact(p, mem, length);
    assert Reaches(RoundOf(p, mem), x, c);
    assert Taken(RoundOf(p, mem), Collisions(p, mem), |Collisions(p, mem)|, x, c);
    q :| q < |Collisions(p, mem)| && IsAt(Collisions(p, mem), q, x, c)
      && Early(Collisions(p, mem), q, |RoundOf(p, mem).forks|);
  }

  lemma ForksDiffer(p: Puzzle, mem: Memory, length: nat)
    requires p.Valid() && MemoryOk(p, mem, length) && |mem.forks| < p.k
    ensures Differ(Resolved(p, mem))
  {
    hide TupleOk, Shaped, Collisions, RoundOf, Arrivals, Admitted, Early;
    var next, cs := Resolved(p, mem), Collisions(p, mem);
    forall x: nat, c: nat, x': nat, c': nat | SameReference(next, x, c, x', c')
      ensures x == x' && c == c'
    {
      var q := EntryFrom(p, mem, length, x, c);
      var q' := EntryFrom(p, mem, length, x', c');
      if q < q' {
        PlacesDiffer(cs, q, q', |RoundOf(p, mem).forks|);
      } else if q' < q {
        PlacesDiffer(cs, q', q, |RoundOf(p, mem).forks|);
      }
    }
  }

  lemma AfterDiffers(p: Puzzle, length: nat, r: nat)
    requires p.Valid() && r < p.k
    ensures Differ(After(p, length, r))
  {
    hide MemoryOk, Resolved, Filled, Differ;
    if r == 0 {
      InputsDiffer(p, length);
    } else {
      ForksDiffer(p, After(p, length, r - 1), length);
    }
  }

  /** A pair of entries comes once in a round, and no other pair has its fork. */
  lemma ForkOnce(p: Puzzle, mem: Memory, q: nat, q': nat)
    requires MemoryShaped(p, mem) && |mem.forks| < p.k && Differ(mem)
    requires q < |Collisions(p, mem)| && q' < |Collisions(p, mem)|
    requires Collisions(p, mem)[q].fork == Collisions(p, mem)[q'].fork
    ensures q == q'
  {
    hide Pow2, Position, InRows, Xor, XorBlocks;
    var blocks := p.k - |mem.forks|;
    var i, j, m := Locate(mem.table, mem.filled, blocks, |mem.table|, q);
    var i', j', m' := Locate(mem.table, mem.filled, blocks, |mem.table|, q');
    AtPosition(mem.table, mem.filled, blocks, i, j, m);
    AtPosition(mem.table, mem.filled, blocks, i', j', m');
    assert SameReference(mem, i, j, i', j') && SameReference(mem, i, m, i', m');
  }
}
