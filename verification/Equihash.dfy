/**
 The Equihash prover and verifier: a generalised-birthday search in a bounded table, a forest of
 forks that compresses the solutions, and `Proof::Test`. BLAKE2b is a parameter: any function from
 seed, nonce and input to eight 32-bit words.
 */
module Equihash {
  import opened PowersOfTwo
  import opened WordXor

  const LIST_LENGTH: nat := 5
  const FORK_MULTIPLIER: nat := 3
  const MAX_NONCE: nat := 0xFFFFF

  type Hash = (seq<nat>, nat, nat) -> seq<nat>

  datatype Tuple = Tuple(blocks: seq<nat>, reference: nat)

  datatype Fork = Fork(ref1: nat, ref2: nat)

  datatype Proof = Proof(n: nat, k: nat, seed: seq<nat>, nonce: nat, inputs: seq<nat>)

  ghost predicate IsHash(h: Hash) {
    forall s, v, i :: |h(s, v, i)| == 8 && forall w :: w in h(s, v, i) ==> w < Pow2(32)
  }

  /** One instance of the puzzle. The program is written for these parameters. */
  datatype Puzzle = Puzzle(hash: Hash, n: nat, k: nat, seed: seq<nat>, nonce: nat) {
    ghost predicate Valid() {
      IsHash(hash) && 1 <= k <= 7 && 1 <= Width() <= 31
    }

    /** Bits of a block. */
    function Width(): nat { n / (k + 1) }

    /** Block `j` of the hash of input `i`: the top bits of word `j`. */
    function Block(i: nat, j: nat): nat
      requires j < |hash(seed, nonce, i)| && Width() <= 32
    {
      TopBits(hash(seed, nonce, i)[j], Width())
    }
  }

  /** The top `width` bits of a 32-bit word. */
  function TopBits(x: nat, width: nat): nat
    requires width <= 32
  {
    Quotient(x, Pow2(32 - width))
  }

  /** They are the bits from `32 - width` up: what is below makes no difference. */
  lemma TopBitsIs(x: nat, width: nat)
    requires width <= 32
    ensures TopBits(x, width) * Pow2(32 - width) <= x < (TopBits(x, width) + 1) * Pow2(32 - width)
  {
    var d := Pow2(32 - width);
    assert x == d * (x / d) + x % d && (x / d + 1) * d == d * (x / d) + d;
  }

  lemma BlockBound(p: Puzzle, i: nat, j: nat)
    requires p.Valid() && j <= p.k
    ensures j < |p.hash(p.seed, p.nonce, i)| && p.Block(i, j) < Pow2(p.Width())
  {
    var w := p.hash(p.seed, p.nonce, i)[j];
    assert w in p.hash(p.seed, p.nonce, i);
    Pow2Add(p.Width(), 32 - p.Width());
    DivBelow(w, Pow2(p.Width()), Pow2(32 - p.Width()));
  }

  lemma DivBelow(w: nat, a: nat, b: nat)
    requires b > 0 && w < a * b
    ensures w / b < a
  {
    assert b * (w / b) <= w;
    if w / b >= a {
      MulMono(b, a, w / b);
    }
  }

  /** The exclusive or of block `j` over all inputs, in the order in which `Test` takes them. */
  function XorAll(p: Puzzle, inputs: seq<nat>, j: nat): nat
    requires p.Valid() && j <= p.k
  {
    if inputs == [] then 0
    else Xor(XorAll(p, inputs[..|inputs| - 1], j), p.Block(inputs[|inputs| - 1], j))
  }

  lemma {:induction false} XorAllAppend(p: Puzzle, s: seq<nat>, u: seq<nat>, j: nat)
    requires p.Valid() && j <= p.k
    ensures XorAll(p, s + u, j) == Xor(XorAll(p, s, j), XorAll(p, u, j))
    decreases |u|
  {
    hide Xor;
    if u == [] {
      assert s + u == s;
      XorZero(XorAll(p, s, j));
    } else {
      var n := |u| - 1;
      assert (s + u)[..|s| + n] == s + u[..n];
      XorAllAppend(p, s, u[..n], j);
      XorAssoc(XorAll(p, s, j), XorAll(p, u[..n], j), p.Block(u[n], j));
    }
  }

  lemma XorAllOne(p: Puzzle, i: nat, j: nat)
    requires p.Valid() && j <= p.k
    ensures XorAll(p, [i], j) == p.Block(i, j)
  {
    assert [i][..0] == [];
    XorZero(p.Block(i, j));
  }

  /** The exclusive or of word `j` of the hashes of all inputs. */
  function XorWords(hash: Hash, seed: seq<nat>, nonce: nat, inputs: seq<nat>, j: nat): nat
    requires IsHash(hash) && j < 8
  {
    if inputs == [] then 0
    else
      var last := |inputs| - 1;
      Xor(XorWords(hash, seed, nonce, inputs[..last], j), hash(seed, nonce, inputs[last])[j])
  }

  /** The inputs `inputs` cancel the top `width` bits of the first `k + 1` words of their hashes. */
  ghost predicate Cancels(hash: Hash, k: nat, width: nat, seed: seq<nat>, nonce: nat, inputs: seq<nat>)
    requires IsHash(hash) && k <= 7 && width <= 32
  {
    forall j: nat :: j <= k ==> XorWords(hash, seed, nonce, inputs, j) < Pow2(32 - width)
  }

  lemma {:induction false} XorAllOfWords(p: Puzzle, inputs: seq<nat>, j: nat)
    requires p.Valid() && j <= p.k
    ensures XorAll(p, inputs, j) == Shifted(XorWords(p.hash, p.seed, p.nonce, inputs, j), 32 - p.Width())
    decreases |inputs|
  {
    hide Xor, Pow2;
    if inputs != [] {
      var last := |inputs| - 1;
      XorAllOfWords(p, inputs[..last], j);
      BlockBound(p, inputs[last], j);
      XorShifted(
        XorWords(p.hash, p.seed, p.nonce, inputs[..last], j), p.hash(p.seed, p.nonce, inputs[last])[j],
        32 - p.Width());
    }
  }

  /** The blocks cancel exactly if the whole words do, down to the bits below the blocks. */
  lemma PassesIffCancels(p: Puzzle, inputs: seq<nat>)
    requires p.Valid()
    ensures Passes(p, inputs) <==> Cancels(p.hash, p.k, p.Width(), p.seed, p.nonce, inputs)
  {
    hide XorAll, XorWords, Pow2;
    forall j: nat | j <= p.k
      ensures XorAll(p, inputs, j) == 0 <==>
        XorWords(p.hash, p.seed, p.nonce, inputs, j) < Pow2(32 - p.Width())
    {
      XorAllOfWords(p, inputs, j);
      ZeroQuotient(XorWords(p.hash, p.seed, p.nonce, inputs, j), Pow2(32 - p.Width()));
    }
  }

  lemma ZeroQuotient(x: nat, d: nat)
    requires d > 0
    ensures x / d == 0 <==> x < d
  {
    assert x == d * (x / d) + x % d;
  }

  /** What `Proof::Test` checks. */
  ghost predicate Passes(p: Puzzle, inputs: seq<nat>)
    requires p.Valid()
  {
    forall j: nat :: j <= p.k ==> XorAll(p, inputs, j) == 0
  }

  /* ------------------------------------ the forest ------------------------------------ */

  /** A fork of level `level` refers to forks of the level below, or to inputs below `length`. */
  ghost predicate ValidFork(forks: seq<seq<Fork>>, f: Fork, level: nat, length: nat)
    decreases level
  {
    if level == 0 then f.ref1 < length && f.ref2 < length
    else
      && level <= |forks| && f.ref1 < |forks[level - 1]| && f.ref2 < |forks[level - 1]|
      && ValidFork(forks, forks[level - 1][f.ref1], level - 1, length)
      && ValidFork(forks, forks[level - 1][f.ref2], level - 1, length)
  }

  /** `ResolveTreeByLevel`. */
  function ResolveTreeByLevel(forks: seq<seq<Fork>>, f: Fork, level: nat, ghost length: nat): (inputs: seq<nat>)
    requires ValidFork(forks, f, level, length)
    ensures |inputs| == Pow2(level + 1) && forall i :: i in inputs ==> i < length
    decreases level
  {
    if level == 0 then assert Pow2(1) == 2; [f.ref1, f.ref2]
    else
      ResolveTreeByLevel(forks, forks[level - 1][f.ref1], level - 1, length)
      + ResolveTreeByLevel(forks, forks[level - 1][f.ref2], level - 1, length)
  }

  /** Another level on top changes nothing below. */
  lemma {:induction false} ResolveKept(forks: seq<seq<Fork>>, more: seq<Fork>, f: Fork, level: nat, length: nat)
    requires ValidFork(forks, f, level, length)
    ensures ValidFork(forks + [more], f, level, length)
    ensures ResolveTreeByLevel(forks + [more], f, level, length) == ResolveTreeByLevel(forks, f, level, length)
    decreases level
  {
    if level > 0 {
      ResolveKept(forks, more, forks[level - 1][f.ref1], level - 1, length);
      ResolveKept(forks, more, forks[level - 1][f.ref2], level - 1, length);
    }
  }

  /** A tuple's reference after `r` rounds: an input, or a fork of the last level. */
  ghost predicate ValidRef(forks: seq<seq<Fork>>, r: nat, ref: nat, length: nat) {
    if r == 0 then ref < length
    else r <= |forks| && ref < |forks[r - 1]| && ValidFork(forks, forks[r - 1][ref], r - 1, length)
  }

  ghost function InputsOf(forks: seq<seq<Fork>>, r: nat, ref: nat, length: nat): seq<nat>
    requires ValidRef(forks, r, ref, length)
  {
    if r == 0 then [ref] else ResolveTreeByLevel(forks, forks[r - 1][ref], r - 1, length)
  }

  /** A fork of two references joins their inputs. */
  lemma ForkJoins(forks: seq<seq<Fork>>, r: nat, ref1: nat, ref2: nat, length: nat)
    requires ValidRef(forks, r, ref1, length) && ValidRef(forks, r, ref2, length)
    ensures ValidFork(forks, Fork(ref1, ref2), r, length)
    ensures ResolveTreeByLevel(forks, Fork(ref1, ref2), r, length) ==
            InputsOf(forks, r, ref1, length) + InputsOf(forks, r, ref2, length)
  {
  }

  /* ------------------------------------- the table ------------------------------------- */

  /** Over these inputs, blocks before `r` cancel out, block `r` is `i`, and the later ones are `blocks`. */
  ghost predicate Sums(p: Puzzle, inputs: seq<nat>, r: nat, i: nat, blocks: seq<nat>)
    requires p.Valid() && r + |blocks| <= p.k
  {
    && (forall j: nat :: j < r ==> XorAll(p, inputs, j) == 0)
    && XorAll(p, inputs, r) == i
    && (forall l: nat :: l < |blocks| ==> XorAll(p, inputs, r + 1 + l) == blocks[l])
  }

  /** Two entries of one row make an entry of the next round. */
  lemma SumsJoin(p: Puzzle, s: seq<nat>, u: seq<nat>, r: nat, i: nat, b1: seq<nat>, b2: seq<nat>)
    requires p.Valid() && |b1| == |b2| > 0 && r + |b1| <= p.k
    requires Sums(p, s, r, i, b1) && Sums(p, u, r, i, b2)
    ensures Sums(p, s + u, r + 1, Xor(b1[0], b2[0]), XorBlocks(b1[1..], b2[1..]))
  {
    hide XorAll, Xor;
    var blocks := XorBlocks(b1[1..], b2[1..]);
    forall j: nat | j <= r + |b1|
      ensures XorAll(p, s + u, j) == Xor(XorAll(p, s, j), XorAll(p, u, j))
    {
      XorAllAppend(p, s, u, j);
    }
    XorSelf(0);
    XorSelf(i);
    assert XorAll(p, s, r + 1 + 0) == b1[0] && XorAll(p, u, r + 1 + 0) == b2[0];
    forall l: nat | l < |blocks|
      ensures XorAll(p, s + u, r + 1 + 1 + l) == blocks[l]
    {
      assert XorAll(p, s, r + 1 + (l + 1)) == b1[l + 1] && XorAll(p, u, r + 1 + (l + 1)) == b2[l + 1];
      XorBlocksAt(b1[1..], b2[1..], l);
    }
  }

  function XorBlocks(b1: seq<nat>, b2: seq<nat>): (b: seq<nat>)
    requires |b1| == |b2|
    ensures |b| == |b1|
  {
    if b1 == [] then [] else [Xor(b1[0], b2[0])] + XorBlocks(b1[1..], b2[1..])
  }

  lemma {:induction false} XorBlocksAt(b1: seq<nat>, b2: seq<nat>, l: nat)
    requires |b1| == |b2| && l < |b1|
    ensures XorBlocks(b1, b2)[l] == Xor(b1[l], b2[l])
  {
    if l > 0 {
      XorBlocksAt(b1[1..], b2[1..], l - 1);
    }
  }

  ghost predicate TupleOk(p: Puzzle, forks: seq<seq<Fork>>, r: nat, i: nat, t: Tuple, length: nat)
    requires p.Valid() && r <= p.k
  {
    && |t.blocks| == p.k - r && ValidRef(forks, r, t.reference, length)
    && Sums(p, InputsOf(forks, r, t.reference, length), r, i, t.blocks)
  }

  /** A row of the table: five tuples of `blocks` words. */
  predicate RowShaped(row: seq<Tuple>, blocks: nat) {
    |row| == LIST_LENGTH && forall c :: 0 <= c < |row| ==> |row[c].blocks| == blocks
  }

  /** The shape of a table, and how far its rows are filled. */
  predicate Shaped(table: seq<seq<Tuple>>, filled: seq<nat>, blocks: nat) {
    |table| == |filled| && forall i :: 0 <= i < |table| ==> RowShaped(table[i], blocks) && filled[i] <= LIST_LENGTH
  }

  /** `tupleList`, `filledList` and `forks`, which has one list of forks for each round that was done. */
  datatype Memory = Memory(table: seq<seq<Tuple>>, filled: seq<nat>, forks: seq<seq<Fork>>)

  ghost predicate MemoryShaped(p: Puzzle, mem: Memory) {
    |mem.forks| <= p.k && |mem.table| == Pow2(p.Width()) && Shaped(mem.table, mem.filled, p.k - |mem.forks|)
  }

  ghost predicate HasEntry(mem: Memory, i: nat, c: nat) {
    i < |mem.table| && i < |mem.filled| && c < mem.filled[i] && c < |mem.table[i]|
  }

  /** Every tuple stands for inputs that cancel as many blocks as there were rounds. */
  ghost predicate MemoryOk(p: Puzzle, mem: Memory, length: nat)
    requires p.Valid()
  {
    && MemoryShaped(p, mem)
    && forall i: nat, c: nat :: HasEntry(mem, i, c) ==> TupleOk(p, mem.forks, |mem.forks|, i, mem.table[i][c], length)
  }

  function EmptyTable(tableLength: nat, blocks: nat): (table: seq<seq<Tuple>>)
    ensures |table| == tableLength && forall i :: 0 <= i < |table| ==> RowShaped(table[i], blocks)
  {
    seq(tableLength, i => seq(LIST_LENGTH, c => Tuple(seq(blocks, l => 0), 0)))
  }

  function NoneFilled(tableLength: nat): (filled: seq<nat>)
    ensures |filled| == tableLength && forall i :: 0 <= i < |filled| ==> filled[i] == 0
  {
    seq(tableLength, i => 0)
  }

  /** The entry for two colliding tuples. */
  lemma Collide(p: Puzzle, forks: seq<seq<Fork>>, r: nat, i: nat, t1: Tuple, t2: Tuple, length: nat)
    requires p.Valid() && r < p.k && TupleOk(p, forks, r, i, t1, length) && TupleOk(p, forks, r, i, t2, length)
    ensures |t1.blocks| == |t2.blocks| == p.k - r
    ensures var f := Fork(t1.reference, t2.reference);
      && ValidFork(forks, f, r, length)
      && Sums(p, ResolveTreeByLevel(forks, f, r, length), r + 1, Xor(t1.blocks[0], t2.blocks[0]),
          XorBlocks(t1.blocks[1..], t2.blocks[1..]))
    ensures Xor(t1.blocks[0], t2.blocks[0]) < Pow2(p.Width())
  {
    hide Sums, ResolveTreeByLevel, ValidFork, XorAll, Xor;
    ForkJoins(forks, r, t1.reference, t2.reference, length);
    SumsJoin(
      p, InputsOf(forks, r, t1.reference, length), InputsOf(forks, r, t2.reference, length), r, i,
      t1.blocks, t2.blocks);
    FirstBlockBound(p, InputsOf(forks, r, t1.reference, length), r, i, t1.blocks);
    FirstBlockBound(p, InputsOf(forks, r, t2.reference, length), r, i, t2.blocks);
    XorBound(t1.blocks[0], t2.blocks[0], p.Width());
  }

  lemma FirstBlockBound(p: Puzzle, inputs: seq<nat>, r: nat, i: nat, blocks: seq<nat>)
    requires p.Valid() && r + |blocks| <= p.k && |blocks| > 0 && Sums(p, inputs, r, i, blocks)
    ensures blocks[0] < Pow2(p.Width())
  {
    assert XorAll(p, inputs, r + 1 + 0) == blocks[0];
    XorAllBound(p, inputs, r + 1);
  }

  lemma {:induction false} XorAllBound(p: Puzzle, inputs: seq<nat>, j: nat)
    requires p.Valid() && j <= p.k
    ensures XorAll(p, inputs, j) < Pow2(p.Width())
    decreases |inputs|
  {
    if inputs != [] {
      var n := |inputs| - 1;
      XorAllBound(p, inputs[..n], j);
      BlockBound(p, inputs[n], j);
      XorBound(XorAll(p, inputs[..n], j), p.Block(inputs[n], j), p.Width());
    }
  }

  /** In the last round, a collision whose last blocks cancel out is a solution. */
  lemma LastRound(p: Puzzle, forks: seq<seq<Fork>>, f: Fork, length: nat)
    requires p.Valid() && ValidFork(forks, f, p.k - 1, length)
    requires Sums(p, ResolveTreeByLevel(forks, f, p.k - 1, length), p.k, 0, [])
    ensures var inputs := ResolveTreeByLevel(forks, f, p.k - 1, length);
      |inputs| == Pow2(p.k) && (forall i :: i in inputs ==> i < length) && Passes(p, inputs)
  {
    hide ResolveTreeByLevel, ValidFork, XorAll, Pow2;
  }

  /* ------------------------------------- one round ------------------------------------- */

  /** What two tuples of a row make: the row and the blocks of the new tuple, and its fork. */
  datatype Collision = Collision(row: nat, fork: Fork, blocks: seq<nat>)

  function CollisionOf(row: seq<Tuple>, j: nat, m: nat): Collision
    requires j < |row| && m < |row| && |row[j].blocks| == |row[m].blocks| > 0
  {
    Collision(
      Xor(row[j].blocks[0], row[m].blocks[0]),
      Fork(row[j].reference, row[m].reference),
      XorBlocks(row[j].blocks[1..], row[m].blocks[1..]))
  }

  /** Entry `j` with the later ones before entry `m`. */
  ghost function WithLater(row: seq<Tuple>, blocks: nat, j: nat, m: nat): seq<Collision>
    requires RowShaped(row, blocks) && blocks > 0 && m <= |row|
  {
    if m <= j + 1 then [] else WithLater(row, blocks, j, m - 1) + [CollisionOf(row, j, m - 1)]
  }

  /** The entries before entry `j` with all later ones of the first `n`. */
  ghost function InRow(row: seq<Tuple>, blocks: nat, n: nat, j: nat): seq<Collision>
    requires RowShaped(row, blocks) && blocks > 0 && n <= |row|
  {
    if j == 0 then [] else InRow(row, blocks, n, j - 1) + WithLater(row, blocks, j - 1, n)
  }

  /** The collisions of the rows before row `i`. */
  ghost function InRows(table: seq<seq<Tuple>>, filled: seq<nat>, blocks: nat, i: nat): seq<Collision>
    requires Shaped(table, filled, blocks) && blocks > 0 && i <= |table|
  {
    if i == 0 then []
    else InRows(table, filled, blocks, i - 1) + InRow(table[i - 1], blocks, filled[i - 1], filled[i - 1])
  }

  /** All collisions of a round, in the order in which the loops come to them. */
  ghost function Collisions(p: Puzzle, mem: Memory): seq<Collision>
    requires MemoryShaped(p, mem) && |mem.forks| < p.k
  {
    InRows(mem.table, mem.filled, p.k - |mem.forks|, |mem.table|)
  }

  /** Where in that order the loops come to the pair `(j, m)` of row `i`. */
  ghost function Position(table: seq<seq<Tuple>>, filled: seq<nat>, blocks: nat, i: nat, j: nat, m: nat): nat
    requires Shaped(table, filled, blocks) && blocks > 0 && i < |table| && m <= LIST_LENGTH
  {
    |InRows(table, filled, blocks, i)| + |InRow(table[i], blocks, filled[i], j)| + |WithLater(table[i], blocks, j, m)|
  }

  lemma {:induction false} LaterPrefix(row: seq<Tuple>, blocks: nat, j: nat, m: nat, n: nat)
    requires RowShaped(row, blocks) && blocks > 0 && m <= n <= |row|
    ensures WithLater(row, blocks, j, m) <= WithLater(row, blocks, j, n)
    decreases n
  {
    hide CollisionOf;
    if m < n {
      LaterPrefix(row, blocks, j, m, n - 1);
    }
  }

  lemma {:induction false} RowPrefix(row: seq<Tuple>, blocks: nat, n: nat, j: nat, j': nat)
    requires RowShaped(row, blocks) && blocks > 0 && n <= |row| && j <= j'
    ensures InRow(row, blocks, n, j) <= InRow(row, blocks, n, j')
    decreases j'
  {
    hide WithLater;
    if j < j' {
      RowPrefix(row, blocks, n, j, j' - 1);
    }
  }

  lemma {:induction false} RowsPrefix(table: seq<seq<Tuple>>, filled: seq<nat>, blocks: nat, i: nat, i': nat)
    requires Shaped(table, filled, blocks) && blocks > 0 && i <= i' <= |table|
    ensures InRows(table, filled, blocks, i) <= InRows(table, filled, blocks, i')
    decreases i'
  {
    hide InRow;
    if i < i' {
      RowsPrefix(table, filled, blocks, i, i' - 1);
    }
  }

  /** Every pair of entries of a row has its place in the order. */
  lemma AtPosition(table: seq<seq<Tuple>>, filled: seq<nat>, blocks: nat, i: nat, j: nat, m: nat)
    requires Shaped(table, filled, blocks) && blocks > 0 && i < |table| && j < m < filled[i]
    ensures var q := Position(table, filled, blocks, i, j, m);
      && q < |InRows(table, filled, blocks, |table|)|
      && InRows(table, filled, blocks, |table|)[q] == CollisionOf(table[i], j, m)
  {
    hide CollisionOf;
    var row, n := table[i], filled[i];
    LaterPrefix(row, blocks, j, m + 1, n);
    RowPrefix(row, blocks, n, j + 1, n);
    RowsPrefix(table, filled, blocks, i + 1, |table|);
    PlaceOf(InRows(table, filled, blocks, i), InRow(row, blocks, n, j), WithLater(row, blocks, j, m),
      CollisionOf(row, j, m), WithLater(row, blocks, j, n), InRow(row, blocks, n, n),
      InRows(table, filled, blocks, |table|));
  }

  lemma PlaceOf<T>(a: seq<T>, b: seq<T>, c: seq<T>, t: T, c': seq<T>, b': seq<T>, a': seq<T>)
    requires c + [t] <= c' && b + c' <= b' && a + b' <= a'
    ensures |a| + |b| + |c| < |a'| && a'[|a| + |b| + |c|] == t
  {
    assert (c + [t])[|c|] == t;
    assert (b + c')[|b| + |c|] == c'[|c|];
    assert (a + b')[|a| + (|b| + |c|)] == b'[|b| + |c|];
  }

  lemma {:induction false} LocateLater(row: seq<Tuple>, blocks: nat, j: nat, n: nat, q: nat) returns (m: nat)
    requires RowShaped(row, blocks) && blocks > 0 && n <= |row| && q < |WithLater(row, blocks, j, n)|
    ensures j < m < n && q == |WithLater(row, blocks, j, m)|
    decreases n
  {
    hide CollisionOf;
    if q < |WithLater(row, blocks, j, n - 1)| {
      m := LocateLater(row, blocks, j, n - 1, q);
    } else {
      m := n - 1;
    }
  }

  lemma {:induction false} LocateInRow(row: seq<Tuple>, blocks: nat, n: nat, j: nat, q: nat) returns (j': nat, m: nat)
    requires RowShaped(row, blocks) && blocks > 0 && n <= |row| && q < |InRow(row, blocks, n, j)|
    ensures j' < m < n && q == |InRow(row, blocks, n, j')| + |WithLater(row, blocks, j', m)|
    decreases j
  {
    hide WithLater;
    if q < |InRow(row, blocks, n, j - 1)| {
      j', m := LocateInRow(row, blocks, n, j - 1, q);
    } else {
      j' := j - 1;
      m := LocateLater(row, blocks, j', n, q - |InRow(row, blocks, n, j')|);
    }
  }

  /** And at every place in the order is a pair. */
  lemma {:induction false} Locate(table: seq<seq<Tuple>>, filled: seq<nat>, blocks: nat, n: nat, q: nat)
    returns (i: nat, j: nat, m: nat)
    requires Shaped(table, filled, blocks) && blocks > 0 && n <= |table| && q < |InRows(table, filled, blocks, n)|
    ensures i < |table| && j < m < filled[i] && q == Position(table, filled, blocks, i, j, m)
    decreases n
  {
    hide InRow;
    if q < |InRows(table, filled, blocks, n - 1)| {
      i, j, m := Locate(table, filled, blocks, n - 1, q);
    } else {
      i := n - 1;
      j, m := LocateInRow(
        table[i], blocks, filled[i], filled[i], q - |InRows(table, filled, blocks, i)|);
    }
  }

  /** `newForks`, `collisionList`, `newFilledList` and `newColls` of `ResolveCollisions`. */
  datatype Round = Round(forks: seq<Fork>, table: seq<seq<Tuple>>, filled: seq<nat>, colls: nat)

  function MaxNewCollisions(tableLength: nat): nat {
    (tableLength * FORK_MULTIPLIER) % 0x1_0000_0000
  }

  /** Three forks for every row, as long as the product fits in 32 bits. */
  lemma ThreeForksARow(width: nat)
    requires width <= 31
    ensures MaxNewCollisions(Pow2(width)) == if width <= 30 then 3 * Pow2(width) else Pow2(31)
  {
    assert Pow2(10) == 0x400;
    Pow2Add(10, 10);
    Pow2Add(10, 20);
    Pow2Mono(width, 31);
    if width <= 30 {
      Pow2Mono(width, 30);
    }
  }

  function Fresh(tableLength: nat, blocks: nat): (round: Round)
    ensures |round.table| == |round.filled| == tableLength
  {
    Round(
      seq(MaxNewCollisions(tableLength), c => Fork(0, 0)), EmptyTable(tableLength, blocks), NoneFilled(tableLength), 0)
  }

  /** A collision is added if its row and the list of forks have room. */
  function AddCollision(round: Round, c: Collision): (after: Round)
    requires |round.table| == |round.filled|
    ensures |after.table| == |after.filled|
  {
    var x := c.row;
    if x < |round.filled| && round.filled[x] < LIST_LENGTH && round.filled[x] < |round.table[x]|
      && round.colls < |round.forks| then
      Round(
        round.forks[round.colls := c.fork],
        round.table[x := round.table[x][round.filled[x] := Tuple(c.blocks, round.colls)]],
        round.filled[x := round.filled[x] + 1],
        round.colls + 1)
    else round
  }

  /** The first `q` collisions, taken one by one. */
  function Recording(start: Round, cs: seq<Collision>, q: nat): (round: Round)
    requires |start.table| == |start.filled| && q <= |cs|
    ensures |round.table| == |round.filled|
  {
    if q == 0 then start else AddCollision(Recording(start, cs, q - 1), cs[q - 1])
  }

  /** What a round leaves. */
  ghost function RoundOf(p: Puzzle, mem: Memory): Round
    requires MemoryShaped(p, mem) && |mem.forks| < p.k
  {
    var cs := Collisions(p, mem);
    Recording(Fresh(|mem.table|, p.k - |mem.forks| - 1), cs, |cs|)
  }

  ghost function Next(mem: Memory, round: Round): Memory {
    Memory(round.table, round.filled, mem.forks + [round.forks])
  }

  /** The memory after one more round. */
  ghost function Resolved(p: Puzzle, mem: Memory): Memory
    requires MemoryShaped(p, mem) && |mem.forks| < p.k
  {
    Next(mem, RoundOf(p, mem))
  }

  /** The tuples made in a round, before their forks join the forest. */
  ghost predicate RoundOk(p: Puzzle, mem: Memory, round: Round, length: nat)
    requires p.Valid() && |mem.forks| < p.k
  {
    && |round.table| == Pow2(p.Width()) && Shaped(round.table, round.filled, p.k - |mem.forks| - 1)
    && round.colls <= |round.forks|
    && forall i: nat, c: nat :: HasEntry(Next(mem, round), i, c) ==>
      NewTupleOk(p, mem.forks, round, i, round.table[i][c], length)
  }

  ghost predicate NewTupleOk(p: Puzzle, forks: seq<seq<Fork>>, round: Round, i: nat, t: Tuple, length: nat)
    requires p.Valid() && |forks| < p.k && round.colls <= |round.forks|
  {
    && |t.blocks| == p.k - |forks| - 1 && t.reference < round.colls
    && ValidFork(forks, round.forks[t.reference], |forks|, length)
    && Sums(p, ResolveTreeByLevel(forks, round.forks[t.reference], |forks|, length), |forks| + 1, i, t.blocks)
  }

  lemma NewBecomesOk(p: Puzzle, mem: Memory, round: Round, length: nat)
    requires p.Valid() && |mem.forks| < p.k && RoundOk(p, mem, round, length)
    ensures MemoryOk(p, Next(mem, round), length)
  {
    hide Sums, ResolveTreeByLevel, ValidFork, Pow2, Shaped;
    var next := Next(mem, round);
    forall i: nat, c: nat | HasEntry(next, i, c)
      ensures TupleOk(p, next.forks, |next.forks|, i, next.table[i][c], length)
    {
      assert NewTupleOk(p, mem.forks, round, i, round.table[i][c], length);
      ResolveKept(mem.forks, round.forks, round.forks[round.table[i][c].reference], |mem.forks|, length);
    }
  }

  lemma FreshOk(p: Puzzle, mem: Memory, length: nat)
    requires p.Valid() && MemoryShaped(p, mem) && |mem.forks| < p.k
    ensures RoundOk(p, mem, Fresh(|mem.table|, p.k - |mem.forks| - 1), length)
  {
    hide Pow2;
  }

  /** A collision fits into the next table and into the forest. */
  ghost predicate CollisionOk(p: Puzzle, forks: seq<seq<Fork>>, c: Collision, length: nat)
    requires p.Valid() && |forks| < p.k
  {
    && c.row < Pow2(p.Width()) && |c.blocks| == p.k - |forks| - 1
    && ValidFork(forks, c.fork, |forks|, length)
    && Sums(p, ResolveTreeByLevel(forks, c.fork, |forks|, length), |forks| + 1, c.row, c.blocks)
  }

  lemma PairOk(p: Puzzle, mem: Memory, i: nat, j: nat, m: nat, length: nat)
    requires p.Valid() && MemoryOk(p, mem, length) && |mem.forks| < p.k && i < |mem.table| && j < m < mem.filled[i]
    ensures m < |mem.table[i]| && |mem.table[i][j].blocks| == |mem.table[i][m].blocks| == p.k - |mem.forks|
    ensures CollisionOk(p, mem.forks, CollisionOf(mem.table[i], j, m), length)
  {
    hide Sums, ResolveTreeByLevel, ValidFork, Xor, Pow2;
    assert RowShaped(mem.table[i], p.k - |mem.forks|);
    assert HasEntry(mem, i, j) && HasEntry(mem, i, m);
    Collide(p, mem.forks, |mem.forks|, i, mem.table[i][j], mem.table[i][m], length);
  }

  lemma CollisionsOk(p: Puzzle, mem: Memory, length: nat)
    requires p.Valid() && MemoryOk(p, mem, length) && |mem.forks| < p.k
    ensures forall c :: c in Collisions(p, mem) ==> CollisionOk(p, mem.forks, c, length)
  {
    hide CollisionOk, CollisionOf, Pow2, TupleOk, InRows, Position;
    var blocks := p.k - |mem.forks|;
    var cs := Collisions(p, mem);
    forall q | 0 <= q < |cs|
      ensures CollisionOk(p, mem.forks, cs[q], length)
    {
      var i, j, m := Locate(mem.table, mem.filled, blocks, |mem.table|, q);
      AtPosition(mem.table, mem.filled, blocks, i, j, m);
      PairOk(p, mem, i, j, m, length);
    }
  }

  lemma AddKeepsOk(p: Puzzle, mem: Memory, round: Round, c: Collision, length: nat)
    requires p.Valid() && |mem.forks| < p.k && RoundOk(p, mem, round, length) && CollisionOk(p, mem.forks, c, length)
    ensures RoundOk(p, mem, AddCollision(round, c), length)
  {
    hide Sums, ResolveTreeByLevel, ValidFork, Pow2;
    var after := AddCollision(round, c);
    forall i: nat, e: nat | HasEntry(Next(mem, after), i, e)
      ensures NewTupleOk(p, mem.forks, after, i, after.table[i][e], length)
    {
      if e < round.filled[i] {
        assert HasEntry(Next(mem, round), i, e);
        assert NewTupleOk(p, mem.forks, round, i, round.table[i][e], length);
      }
    }
  }

  lemma {:induction false} RecordingOk(p: Puzzle, mem: Memory, cs: seq<Collision>, q: nat, length: nat)
    requires p.Valid() && MemoryShaped(p, mem) && |mem.forks| < p.k && q <= |cs|
    requires forall c :: c in cs ==> CollisionOk(p, mem.forks, c, length)
    ensures RoundOk(p, mem, Recording(Fresh(|mem.table|, p.k - |mem.forks| - 1), cs, q), length)
    decreases q
  {
    hide CollisionOk, RoundOk, AddCollision, Fresh, MemoryShaped;
    if q == 0 {
      FreshOk(p, mem, length);
    } else {
      RecordingOk(p, mem, cs, q - 1, length);
      AddKeepsOk(p, mem, Recording(Fresh(|mem.table|, p.k - |mem.forks| - 1), cs, q - 1), cs[q - 1], length);
    }
  }

  /** After a round every tuple cancels one block more. */
  lemma ResolvedOk(p: Puzzle, mem: Memory, length: nat)
    requires p.Valid() && MemoryOk(p, mem, length) && |mem.forks| < p.k
    ensures MemoryOk(p, Resolved(p, mem), length) && |Resolved(p, mem).forks| == |mem.forks| + 1
  {
    hide CollisionOk, RoundOk, TupleOk, Recording, Fresh, Collisions;
    var cs := Collisions(p, mem);
    CollisionsOk(p, mem, length);
    RecordingOk(p, mem, cs, |cs|, length);
    NewBecomesOk(p, mem, RoundOf(p, mem), length);
  }

  /** The first argument of `FillMemory`, cut to 32 bits: with 31-bit blocks it is zero. */
  function FillLength(width: nat): nat
    requires width > 0
  {
    (4 * Pow2(width - 1)) % 0x1_0000_0000
  }

  lemma FillLengthIs(width: nat)
    requires 1 <= width <= 31
    ensures FillLength(width) == if width == 31 then 0 else Pow2(width + 1)
  {
    hide Pow2;
    var x := Pow2(width - 1);
    assert 4 * x == Pow2(width + 1) by {
      Pow2Steps(width);
    }
    Word32();
    if width == 31 {
    } else {
      Pow2Mono(width + 1, 31);
    }
  }

  lemma Pow2Steps(w: nat)
    requires w > 0
    ensures Pow2(w + 1) == 4 * Pow2(w - 1)
  {
  }

  lemma Word32()
    ensures Pow2(32) == 0x1_0000_0000 && Pow2(31) == 0x8000_0000
  {
    assert Pow2(8) == 256 && Pow2(7) == 128;
    Pow2Add(8, 8);
    Pow2Add(16, 8);
    Pow2Add(24, 7);
    assert Pow2(32) == 2 * Pow2(31);
  }

  /** What a proof must be to solve the puzzle: 2^k inputs in range that pass the test. */
  ghost predicate Solves(p: Puzzle, proof: Proof, length: nat)
    requires p.Valid()
  {
    && proof.n == p.n && proof.k == p.k && proof.seed == p.seed && proof.nonce == p.nonce
    && |proof.inputs| == Pow2(p.k) && (forall i :: i in proof.inputs ==> i < length)
    && Passes(p, proof.inputs)
  }

  /** The collisions of the last round among the first `q` that cancel the last block. */
  ghost function Solutions(p: Puzzle, forks: seq<seq<Fork>>, cs: seq<Collision>, q: nat, length: nat): seq<Proof>
    requires q <= |cs| && forall c :: c in cs ==> ValidFork(forks, c.fork, |forks|, length)
  {
    if q == 0 then []
    else
      Solutions(p, forks, cs, q - 1, length)
      + if cs[q - 1].row == 0 then [SolutionOf(p, forks, cs[q - 1].fork, length)] else []
  }

  ghost function SolutionOf(p: Puzzle, forks: seq<seq<Fork>>, f: Fork, length: nat): Proof
    requires ValidFork(forks, f, |forks|, length)
  {
    Proof(p.n, p.k, p.seed, p.nonce, ResolveTreeByLevel(forks, f, |forks|, length))
  }

  lemma SolutionSolves(p: Puzzle, forks: seq<seq<Fork>>, c: Collision, length: nat)
    requires p.Valid() && |forks| == p.k - 1 && CollisionOk(p, forks, c, length) && c.row == 0
    ensures Solves(p, SolutionOf(p, forks, c.fork, length), length)
  {
    hide ResolveTreeByLevel, ValidFork, Sums, Passes;
    assert c.blocks == [];
    LastRound(p, forks, c.fork, length);
  }

  lemma {:induction false} SolutionsSolve(p: Puzzle, forks: seq<seq<Fork>>, cs: seq<Collision>, q: nat, length: nat)
    requires p.Valid() && |forks| == p.k - 1 && q <= |cs|
    requires forall c :: c in cs ==> CollisionOk(p, forks, c, length)
    ensures forall c :: c in cs ==> ValidFork(forks, c.fork, |forks|, length)
    ensures forall s :: s in Solutions(p, forks, cs, q, length) ==> Solves(p, s, length)
    decreases q
  {
    hide ResolveTreeByLevel, ValidFork, Sums, Solves, SolutionOf;
    if q > 0 {
      SolutionsSolve(p, forks, cs, q - 1, length);
      if cs[q - 1].row == 0 {
        assert cs[q - 1] in cs;
        SolutionSolves(p, forks, cs[q - 1], length);
      }
    }
  }

  /* ------------------------------------ the search ------------------------------------ */

  /** The blocks of an input behind the first. */
  ghost function LaterBlocks(p: Puzzle, i: nat, n: nat): (blocks: seq<nat>)
    requires p.Valid() && n <= p.k
    ensures |blocks| == n
  {
    if n == 0 then [] else BlockBound(p, i, n); LaterBlocks(p, i, n - 1) + [p.Block(i, n)]
  }

  lemma {:induction false} LaterBlocksAt(p: Puzzle, i: nat, n: nat, l: nat)
    requires p.Valid() && l < n <= p.k
    ensures l + 1 < |p.hash(p.seed, p.nonce, i)| && LaterBlocks(p, i, n)[l] == p.Block(i, l + 1)
    decreases n
  {
    BlockBound(p, i, l + 1);
    if l < n - 1 {
      LaterBlocksAt(p, i, n - 1, l);
    }
  }

  /** An input goes to the row of its first block, if there is room. */
  ghost function PutInput(p: Puzzle, mem: Memory, i: nat): (after: Memory)
    requires p.Valid() && mem.forks == [] && MemoryShaped(p, mem)
    ensures after.forks == [] && MemoryShaped(p, after)
  {
    BlockBound(p, i, 0);
    var x := p.Block(i, 0);
    var c := mem.filled[x];
    if c < LIST_LENGTH then
      Memory(
        mem.table[x := mem.table[x][c := Tuple(LaterBlocks(p, i, p.k), i)]], mem.filled[x := c + 1], mem.forks)
    else mem
  }

  /** The memory filled with the first `i` inputs. */
  ghost function Filled(p: Puzzle, i: nat): (mem: Memory)
    requires p.Valid()
    ensures mem.forks == [] && MemoryShaped(p, mem)
  {
    if i == 0 then Memory(EmptyTable(Pow2(p.Width()), p.k), NoneFilled(Pow2(p.Width())), [])
    else PutInput(p, Filled(p, i - 1), i - 1)
  }

  lemma InputTuple(p: Puzzle, i: nat, index: nat, blocks: seq<nat>, length: nat)
    requires p.Valid() && i < length && |blocks| == p.k && index == p.Block(i, 0)
    requires forall l: nat :: l < p.k ==> blocks[l] == p.Block(i, l + 1)
    ensures TupleOk(p, [], 0, index, Tuple(blocks, i), length)
  {
    forall j: nat | j <= p.k
      ensures XorAll(p, [i], j) == p.Block(i, j)
    {
      XorAllOne(p, i, j);
    }
  }

  /** With inputs below zero there is none. */
  lemma NonEmptyInRange(p: Puzzle, proof: Proof, length: nat)
    requires p.Valid() && Solves(p, proof, length)
    ensures length > 0 && proof.inputs != [] && Passes(p, proof.inputs)
    ensures proof.n == p.n && proof.k == p.k && proof.seed == p.seed && proof.nonce == p.nonce
  {
    assert proof.inputs[0] in proof.inputs;
  }

  lemma PutInputOk(p: Puzzle, mem: Memory, i: nat, length: nat)
    requires p.Valid() && mem.forks == [] && MemoryOk(p, mem, length) && i < length
    ensures MemoryOk(p, PutInput(p, mem, i), length)
  {
    hide Sums, XorAll, Pow2;
    var after := PutInput(p, mem, i);
    BlockBound(p, i, 0);
    forall l: nat | l < p.k
      ensures l + 1 < |p.hash(p.seed, p.nonce, i)| && LaterBlocks(p, i, p.k)[l] == p.Block(i, l + 1)
    {
      LaterBlocksAt(p, i, p.k, l);
    }
    InputTuple(p, i, p.Block(i, 0), LaterBlocks(p, i, p.k), length);
    forall x: nat, c: nat | HasEntry(after, x, c)
      ensures TupleOk(p, after.forks, 0, x, after.table[x][c], length)
    {
      if c < mem.filled[x] {
        assert HasEntry(mem, x, c);
      }
    }
  }

  lemma {:induction false} FilledOk(p: Puzzle, i: nat, length: nat)
    requires p.Valid() && i <= length
    ensures MemoryOk(p, Filled(p, i), length)
    decreases i
  {
    hide TupleOk, Pow2, PutInput;
    if i > 0 {
      FilledOk(p, i - 1, length);
      PutInputOk(p, Filled(p, i - 1), i - 1, length);
    }
  }

  /** The memory after `r` rounds, and before the last. */
  ghost function After(p: Puzzle, length: nat, r: nat): (mem: Memory)
    requires p.Valid() && r < p.k
    ensures MemoryOk(p, mem, length) && |mem.forks| == r
  {
    if r == 0 then FilledOk(p, length, length); Filled(p, length)
    else
      var mem := After(p, length, r - 1);
      ResolvedOk(p, mem, length);
      Resolved(p, mem)
  }

  /** What the last round finds. */
  ghost function LastSolutions(p: Puzzle, mem: Memory, length: nat): (found: seq<Proof>)
    requires p.Valid() && MemoryOk(p, mem, length) && |mem.forks| == p.k - 1
    ensures forall s :: s in found ==> Solves(p, s, length)
  {
    var cs := Collisions(p, mem);
    CollisionsOk(p, mem, length);
    SolutionsSolve(p, mem.forks, cs, |cs|, length);
    Solutions(p, mem.forks, cs, |cs|, length)
  }

  /** All that a search finds, in the order in which it is found. */
  ghost function Found(p: Puzzle, length: nat): (found: seq<Proof>)
    requires p.Valid()
    ensures forall s :: s in found ==> Solves(p, s, length)
  {
    LastSolutions(p, After(p, length, p.k - 1), length)
  }

  /** Everything that is found has duplicates. */
  ghost predicate InVain(p: Puzzle, length: nat)
    requires p.Valid()
  {
    forall q :: 0 <= q < |Found(p, length)| ==> !NoDuplicates(Found(p, length)[q].inputs)
  }

  /** `proof` is the first that is found without duplicates. */
  ghost predicate FirstFound(p: Puzzle, length: nat, proof: Proof)
    requires p.Valid()
  {
    var found := Found(p, length);
    exists q :: 0 <= q < |found| && found[q] == proof && NoDuplicates(proof.inputs)
      && forall j :: 0 <= j < q ==> !NoDuplicates(found[j].inputs)
  }


  class Prover {
    const hash: Hash
    const n: nat
    const k: nat
    const seed: seq<nat>
    var nonce: nat
    var tupleList: seq<seq<Tuple>>
    var filledList: seq<nat>
    var forks: seq<seq<Fork>>
    var solutions: seq<Proof>

    constructor (hash: Hash, n: nat, k: nat, seed: seq<nat>)
      ensures this.hash == hash && this.n == n && this.k == k && this.seed == seed
    {
      this.hash, this.n, this.k, this.seed := hash, n, k, seed;
      nonce, tupleList, filledList, forks, solutions := 0, [], [], [], [];
    }

    ghost function Now(): Puzzle
      reads `nonce
    {
      Puzzle(hash, n, k, seed, nonce)
    }

    ghost function State(): Memory
      reads `tupleList, `filledList, `forks
    {
      Memory(tupleList, filledList, forks)
    }

    function Width(): nat { n / (k + 1) }

    /** `InitializeMemory`. */
    method InitializeMemory()
      requires Now().Valid()
      modifies `tupleList, `filledList, `forks, `solutions
      ensures State() == Filled(Now(), 0) && solutions == []
    {
      hide Pow2;
      var tupleN := Pow2(Width());
      tupleList := EmptyTable(tupleN, k);
      filledList := NoneFilled(tupleN);
      solutions := [];
      forks := [];
    }

    /** `FillMemory`. */
    method FillMemory(length: nat)
      requires Now().Valid() && State() == Filled(Now(), 0)
      modifies `tupleList, `filledList
      ensures State() == Filled(Now(), length)
    {
      hide PutInput, MemoryShaped;
      for i := 0 to length
        invariant State() == Filled(Now(), i)
      {
        StoreInput(i);
      }
    }

    /** The body of the outer loop. */
    method StoreInput(i: nat)
      requires Now().Valid() && MemoryShaped(Now(), State()) && forks == []
      modifies `tupleList, `filledList
      ensures State() == old(PutInput(Now(), State(), i))
    {
      hide Pow2, TopBits, LaterBlocks;
      var buf := hash(seed, nonce, i);
      BlockBound(Now(), i, 0);
      var index := TopBits(buf[0], Width());
      var count := filledList[index];
      if count < LIST_LENGTH {
        var blocks := SelectBlocks(buf, i);
        tupleList := tupleList[index := tupleList[index][count := Tuple(blocks, i)]];
        filledList := filledList[index := count + 1];
      }
    }

    /** The inner loop: the blocks behind the first. */
    method SelectBlocks(buf: seq<nat>, ghost i: nat) returns (blocks: seq<nat>)
      requires Now().Valid() && buf == hash(seed, nonce, i)
      ensures blocks == LaterBlocks(Now(), i, k)
    {
      hide Pow2, TopBits;
      blocks := [];
      for j := 1 to k + 1
        invariant blocks == LaterBlocks(Now(), i, j - 1)
      {
        BlockBound(Now(), i, j);
        blocks := blocks + [TopBits(buf[j], Width())];
      }
    }

    /**
     `FindProof`: the first solution without duplicate inputs that the searches for the nonces come
     to, or an empty proof if there is none.
     */
    method FindProof() returns (proof: Proof)
      requires IsHash(hash) && 1 <= k <= 7 && 1 <= Width() <= 31
      modifies this
      ensures proof.n == n && proof.k == k && proof.seed == seed && 2 <= proof.nonce <= MAX_NONCE
      ensures forall v: nat :: 2 <= v < proof.nonce ==> InVain(Puzzle(hash, n, k, seed, v), FillLength(Width()))
      ensures proof.inputs == [] ==>
        proof.nonce == MAX_NONCE && InVain(Puzzle(hash, n, k, seed, MAX_NONCE), FillLength(Width()))
      ensures proof.inputs != [] ==>
        FirstFound(Puzzle(hash, n, k, seed, proof.nonce), FillLength(Width()), proof)
      ensures proof.inputs != [] ==>
        && Width() < 31 && NoDuplicates(proof.inputs)
        && Solves(Puzzle(hash, n, k, seed, proof.nonce), proof, Pow2(Width() + 1))
        && Cancels(hash, k, n / (k + 1), seed, proof.nonce, proof.inputs)
    {
      hide Pow2, FillLength, Found, Solves, NoDuplicates, Cancels;
      nonce := 1;
      var length := FillLength(Width());
      FillLengthIs(Width());
      while nonce < MAX_NONCE
        invariant 1 <= nonce <= MAX_NONCE
        invariant forall v: nat :: 2 <= v <= nonce ==> InVain(Puzzle(hash, n, k, seed, v), length)
      {
        nonce := nonce + 1;
        SearchNonce(length);
        for i := 0 to |solutions|
          modifies {}
          invariant forall j: nat :: j < i ==> !NoDuplicates(solutions[j].inputs)
        {
          var dup := HasDuplicate(solutions[i].inputs);
          if !dup {
            assert Solves(Now(), solutions[i], length);
            NonEmptyInRange(Now(), solutions[i], length);
            PassesIffCancels(Now(), solutions[i].inputs);
            return solutions[i];
          }
        }
      }
      return Proof(n, k, seed, nonce, []);
    }

    /** The memory is filled and all rounds are done, for the nonce that is set. */
    method SearchNonce(length: nat)
      requires Now().Valid()
      modifies `tupleList, `filledList, `forks, `solutions
      ensures solutions == Found(Now(), length)
    {
      hide MemoryOk, MemoryShaped, Filled, Resolved, LastSolutions;
      InitializeMemory();
      FillMemory(length);
      for i := 1 to k + 1
        invariant i <= k ==> State() == After(Now(), length, i - 1) && solutions == []
        invariant i == k + 1 ==> solutions == Found(Now(), length)
      {
        ResolveCollisions(i == k, length);
      }
    }

    /** Where the loops of `ResolveCollisions` are after `q` collisions. */
    ghost predicate Taken(was: seq<Proof>, store: bool, q: nat, round: Round, length: nat)
      requires Now().Valid() && MemoryShaped(Now(), State()) && |forks| < k
      reads this
    {
      var cs := Collisions(Now(), State());
      var empty := Fresh(|tupleList|, k - |forks| - 1);
      && q <= |cs| && (forall c :: c in cs ==> ValidFork(forks, c.fork, |forks|, length))
      && if store then round == empty && solutions == was + Solutions(Now(), forks, cs, q, length)
         else round == Recording(empty, cs, q) && solutions == was
    }

    /** `ResolveCollisions`: the memory after one more round, or the solutions. */
    method ResolveCollisions(store: bool, ghost length: nat)
      requires Now().Valid() && MemoryOk(Now(), State(), length) && |forks| < k && (store <==> |forks| == k - 1)
      modifies `tupleList, `filledList, `forks, `solutions
      ensures store ==> solutions == old(solutions) + old(LastSolutions(Now(), State(), length))
      ensures store ==> State() == old(Next(State(), Fresh(|tupleList|, 0)))
      ensures !store ==> State() == old(Resolved(Now(), State())) && solutions == old(solutions)
      ensures MemoryOk(Now(), State(), length)
    {
      hide Pow2, ResolveTreeByLevel, ValidFork, TupleOk, Recording, Solutions, CollisionOk, InRow, RoundOk, Fresh;
      var tableLength := |tupleList|;
      assert RowShaped(tupleList[0], k - |forks|);
      var newBlocks := |tupleList[0][0].blocks| - 1;
      var round := Fresh(tableLength, newBlocks);
      CollisionsOk(Now(), State(), length);
      NothingTaken(round, length);
      for i := 0 to tableLength
        modifies `solutions
        invariant Taken(old(solutions), store, |InRows(tupleList, filledList, k - |forks|, i)|, round, length)
      {
        round := ResolveRow(store, i, round, old(solutions), length);
      }
      ResolvedOk(Now(), State(), length);
      FreshOk(Now(), State(), length);
      NewBecomesOk(Now(), State(), Fresh(tableLength, newBlocks), length);
      forks := forks + [round.forks];
      tupleList := round.table;
      filledList := round.filled;
    }

    /** The loops over the pairs of one row. */
    method ResolveRow(store: bool, i: nat, round: Round, ghost was: seq<Proof>, ghost length: nat)
      returns (after: Round)
      requires Now().Valid() && MemoryOk(Now(), State(), length) && |forks| < k && (store <==> |forks| == k - 1)
      requires i < |tupleList| && Taken(was, store, |InRows(tupleList, filledList, k - |forks|, i)|, round, length)
      modifies `solutions
      ensures Taken(was, store, |InRows(tupleList, filledList, k - |forks|, i + 1)|, after, length)
    {
      hide Pow2, Taken, TupleOk, CollisionOf;
      ghost var blocks := k - |forks|;
      ghost var before := |InRows(tupleList, filledList, blocks, i)|;
      after := round;
      for j := 0 to filledList[i]
        modifies `solutions
        invariant Taken(was, store, before + |InRow(tupleList[i], blocks, filledList[i], j)|, after, length)
      {
        for m := j + 1 to filledList[i]
          modifies `solutions
          invariant Taken(was, store, Position(tupleList, filledList, blocks, i, j, m), after, length)
        {
          after := ResolvePair(store, i, j, m, after, was, length);
        }
      }
    }

    /** The body of the innermost loop. */
    method ResolvePair(store: bool, i: nat, j: nat, m: nat, round: Round, ghost was: seq<Proof>, ghost length: nat)
      returns (after: Round)
      requires Now().Valid() && MemoryOk(Now(), State(), length) && |forks| < k && (store <==> |forks| == k - 1)
      requires i < |tupleList| && j < m < filledList[i]
      requires Taken(was, store, Position(tupleList, filledList, k - |forks|, i, j, m), round, length)
      modifies `solutions
      ensures Taken(was, store, Position(tupleList, filledList, k - |forks|, i, j, m + 1), after, length)
    {
      hide Pow2, ResolveTreeByLevel, ValidFork, TupleOk, Xor, XorBlocks, InRows, InRow, AddCollision, Fresh, Sums;
      assert RowShaped(tupleList[i], k - |forks|);
      AtPosition(tupleList, filledList, k - |forks|, i, j, m);
      PairOk(Now(), State(), i, j, m, length);
      var t1, t2 := tupleList[i][j], tupleList[i][m];
      var newIndex := Xor(t1.blocks[0], t2.blocks[0]);
      var newFork := Fork(t1.reference, t2.reference);
      after := round;
      if store {
        if newIndex == 0 {
          var solutionInputs := ResolveTreeByLevel(forks, newFork, |forks|, length);
          solutions := solutions + [Proof(n, k, seed, nonce, solutionInputs)];
        }
      } else {
        var blocks := XorBlocks(t1.blocks[1..], t2.blocks[1..]);
        after := AddCollision(round, Collision(newIndex, newFork, blocks));
      }
    }

    lemma NothingTaken(round: Round, length: nat)
      requires Now().Valid() && MemoryOk(Now(), State(), length) && |forks| < k
      requires round == Fresh(|tupleList|, k - |forks| - 1)
      ensures forall store :: Taken(solutions, store, 0, round, length)
    {
      hide Pow2, ResolveTreeByLevel, ValidFork, TupleOk, Fresh, CollisionOf, Sums;
      CollisionsOk(Now(), State(), length);
    }
  }


  /* ---------------------------------- the duplicate check ---------------------------------- */

  ghost predicate NoDuplicates(s: seq<nat>) {
    forall i, j :: 0 <= i < j < |s| ==> s[i] != s[j]
  }

  predicate Ascending(s: seq<nat>) {
    forall i :: 0 < i < |s| ==> s[i - 1] <= s[i]
  }

  function Insert(x: nat, s: seq<nat>): (r: seq<nat>)
    requires Ascending(s)
    ensures Ascending(r) && multiset(r) == multiset(s) + multiset{x}
    ensures |r| > 0 && (s == [] || r[0] == x || r[0] == s[0])
  {
    if s == [] then [x]
    else if x <= s[0] then [x] + s
    else
      assert s == [s[0]] + s[1..];
      [s[0]] + Insert(x, s[1..])
  }

  /** `std::sort`: the same values in ascending order. */
  function Sorted(s: seq<nat>): (r: seq<nat>)
    ensures Ascending(r) && multiset(r) == multiset(s)
  {
    if s == [] then [] else assert s == [s[0]] + s[1..]; Insert(s[0], Sorted(s[1..]))
  }

  lemma {:induction false} AscendingFar(s: seq<nat>, i: nat, j: nat)
    requires Ascending(s) && i <= j < |s|
    ensures s[i] <= s[j]
    decreases j
  {
    if i < j {
      AscendingFar(s, i, j - 1);
    }
  }

  lemma {:induction false} DuplicateIffCount(s: seq<nat>)
    ensures NoDuplicates(s) <==> forall x :: multiset(s)[x] <= 1
    decreases |s|
  {
    if s == [] {
    } else {
      var n := |s| - 1;
      assert s == s[..n] + [s[n]];
      DuplicateIffCount(s[..n]);
      assert s[n] in s[..n] <==> multiset(s[..n])[s[n]] > 0;
      if NoDuplicates(s) {
        assert s[n] !in s[..n];
      }
      if forall x :: multiset(s)[x] <= 1 {
        forall x
          ensures multiset(s[..n])[x] <= 1
        {
          assert multiset(s)[x] <= 1;
        }
        assert multiset(s)[s[n]] <= 1;
      }
    }
  }

  /** The check after sorting: equal neighbours. */
  method HasDuplicate(inputs: seq<nat>) returns (dup: bool)
    ensures dup <==> !NoDuplicates(inputs)
  {
    hide NoDuplicates, Ascending, Repeats;
    var vec := Sorted(inputs);
    dup := false;
    var i := 0;
    while i + 1 < |vec|
      invariant 0 <= i && (dup <==> exists j: nat :: j < i && Repeats(vec, j))
    {
      RepeatsAt(vec, i);
      if vec[i] == vec[i + 1] {
        dup := true;
      }
      i := i + 1;
    }
    RepeatsInside(vec, i);
    NeighboursTell(vec);
    DuplicateIffCount(vec);
    DuplicateIffCount(inputs);
  }

  /** Two equal neighbours. */
  ghost predicate Repeats(s: seq<nat>, j: nat) {
    j + 1 < |s| && s[j] == s[j + 1]
  }

  lemma RepeatsAt(s: seq<nat>, j: nat)
    requires j + 1 < |s|
    ensures Repeats(s, j) <==> s[j] == s[j + 1]
  {
  }

  lemma RepeatsInside(s: seq<nat>, i: nat)
    requires i + 1 >= |s|
    ensures (exists j: nat :: j < i && Repeats(s, j)) <==> exists j: nat :: Repeats(s, j)
  {
  }

  lemma NeighboursTell(s: seq<nat>)
    requires Ascending(s)
    ensures NoDuplicates(s) <==> forall j: nat :: !Repeats(s, j)
  {
    if forall j: nat :: !Repeats(s, j) {
      forall i, j | 0 <= i < j < |s|
        ensures s[i] != s[j]
      {
        AscendingFar(s, i + 1, j);
        assert s[i] <= s[i + 1] && !Repeats(s, i);
      }
    }
  }

  /* -------------------------------------- the verifier -------------------------------------- */

  /** `Proof::Test`. */
  method Test(hash: Hash, proof: Proof) returns (b: bool)
    requires Puzzle(hash, proof.n, proof.k, proof.seed, proof.nonce).Valid()
    ensures b <==> Passes(Puzzle(hash, proof.n, proof.k, proof.seed, proof.nonce), proof.inputs)
    ensures b <==> Cancels(hash, proof.k, proof.n / (proof.k + 1), proof.seed, proof.nonce, proof.inputs)
  {
    hide XorAll, Xor, Pow2, Cancels;
    var p := Puzzle(hash, proof.n, proof.k, proof.seed, proof.nonce);
    PassesIffCancels(p, proof.inputs);
    var blocks := seq(proof.k + 1, j => 0);
    XorNothing(p);
    for i := 0 to |proof.inputs|
      invariant |blocks| == proof.k + 1 && SumsUpTo(p, proof.inputs[..i], blocks)
    {
      assert proof.inputs[..i + 1] == proof.inputs[..i] + [proof.inputs[i]];
      blocks := AddInput(p, proof.inputs[..i], proof.inputs[i], blocks);
    }
    assert proof.inputs[..|proof.inputs|] == proof.inputs;
    b := true;
    for j := 0 to proof.k + 1
      invariant b <==> forall l: nat :: l < j ==> blocks[l] == 0
    {
      b := b && blocks[j] == 0;
    }
  }

  /** `blocks` has the exclusive or of every block over the inputs. */
  ghost predicate SumsUpTo(p: Puzzle, inputs: seq<nat>, blocks: seq<nat>)
    requires p.Valid() && |blocks| == p.k + 1
  {
    forall j: nat :: j <= p.k ==> blocks[j] == XorAll(p, inputs, j)
  }

  lemma XorNothing(p: Puzzle)
    requires p.Valid()
    ensures forall j: nat :: j <= p.k ==> XorAll(p, [], j) == 0
  {
  }

  lemma XorNext(p: Puzzle, inputs: seq<nat>, input: nat, j: nat)
    requires p.Valid() && j <= p.k
    ensures j < |p.hash(p.seed, p.nonce, input)|
    ensures XorAll(p, inputs + [input], j) == Xor(XorAll(p, inputs, j), p.Block(input, j))
  {
    hide Xor;
    assert (inputs + [input])[..|inputs|] == inputs;
  }

  /** The inner loop of `Proof::Test`. */
  method AddInput(p: Puzzle, ghost inputs: seq<nat>, input: nat, sums: seq<nat>) returns (blocks: seq<nat>)
    requires p.Valid() && |sums| == p.k + 1 && SumsUpTo(p, inputs, sums)
    ensures |blocks| == p.k + 1 && SumsUpTo(p, inputs + [input], blocks)
  {
    hide XorAll, Xor, TopBits;
    var width := p.n / (p.k + 1);
    var buf := p.hash(p.seed, p.nonce, input);
    blocks := sums;
    for j := 0 to p.k + 1
      invariant |blocks| == p.k + 1
      invariant forall l: nat :: l < j ==> blocks[l] == XorAll(p, inputs + [input], l)
      invariant forall l: nat :: j <= l <= p.k ==> blocks[l] == sums[l]
    {
      XorNext(p, inputs, input, j);
      blocks := blocks[j := Xor(blocks[j], TopBits(buf[j], width))];
    }
  }
}
