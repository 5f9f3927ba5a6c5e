/**
 MD5 with its 64-byte buffer and split counter. The reference is section 3 of RFC 1321 on the whole
 message.
 */
module Md5 {
  import opened PowersOfTwo
  import opened ByteValues
  import opened Md5Steps

  const BLOCK: nat := 64
  const W29: nat := 0x2000_0000
  const W32: nat := 0x1_0000_0000
  const W61: nat := W29 * W32

  /* --------------------------------- the standard --------------------------------- */

  function WordAt(b: seq<Byte>, i: nat): Word
    requires 4 * i + 4 <= |b|
  {
    (b[4 * i] as Word) | ((b[4 * i + 1] as Word) << 8) | ((b[4 * i + 2] as Word) << 16) | ((b[4 * i + 3] as Word) << 24)
  }

  /** Four bytes as a number, low byte first. */
  function Number(b: seq<Byte>, i: nat): nat
    requires i + 4 <= |b|
  {
    b[i] as nat + 0x100 * (b[i + 1] as nat) + 0x1_0000 * (b[i + 2] as nat) + 0x100_0000 * (b[i + 3] as nat)
  }

  /** `rest` with the byte `p` below it. */
  function Below(p: Byte, rest: Word): Word { (p as Word) | (rest << 8) }

  lemma BelowIs(p: Byte, rest: Word)
    requires rest < 0x100_0000
    ensures Below(p, rest) as nat == p as nat + 0x100 * (rest as nat)
  {
    assert ((p as Word) | (rest << 8)) as nat == p as nat + 0x100 * (rest as nat);
  }

  function FourBelow(b0: Byte, b1: Byte, b2: Byte, b3: Byte): Word {
    Below(b0, Below(b1, Below(b2, b3 as Word)))
  }

  lemma FourBelowIs(b0: Byte, b1: Byte, b2: Byte, b3: Byte)
    ensures FourBelow(b0, b1, b2, b3) as nat ==
      b0 as nat + 0x100 * (b1 as nat) + 0x1_0000 * (b2 as nat) + 0x100_0000 * (b3 as nat)
  {
    var r2 := Below(b2, b3 as Word);
    var r1 := Below(b1, r2);
    BelowBounds(b1, b2, b3);
    hide Below;
    BelowIs(b2, b3 as Word);
    BelowIs(b1, r2);
    BelowIs(b0, r1);
  }

  lemma BelowBounds(b1: Byte, b2: Byte, b3: Byte)
    ensures var r2 := Below(b2, b3 as Word); var r1 := Below(b1, r2);
      (b3 as Word) < 0x100_0000 && r2 < 0x100_0000 && r1 < 0x100_0000
    ensures (b3 as Word) as nat == b3 as nat
  {
  }

  lemma ByByte(b: seq<Byte>, i: nat)
    requires 4 * i + 4 <= |b|
    ensures WordAt(b, i) == FourBelow(b[4 * i], b[4 * i + 1], b[4 * i + 2], b[4 * i + 3])
  {
  }

  lemma WordAtIs(b: seq<Byte>, i: nat)
    requires 4 * i + 4 <= |b|
    ensures WordAt(b, i) as nat == Number(b, 4 * i)
  {
    hide FourBelow, WordAt;
    ByByte(b, i);
    FourBelowIs(b[4 * i], b[4 * i + 1], b[4 * i + 2], b[4 * i + 3]);
  }

  function WordsOf(b: seq<Byte>): (x: seq<Word>)
    requires |b| == BLOCK
    ensures |x| == 16
  {
    seq(16, i requires 0 <= i < 16 && |b| == BLOCK => WordAt(b, i))
  }

  /** Section 2: word `i` of a block is bytes `4 * i` to `4 * i + 3`, low byte first. */
  lemma WordsAre(b: seq<Byte>)
    requires |b| == BLOCK
    ensures forall i: nat :: i < 16 ==> WordsOf(b)[i] as nat == Number(b, 4 * i)
  {
    forall i: nat | i < 16
      ensures WordsOf(b)[i] as nat == Number(b, 4 * i)
    {
      WordAtIs(b, i);
    }
  }

  function AddRegs(r: Regs, s: Regs): Regs {
    Regs(Add(r.a, s.a), Add(r.b, s.b), Add(r.c, s.c), Add(r.d, s.d))
  }

  /** Section 3.4 on one block. */
  function Process(r: Regs, block: seq<Byte>): Regs
    requires |block| == BLOCK
  {
    AddRegs(Operations(r, WordsOf(block), 64), r)
  }

  /** Section 3.4 on whole blocks. */
  function Chain(r: Regs, p: seq<Byte>): Regs
    requires |p| % BLOCK == 0
    decreases |p|
  {
    if p == [] then r else var n := |p| - BLOCK; Process(Chain(r, p[..n]), p[n..])
  }

  /** Section 3.3. */
  const INITIAL: Regs := Regs(0x67452301, 0xefcdab89, 0x98badcfe, 0x10325476)

  function Zeros(n: nat): (z: seq<Byte>)
    ensures |z| == n
  {
    seq(n, _ => 0)
  }

  lemma ZerosAre(n: nat)
    ensures forall k: nat :: k < n ==> Zeros(n)[k] == 0
  {
  }

  /** The low four bytes of a number, low byte first. */
  function Low4(n: nat): (b: seq<Byte>)
    ensures |b| == 4
  {
    [(n % 256) as Byte, (n / 0x100 % 256) as Byte, (n / 0x1_0000 % 256) as Byte, (n / 0x100_0000 % 256) as Byte]
  }

  lemma Low4Is(n: nat)
    ensures Number(Low4(n), 0) == n % W32
  {
    var a, b, c := n / 0x100, n / 0x1_0000, n / 0x100_0000;
    ByteBack(n % 256);
    ByteBack(a % 256);
    ByteBack(b % 256);
    ByteBack(c % 256);
    FourBytes(n, a, b, c);
  }

  lemma FourBytes(n: nat, a: nat, b: nat, c: nat)
    requires a == n / 0x100 && b == n / 0x1_0000 && c == n / 0x100_0000
    ensures n % 0x100 + 0x100 * (a % 0x100) + 0x1_0000 * (b % 0x100) + 0x100_0000 * (c % 0x100) == n % W32
  {
    assert n == 0x100 * a + n % 0x100 && a == 0x100 * b + a % 0x100 && b == 0x100 * c + b % 0x100;
    assert c == 0x100 * (c / 0x100) + c % 0x100;
    DivUnique(n, W32, c / 0x100, n % 0x100 + 0x100 * (a % 0x100) + 0x1_0000 * (b % 0x100) + 0x100_0000 * (c % 0x100));
  }

  /** How many zeros bring `n` bytes, the one bit and the length to whole blocks. */
  function ZeroFill(n: nat): (z: nat)
    ensures (n + 1 + z + 8) % BLOCK == 0
  {
    (55 - n) % BLOCK
  }

  /** Sections 3.1 and 3.2: a one bit, zeros up to 56 bytes modulo 64, and the length in bits in eight bytes. */
  function Padded(msg: seq<Byte>): (p: seq<Byte>)
    ensures |p| % BLOCK == 0
  {
    var z := ZeroFill(|msg|);
    var p := msg + [0x80] + Zeros(z) + Low4(8 * |msg|) + Low4(8 * |msg| / W32);
    assert |p| == |msg| + 1 + z + 8;
    p
  }

  function Bytes4(x: Word): (b: seq<Byte>)
    ensures |b| == 4
  {
    [(x & 0xFF) as Byte, ((x >> 8) & 0xFF) as Byte, ((x >> 16) & 0xFF) as Byte, ((x >> 24) & 0xFF) as Byte]
  }

  /** Section 3.5. */
  function Output(r: Regs): (d: seq<Byte>)
    ensures |d| == 16
  {
    Bytes4(r.a) + Bytes4(r.b) + Bytes4(r.c) + Bytes4(r.d)
  }

  /** The registers in order, read back as words are read from a block. */
  ghost predicate Digests(d: seq<Byte>, r: Regs) {
    && |d| == 16
    && Number(d, 0) == r.a as nat && Number(d, 4) == r.b as nat
    && Number(d, 8) == r.c as nat && Number(d, 12) == r.d as nat
  }

  lemma Bytes4Is(x: Word, b: seq<Byte>, i: nat)
    requires 4 * i + 4 <= |b| && b[4 * i..4 * i + 4] == Bytes4(x)
    ensures Number(b, 4 * i) == x as nat
  {
    WordAtIs(b, i);
    var d := b[4 * i..4 * i + 4];
    assert d[0] == b[4 * i] && d[1] == b[4 * i + 1] && d[2] == b[4 * i + 2] && d[3] == b[4 * i + 3];
    WordRead(x, b, i);
  }

  lemma WordRead(x: Word, b: seq<Byte>, i: nat)
    requires 4 * i + 4 <= |b|
    requires [b[4 * i], b[4 * i + 1], b[4 * i + 2], b[4 * i + 3]] == Bytes4(x)
    ensures WordAt(b, i) == x
  {
  }

  /** Section 3.5: register a first, and the low byte of each register first. */
  lemma OutputIs(r: Regs)
    ensures Digests(Output(r), r)
  {
    hide Bytes4, Number;
    Bytes4Is(r.a, Output(r), 0);
    Bytes4Is(r.b, Output(r), 1);
    Bytes4Is(r.c, Output(r), 2);
    Bytes4Is(r.d, Output(r), 3);
  }

  function Digest(msg: seq<Byte>): (d: seq<Byte>)
    ensures |d| == 16
  {
    Output(Chain(INITIAL, Padded(msg)))
  }

  lemma ChainOn(r: Regs, p: seq<Byte>, block: seq<Byte>)
    requires |p| % BLOCK == 0 && |block| == BLOCK
    ensures Chain(r, p + block) == Process(Chain(r, p), block)
  {
    hide Process;
    assert (p + block)[..|p|] == p && (p + block)[|p|..] == block;
  }

  lemma ChainNone(r: Regs)
    ensures Chain(r, []) == r
  {
  }

  lemma OperationsNone(r: Regs, x: seq<Word>)
    requires |x| == 16
    ensures Operations(r, x, 0) == r
  {
  }

  /** Blocks can be taken in two goes. */
  lemma {:induction false} ChainJoin(r: Regs, p: seq<Byte>, q: seq<Byte>)
    requires |p| % BLOCK == 0 && |q| % BLOCK == 0
    ensures Chain(r, p + q) == Chain(Chain(r, p), q)
    decreases |q|
  {
    hide Process, Chain;
    if q == [] {
      assert p + q == p;
      ChainNone(Chain(r, p));
    } else {
      var n := |q| - BLOCK;
      ChainJoin(r, p, q[..n]);
      ChainOn(Chain(r, p), q[..n], q[n..]);
      ChainOn(r, p + q[..n], q[n..]);
      assert q == q[..n] + q[n..] && p + q == (p + q[..n]) + q[n..];
    }
  }

  /* ---------------------------------- the counter ---------------------------------- */

  /** The first lines of `UpdateDigest`: 29 bits in `lo`, the rest in `hi`. */
  method Count(lo: nat, hi: nat, size: nat) returns (lo1: nat, hi1: nat)
    requires lo < W29 && hi < W32 && size < W32
    ensures lo1 < W29 && hi1 < W32
    ensures lo1 + W29 * hi1 == (lo + W29 * hi + size) % W61
  {
    lo1 := (lo + size) % W32 % W29;
    hi1 := hi;
    if lo1 < lo {
      hi1 := (hi1 + 1) % W32;
    }
    hi1 := (hi1 + size / W29) % W32;
    Carried(lo, hi, size);
  }

  lemma Carried(lo: nat, hi: nat, size: nat)
    requires lo < W29 && hi < W32 && size < W32
    ensures var lo1 := (lo + size) % W32 % W29;
      var hi1 := ((if lo1 < lo then (hi + 1) % W32 else hi) + size / W29) % W32;
      lo1 + W29 * hi1 == (lo + W29 * hi + size) % W61
  {
    var q, rest := size / W29, size % W29;
    assert size == W29 * q + rest && q < 8;
    LowBits(lo, q, rest);
    CarriedParts(lo, hi, q, rest);
  }

  lemma CarriedParts(lo: nat, hi: nat, q: nat, rest: nat)
    requires lo < W29 && hi < W32 && q < 8 && rest < W29
    ensures var lo1 := (lo + rest) % W29;
      var hi1 := ((if lo1 < lo then (hi + 1) % W32 else hi) + q) % W32;
      lo1 + W29 * hi1 == (lo + W29 * hi + (W29 * q + rest)) % W61
  {
    var lo1 := (lo + rest) % W29;
    if lo + rest >= W29 {
      assert lo1 == lo + rest - W29;
      AddAfter(hi, q);
      Wrapped(lo1, hi + 1 + q);
    } else {
      assert lo1 == lo + rest;
      Wrapped(lo1, hi + q);
    }
  }

  lemma AddAfter(hi: nat, q: nat)
    ensures ((hi + 1) % W32 + q) % W32 == (hi + 1 + q) % W32
  {
  }

  lemma LowBits(lo: nat, q: nat, rest: nat)
    requires lo < W29 && rest < W29 && q < 8
    ensures (lo + (W29 * q + rest)) % W32 % W29 == (lo + rest) % W29
  {
  }

  lemma Wrapped(lo: nat, hi: nat)
    requires lo < W29 && hi < 2 * W32
    ensures lo + W29 * (hi % W32) == (lo + W29 * hi) % W61
  {
  }

  lemma CountOn(n: nat, size: nat)
    ensures (n % W61 + size) % W61 == (n + size) % W61
  {
  }

  method AddSaved(r: Regs, saved: Regs) returns (sum: Regs)
    ensures sum == AddRegs(r, saved)
  {
    hide Add, Plus;
    AddIs(saved.a);
    AddIs(saved.b);
    AddIs(saved.c);
    AddIs(saved.d);
    sum := Regs(Plus(r.a, saved.a), Plus(r.b, saved.b), Plus(r.c, saved.c), Plus(r.d, saved.d));
  }

  /* ---------------------------------- the class ---------------------------------- */

  class CMD5 {
    var lo: nat
    var hi: nat
    var regs: Regs
    const buffer: array<Byte>

    // Everything fed since `InitDigest`.
    ghost var fed: seq<Byte>

    constructor ()
      ensures fresh(buffer) && buffer.Length == BLOCK
    {
      buffer := new Byte[BLOCK];
    }

    /** Bytes waiting in the buffer. */
    ghost function Held(): nat
      reads `fed
    {
      |fed| % BLOCK
    }

    /** The split counter holds the number of bytes fed. */
    ghost predicate Counted(n: nat)
      reads `lo, `hi
    {
      lo < W29 && hi < W32 && lo + W29 * hi == n % W61
    }

    /** The registers have taken in all whole blocks, and the buffer has the rest. */
    ghost predicate Hashed()
      reads `regs, `fed, buffer
    {
      && buffer.Length == BLOCK
      && regs == Chain(INITIAL, fed[..|fed| - Held()])
      && buffer[..Held()] == fed[|fed| - Held()..]
    }

    ghost predicate Valid()
      reads this, buffer
    {
      Counted(|fed|) && Hashed()
    }

    method InitDigest()
      requires buffer.Length == BLOCK
      modifies this
      ensures Valid() && fed == []
    {
      regs := Regs(0x67452301, 0xefcdab89, 0x98badcfe, 0x10325476);
      lo, hi := 0, 0;
      fed := [];
    }

    /** One or more whole blocks. */
    method DoBody(data: seq<Byte>)
      requires |data| > 0 && |data| % BLOCK == 0
      modifies `regs
      ensures regs == Chain(old(regs), data)
    {
      hide Chain, Operations;
      var ptr, size := 0, |data|;
      ghost var before := regs;
      ChainNone(before);
      while true
        invariant 0 < size && 0 <= ptr && ptr + size == |data| && ptr % BLOCK == 0
        invariant regs == Chain(before, data[..ptr])
        decreases size
      {
        var saved := regs;
        var block := data[ptr..ptr + BLOCK];
        var x := WordsOf(block);
        OperationsNone(saved, x);
        var r := FirstRound(saved, x, saved);
        r := SecondRound(r, x, saved);
        r := ThirdRound(r, x, saved);
        r := FourthRound(r, x, saved);
        regs := AddSaved(r, saved);
        assert data[..ptr] + block == data[..ptr + BLOCK];
        ChainOn(before, data[..ptr], block);
        ptr := ptr + BLOCK;
        size := size - BLOCK;
        if size == 0 { break; }
      }
      assert data[..ptr] == data;
    }

    /** `memcpy( &m_buffer[used], … )`. */
    method Store(used: nat, data: seq<Byte>)
      requires buffer.Length == BLOCK && used + |data| <= BLOCK
      modifies buffer
      ensures buffer[..used + |data|] == old(buffer[..used]) + data
    {
      forall i | 0 <= i < |data| {
        buffer[used + i] := data[i];
      }
    }

    /** `UpdateDigest`: whatever has been fed, `data` comes after it. */
    method UpdateDigest(data: seq<Byte>)
      requires Valid() && |data| < W32
      modifies this, buffer
      ensures Valid() && fed == old(fed) + data
    {
      hide Hashed, Taken;
      var savedLo := lo;
      lo, hi := Count(lo, hi, |data|);
      CountOn(|fed|, |data|);
      HeldIs(savedLo, old(hi), |fed|);
      var used := savedLo % BLOCK;
      if used != 0 && |data| < BLOCK - used {
        Append(used, data);
      } else {
        var pos := 0;
        if used != 0 {
          Complete(used, data);
          pos := BLOCK - used;
        } else {
          NothingHeld(data);
        }
        Rest(data, pos);
      }
    }

    lemma NothingHeld(data: seq<Byte>)
      requires Hashed() && Held() == 0
      ensures Taken(fed + data, |fed|) && buffer.Length == BLOCK
    {
      assert (fed + data)[..|fed|] == fed[..|fed|];
    }

    /** The first `n` bytes of `whole` are whole blocks and are in the registers. */
    ghost predicate Taken(whole: seq<Byte>, n: nat)
      reads `regs
    {
      n <= |whole| && n % BLOCK == 0 && regs == Chain(INITIAL, whole[..n])
    }

    /** The block is still not complete. */
    method Append(used: nat, data: seq<Byte>)
      requires Hashed() && used == Held() && used + |data| < BLOCK
      modifies buffer, `fed
      ensures Hashed() && fed == old(fed) + data
    {
      hide Chain;
      ghost var n := |fed| - used;
      Store(used, data);
      assert (fed + data)[..n] == fed[..n] && (fed + data)[n..] == fed[n..] + data;
      StillHeld(|fed|, |data|);
      fed := fed + data;
    }

    /** The block is completed and processed. */
    method Complete(used: nat, data: seq<Byte>)
      requires Hashed() && used == Held() > 0 && used + |data| >= BLOCK
      modifies buffer, `regs
      ensures buffer.Length == BLOCK && Taken(fed + data, |fed| + BLOCK - used)
    {
      hide Chain;
      ghost var n := |fed| - used;
      var available := BLOCK - used;
      Store(used, data[..available]);
      DoBody(buffer[..]);
      assert buffer[..] == fed[n..] + data[..available];
      assert (fed + data)[..n + BLOCK] == fed[..n] + buffer[..];
      ChainJoin(INITIAL, fed[..n], buffer[..]);
    }

    /** Whole blocks are processed, what is left is kept. */
    method Rest(data: seq<Byte>, pos: nat)
      requires buffer.Length == BLOCK && pos <= |data| && Taken(fed + data, |fed| + pos)
      modifies buffer, `regs, `fed
      ensures Hashed() && fed == old(fed) + data
    {
      hide Chain;
      ghost var whole, n := fed + data, |fed| + pos;
      var size := |data| - pos;
      var body := size / BLOCK * BLOCK;
      if size >= BLOCK {
        DoBody(data[pos..pos + body]);
        assert whole[..n + body] == whole[..n] + data[pos..pos + body];
        ChainJoin(INITIAL, whole[..n], data[pos..pos + body]);
      }
      size := size % BLOCK;
      Store(0, data[pos + body..]);
      assert data[pos + body..] == whole[n + body..];
      HeldAfter(n, body, size);
      fed := whole;
    }

    /** `GetDigest`: the digest of everything fed, however it was split. */
    method GetDigest(destLen: nat) returns (dest: seq<Byte>)
      requires Valid()
      modifies this, buffer
      ensures destLen < 16 ==> dest == [] && Valid() && fed == old(fed)
      ensures destLen >= 16 ==> dest == Digest(old(fed)) && Digests(dest, Chain(INITIAL, Padded(old(fed))))
      ensures destLen >= 16 ==> lo == 0 && hi == 0 && regs == Regs(0, 0, 0, 0) && buffer[..] == Zeros(buffer.Length)
    {
      hide Chain, Hashed, Padded, Output, Digests;
      if destLen < 16 { return []; }
      HeldIs(lo, hi, |fed|);
      Finish();
      OutputIs(regs);
      dest := Output(regs);
      lo, hi := 0, 0;
      regs := Regs(0, 0, 0, 0);
      forall i | 0 <= i < buffer.Length {
        buffer[i] := 0;
      }
    }

    /** Pads the buffer and processes its one or two blocks. */
    method Finish()
      requires Valid() && lo % BLOCK == Held()
      modifies `regs, `lo, buffer
      ensures regs == Chain(INITIAL, Padded(fed))
    {
      hide Chain, Padded, Low4, Zeros, Marked;
      ghost var taken, marked;
      var available;
      available, taken := Mark();
      marked := buffer[..];
      MarkedRoom(fed, marked, available, taken);
      LengthBytes(lo, hi, |fed|);
      AppendLength(available);
      PaddedEnd(fed, marked, available, taken);
      DoBody(buffer[..]);
      ChainJoin(INITIAL, taken, buffer[..]);
    }

    /** Zeros up to the last eight bytes, and the length in bits in them. */
    method AppendLength(available: nat)
      requires buffer.Length == BLOCK && 8 <= available <= BLOCK
      modifies `lo, buffer
      ensures buffer[..] ==
        old(buffer[..BLOCK - available]) + Zeros(available - 8) + (Low4(8 * old(lo) % W32) + Low4(hi))
    {
      hide Low4, Zeros;
      Store(BLOCK - available, Zeros(available - 8));
      lo := 8 * lo % W32;
      Store(56, Low4(lo));
      Store(60, Low4(hi));
    }

    /** The one bit, and a block of zeros after it when the length has no room. */
    method Mark() returns (available: nat, ghost taken: seq<Byte>)
      requires Valid() && lo % BLOCK == Held()
      modifies `regs, buffer
      ensures |taken| % BLOCK == 0 && regs == Chain(INITIAL, taken)
      ensures Marked(fed, buffer[..], available, taken)
    {
      hide Chain, Zeros;
      var used := lo % BLOCK;
      ghost var n := |fed| - used;
      Store(used, [0x80]);
      used := used + 1;
      available := BLOCK - used;
      taken := fed[..n];
      if available < 8 {
        Store(used, Zeros(available));
        DoBody(buffer[..]);
        ChainJoin(INITIAL, taken, buffer[..]);
        taken := taken + buffer[..];
        used := 0;
        available := BLOCK;
      }
    }
  }

  /** The padding before the length: it fits into the first block or does not. */
  ghost predicate Marked(msg: seq<Byte>, b: seq<Byte>, available: nat, taken: seq<Byte>) {
    var u := |msg| % BLOCK;
    var n := |msg| - u;
    && |b| == BLOCK
    && if u < 56 then available == 63 - u && taken == msg[..n] && b[..u + 1] == msg[n..] + [0x80]
       else available == BLOCK && taken == msg[..n] + (msg[n..] + [0x80] + Zeros(63 - u))
  }

  lemma MarkedRoom(msg: seq<Byte>, b: seq<Byte>, available: nat, taken: seq<Byte>)
    requires Marked(msg, b, available, taken)
    ensures |b| == BLOCK && 8 <= available <= BLOCK
  {
  }

  /** With the length behind it, the marked block ends the padded message. */
  lemma PaddedEnd(msg: seq<Byte>, b: seq<Byte>, available: nat, taken: seq<Byte>)
    requires Marked(msg, b, available, taken) && |b| == BLOCK && 8 <= available <= BLOCK
    ensures taken + (b[..BLOCK - available] + Zeros(available - 8) + (Low4(8 * |msg|) + Low4(8 * |msg| / W32))) ==
      Padded(msg)
  {
    hide Low4, Zeros, Padded;
    var u := |msg| % BLOCK;
    var length := Low4(8 * |msg|) + Low4(8 * |msg| / W32);
    PaddedParts(msg, u, length);
    EndOfBlock(msg, msg[|msg| - u..], u, b, available, taken, length);
  }

  lemma EndOfBlock(
    msg: seq<Byte>, last: seq<Byte>, u: nat, b: seq<Byte>, available: nat, taken: seq<Byte>, length: seq<Byte>)
    requires |b| == BLOCK && 8 <= available <= BLOCK && u < BLOCK && u <= |msg|
    requires if u < 56 then available == 63 - u && b[..u + 1] == last + [0x80] else available == BLOCK
    ensures taken + (b[..BLOCK - available] + Zeros(available - 8) + length) ==
      if u < 56 then taken + (last + [0x80] + Zeros(55 - u) + length) else taken + (Zeros(56) + length)
  {
    hide Zeros;
    if u >= 56 {
      assert b[..0] + Zeros(56) == Zeros(56);
    }
  }

  /** The counter yields the length in bits. */
  lemma LengthBytes(lo: nat, hi: nat, n: nat)
    requires lo < W29 && hi < W32 && lo + W29 * hi == n % W61
    ensures Low4(8 * lo % W32) == Low4(8 * n) && Low4(hi) == Low4(8 * n / W32)
  {
    hide Low4;
    var q := n / W61;
    assert 8 * n == 8 * lo + W32 * (hi + W32 * q);
    Low4Mod(8 * lo, hi + W32 * q);
    Low4Mod(hi, q);
    assert 8 * n / W32 == hi + W32 * q;
  }

  lemma Low4Mod(n: nat, q: nat)
    ensures Low4(n + W32 * q) == Low4(n)
  {
    Low4Bytes(n, q);
  }

  lemma Low4Bytes(n: nat, q: nat)
    ensures var m := n + W32 * q;
      m % 256 == n % 256 && m / 0x100 % 256 == n / 0x100 % 256 && m / 0x1_0000 % 256 == n / 0x1_0000 % 256
      && m / 0x100_0000 % 256 == n / 0x100_0000 % 256
  {
    ByteKept(n, 1, 0x100_0000, q);
    ByteKept(n, 0x100, 0x1_0000, q);
    ByteKept(n, 0x1_0000, 0x100, q);
    ByteKept(n, 0x100_0000, 1, q);
  }

  /** A multiple of `256 * d` does not change the byte above `d`. */
  lemma ByteKept(n: nat, d: nat, e: nat, q: nat)
    requires d > 0 && d * e == 0x100_0000
    ensures (n + W32 * q) / d % 256 == n / d % 256
  {
    var r, x := n / d, e * q;
    MulThree(d, e, q);
    MulSum(d, r, 256 * x);
    DivUnique(n + W32 * q, d, r + 256 * x, n % d);
    AddMultiple(r, x);
  }

  lemma MulThree(d: nat, e: nat, q: nat)
    requires d * e == 0x100_0000
    ensures d * (256 * (e * q)) == W32 * q
  {
    assert d * (e * q) == (d * e) * q;
  }

  lemma MulSum(d: nat, r: nat, y: nat)
    ensures d * (r + y) == d * r + d * y
  {
  }

  lemma AddMultiple(r: nat, x: nat)
    ensures (r + 256 * x) % 256 == r % 256
  {
  }

  /** The padded message ends in one block or two. */
  lemma PaddedParts(msg: seq<Byte>, u: nat, length: seq<Byte>)
    requires u == |msg| % BLOCK && length == Low4(8 * |msg|) + Low4(8 * |msg| / W32)
    ensures var n := |msg| - u;
      Padded(msg) ==
        if u < 56 then msg[..n] + (msg[n..] + [0x80] + Zeros(55 - u) + length)
        else (msg[..n] + (msg[n..] + [0x80] + Zeros(63 - u))) + (Zeros(56) + length)
  {
    hide Low4;
    var n := |msg| - u;
    assert msg == msg[..n] + msg[n..];
    ZeroCount(|msg|);
    if u >= 56 {
      assert Zeros(119 - u) == Zeros(63 - u) + Zeros(56);
    }
  }

  lemma ZeroCount(m: nat)
    ensures ZeroFill(m) == if m % BLOCK < 56 then 55 - m % BLOCK else 119 - m % BLOCK
  {
  }

  lemma HeldIs(lo: nat, hi: nat, n: nat)
    requires lo < W29 && hi < W32 && lo + W29 * hi == n % W61
    ensures lo % BLOCK == n % BLOCK
  {
    var k := n / W61;
    var c := W61 / BLOCK * k + W29 / BLOCK * hi;
    assert n == lo + BLOCK * c;
    WholeBlocks(lo, c);
  }

  lemma WholeBlocks(a: nat, c: nat)
    ensures (a + BLOCK * c) % BLOCK == a % BLOCK
  {
  }

  lemma StillHeld(n: nat, m: nat)
    requires n % BLOCK + m < BLOCK
    ensures (n + m) % BLOCK == n % BLOCK + m
  {
  }

  lemma HeldAfter(n: nat, body: nat, size: nat)
    requires n % BLOCK == 0 && body % BLOCK == 0 && size < BLOCK
    ensures (n + body + size) % BLOCK == size
  {
  }
}
