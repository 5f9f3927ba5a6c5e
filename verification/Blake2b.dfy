/**
 BLAKE2b: compression, the streaming interface with its lazy double-block buffer, and the
 variable-length hash built on it. The references are section 3 of RFC 7693 and section 3.3 of
 RFC 9106.
 */
module Blake2b {
  import opened ByteValues
  import opened Blake2bRound

  type Byte = bv8

  const BLOCK: nat := 128
  const OUT: nat := 64
  const W64: nat := 0x1_0000_0000_0000_0000
  const W128: nat := W64 * W64

  const IV: seq<Word> := [
    0x6a09e667f3bcc908, 0xbb67ae8584caa73b, 0x3c6ef372fe94f82b, 0xa54ff53a5f1d36f1,
    0x510e527fade682d1, 0x9b05688c2b3e6c1f, 0x1f83d9abfb41bd6b, 0x5be0cd19137e2179
  ]

  /** Section 2.6 of RFC 7693: the first 64 bits of the fraction of the square root of `prime`. */
  ghost predicate FractionOfRoot(v: nat, prime: nat, whole: nat) {
    var root := whole * W64 + v;
    v < W64 && root * root <= prime * W128 < (root + 1) * (root + 1)
  }

  lemma IVIs()
    ensures FractionOfRoot(IV[0] as nat, 2, 1) && FractionOfRoot(IV[1] as nat, 3, 1)
    ensures FractionOfRoot(IV[2] as nat, 5, 2) && FractionOfRoot(IV[3] as nat, 7, 2)
    ensures FractionOfRoot(IV[4] as nat, 11, 3) && FractionOfRoot(IV[5] as nat, 13, 3)
    ensures FractionOfRoot(IV[6] as nat, 17, 4) && FractionOfRoot(IV[7] as nat, 19, 4)
  {
  }

  /* --------------------------------- bytes and words --------------------------------- */

  /** The little-endian word at byte `8 * i`. */
  function WordAt(b: seq<Byte>, i: nat): Word
    requires 8 * i + 8 <= |b|
  {
    Pack(b[8 * i], b[8 * i + 1], b[8 * i + 2], b[8 * i + 3], b[8 * i + 4], b[8 * i + 5], b[8 * i + 6], b[8 * i + 7])
  }

  function Pack(b0: Byte, b1: Byte, b2: Byte, b3: Byte, b4: Byte, b5: Byte, b6: Byte, b7: Byte): Word {
    FromBytes(b0 as Word, b1 as Word, b2 as Word, b3 as Word, b4 as Word, b5 as Word, b6 as Word, b7 as Word)
  }

  /** Eight bytes as a number, low byte first. */
  function Number(b: seq<Byte>, i: nat): nat
    requires i + 8 <= |b|
  {
    b[i] as nat + 0x100 * (b[i + 1] as nat) + 0x1_0000 * (b[i + 2] as nat) + 0x100_0000 * (b[i + 3] as nat)
    + 0x1_0000_0000 * (b[i + 4] as nat) + 0x100_0000_0000 * (b[i + 5] as nat)
    + 0x1_0000_0000_0000 * (b[i + 6] as nat) + 0x100_0000_0000_0000 * (b[i + 7] as nat)
  }

  /** `rest` with the byte `p` below it. */
  function Below(p: Byte, rest: Word): Word { (p as Word) | (rest << 8) }

  lemma BelowIs(p: Byte, rest: Word)
    requires rest < 0x100_0000_0000_0000
    ensures Below(p, rest) as nat == p as nat + 0x100 * (rest as nat)
  {
    assert ((p as Word) | (rest << 8)) as nat == p as nat + 0x100 * (rest as nat);
  }

  function FourBelow(b0: Byte, b1: Byte, b2: Byte, b3: Byte, rest: Word): Word {
    Below(b0, Below(b1, Below(b2, Below(b3, rest))))
  }

  lemma FourBelowIs(b0: Byte, b1: Byte, b2: Byte, b3: Byte, rest: Word)
    requires rest < 0x1_0000_0000
    ensures FourBelow(b0, b1, b2, b3, rest) as nat ==
      b0 as nat + 0x100 * (b1 as nat) + 0x1_0000 * (b2 as nat) + 0x100_0000 * (b3 as nat)
      + 0x1_0000_0000 * (rest as nat)
  {
    var r3 := Below(b3, rest);
    var r2 := Below(b2, r3);
    var r1 := Below(b1, r2);
    BelowBounds(b1, b2, b3, rest);
    hide Below;
    BelowIs(b3, rest);
    BelowIs(b2, r3);
    BelowIs(b1, r2);
    BelowIs(b0, r1);
  }

  lemma BelowBounds(b1: Byte, b2: Byte, b3: Byte, rest: Word)
    requires rest < 0x1_0000_0000
    ensures var r3 := Below(b3, rest); var r2 := Below(b2, r3); var r1 := Below(b1, r2);
      r3 < 0x100_0000_0000_0000 && r2 < 0x100_0000_0000_0000 && r1 < 0x100_0000_0000_0000
  {
  }

  lemma PackByByte(b0: Byte, b1: Byte, b2: Byte, b3: Byte, b4: Byte, b5: Byte, b6: Byte, b7: Byte)
    ensures FourBelow(b4, b5, b6, b7, 0) < 0x1_0000_0000
    ensures Pack(b0, b1, b2, b3, b4, b5, b6, b7) == FourBelow(b0, b1, b2, b3, FourBelow(b4, b5, b6, b7, 0))
  {
    FourAsShifts(b4, b5, b6, b7, 0);
    hide FourBelow;
    FourAsShifts(b0, b1, b2, b3, FourBelow(b4, b5, b6, b7, 0));
  }

  lemma FourAsShifts(b0: Byte, b1: Byte, b2: Byte, b3: Byte, rest: Word)
    ensures FourBelow(b0, b1, b2, b3, rest) ==
      (b0 as Word) | ((b1 as Word) << 8) | ((b2 as Word) << 16) | ((b3 as Word) << 24) | (rest << 32)
  {
  }

  lemma WordAtIs(b: seq<Byte>, i: nat)
    requires 8 * i + 8 <= |b|
    ensures WordAt(b, i) as nat == Number(b, 8 * i)
  {
    hide Pack, FourBelow;
    var j := 8 * i;
    PackByByte(b[j], b[j + 1], b[j + 2], b[j + 3], b[j + 4], b[j + 5], b[j + 6], b[j + 7]);
    var high := FourBelow(b[j + 4], b[j + 5], b[j + 6], b[j + 7], 0);
    FourBelowIs(b[j + 4], b[j + 5], b[j + 6], b[j + 7], 0);
    FourBelowIs(b[j], b[j + 1], b[j + 2], b[j + 3], high);
  }

  function Narrow(x: Word, i: nat): Byte
    requires i < 8
  {
    WordByte(x, i) as Byte
  }

  function WordsOf(b: seq<Byte>): (w: seq<Word>)
    requires |b| % 8 == 0
    ensures |w| == |b| / 8
  {
    seq(|b| / 8, i requires 0 <= i < |b| / 8 => WordAt(b, i))
  }

  /** The words in memory, little-endian. */
  function BytesOf(w: seq<Word>): (b: seq<Byte>)
    ensures |b| == 8 * |w|
  {
    seq(8 * |w|, i requires 0 <= i < 8 * |w| => ByteAt(w, i))
  }

  function ByteAt(w: seq<Word>, i: nat): Byte
    requires i < 8 * |w|
  {
    Narrow(w[i / 8], i % 8)
  }

  /** Word `i` of a block is bytes `8 * i` to `8 * i + 7`, low byte first. */
  lemma WordsAre(b: seq<Byte>, i: nat)
    requires |b| % 8 == 0 && i < |b| / 8
    ensures WordsOf(b)[i] as nat == Number(b, 8 * i)
  {
    hide WordAt, Number;
    WordAtIs(b, i);
  }

  /** In memory the low byte of each word comes first. */
  lemma BytesAre(w: seq<Word>, i: nat)
    requires i < |w|
    ensures Number(BytesOf(w), 8 * i) == w[i] as nat
  {
    hide Pack, Narrow, Number;
    var b := BytesOf(w);
    WordAtIs(b, i);
    forall j | 0 <= j < 8
      ensures b[8 * i + j] == Narrow(w[i], j)
    {
      assert (8 * i + j) / 8 == i && (8 * i + j) % 8 == j;
    }
    assert b[8 * i + 0] == Narrow(w[i], 0);
    PackNarrow(w[i]);
  }

  lemma PackNarrow(x: Word)
    ensures Pack(Narrow(x, 0), Narrow(x, 1), Narrow(x, 2), Narrow(x, 3),
                 Narrow(x, 4), Narrow(x, 5), Narrow(x, 6), Narrow(x, 7)) == x
  {
  }

  function Zeros(n: nat): (z: seq<Byte>)
    ensures |z| == n
  {
    seq(n, _ => 0)
  }

  /** `b` and zeros up to a whole block. */
  function Padded(b: seq<Byte>): (p: seq<Byte>)
    requires |b| <= BLOCK
    ensures |p| == BLOCK
  {
    b + Zeros(BLOCK - |b|)
  }

  /** A number without its low four bytes. */
  function Higher(x: nat): nat { x / 256 / 256 / 256 / 256 }

  /** The low four bytes of a number, low byte first. */
  function FourBytes(x: nat): (b: seq<Byte>)
    ensures |b| == 4
  {
    [(x % 256) as Byte, (x / 256 % 256) as Byte, (x / 256 / 256 % 256) as Byte, (x / 256 / 256 / 256 % 256) as Byte]
  }

  lemma FourBytesIs(x: nat)
    ensures var b := FourBytes(x);
      x == b[0] as nat + 0x100 * (b[1] as nat) + 0x1_0000 * (b[2] as nat) + 0x100_0000 * (b[3] as nat)
        + 0x1_0000_0000 * Higher(x)
  {
    var x1 := x / 256;
    var x2 := x1 / 256;
    var x3 := x2 / 256;
    ByteBack(x % 256);
    ByteBack(x1 % 256);
    ByteBack(x2 % 256);
    ByteBack(x3 % 256);
    FourDigits(x, x1, x2, x3, x3 / 256);
  }

  /** The low eight bytes of a number. */
  function EightBytes(x: nat): (b: seq<Byte>)
    ensures |b| == 8
  {
    FourBytes(x) + FourBytes(Higher(x))
  }

  /** The word of that value. */
  function ToWord(x: nat): Word
    requires x < W64
  {
    WordAt(EightBytes(x), 0)
  }

  lemma ToWordIs(x: nat)
    requires x < W64
    ensures ToWord(x) as nat == x
  {
    hide WordAt;
    WordAtIs(EightBytes(x), 0);
    EightBytesIs(x);
  }

  lemma EightBytesIs(x: nat)
    requires x < W64
    ensures Number(EightBytes(x), 0) == x
  {
    hide FourBytes, Higher;
    FourBytesIs(x);
    FourBytesIs(Higher(x));
  }

  lemma FourDigits(x: nat, x1: nat, x2: nat, x3: nat, x4: nat)
    requires x1 == x / 0x100 && x2 == x1 / 0x100 && x3 == x2 / 0x100 && x4 == x3 / 0x100
    ensures x == x % 256 + 0x100 * (x1 % 256) + 0x1_0000 * (x2 % 256) + 0x100_0000 * (x3 % 256) + 0x1_0000_0000 * x4
  {
  }

  function LowWord(t: nat): Word { ToWord(t % W64) }

  function HighWord(t: nat): Word { ToWord(t / W64 % W64) }

  function Flag(b: bool): Word { if b then 0xFFFF_FFFF_FFFF_FFFF else 0 }

  /* ----------------------------------- compression ----------------------------------- */

  function Rounds(v: seq<Word>, m: seq<Word>, n: nat): (r: seq<Word>)
    requires |v| == 16 == |m| && n <= 12
    ensures |r| == 16
  {
    if n == 0 then v else SigmaRows((n - 1) % 10); ScalarRound(Rounds(v, m, n - 1), m, SIGMA[(n - 1) % 10])
  }

  function Initial(h: seq<Word>, t0: Word, t1: Word, f0: Word, f1: Word): (v: seq<Word>)
    requires |h| == 8
    ensures |v| == 16
  {
    h + IV[..4] + [Xor(IV[4], t0), Xor(IV[5], t1), Xor(IV[6], f0), Xor(IV[7], f1)]
  }

  function Feed(h: seq<Word>, v: seq<Word>): (r: seq<Word>)
    requires |h| == 8 && |v| == 16
    ensures |r| == 8
  {
    [FeedWord(h, v, 0), FeedWord(h, v, 1), FeedWord(h, v, 2), FeedWord(h, v, 3),
     FeedWord(h, v, 4), FeedWord(h, v, 5), FeedWord(h, v, 6), FeedWord(h, v, 7)]
  }

  function FeedWord(h: seq<Word>, v: seq<Word>, i: nat): Word
    requires |h| == 8 && |v| == 16 && i < 8
  {
    Xor(Xor(h[i], v[i]), v[i + 8])
  }

  /** The compression function F of section 3.2 of RFC 7693, with the tree-mode flag as last word. */
  function F(h: seq<Word>, block: seq<Byte>, t: nat, last: bool, lastNode: bool): (r: seq<Word>)
    requires |h| == 8 && |block| == BLOCK
    ensures |r| == 8
  {
    Feed(h, Rounds(Initial(h, LowWord(t), HighWord(t), Flag(last), Flag(last && lastNode)), WordsOf(block), 12))
  }

  /** `blake2b_compress`, with any instruction set. */
  method Compress(h: seq<Word>, block: seq<Byte>, t0: Word, t1: Word, f0: Word, f1: Word, config: Config)
    returns (r: seq<Word>)
    requires |h| == 8 && |block| == BLOCK
    ensures r == Feed(h, Rounds(Initial(h, t0, t1, f0, f1), WordsOf(block), 12))
  {
    hide ScalarRound, Xor, XorLane, WordsOf, Initial, Feed, SIGMA;
    var m := WordsOf(block);
    var row1l, row1h := V128(h[0], h[1]), V128(h[2], h[3]);
    var row2l, row2h := V128(h[4], h[5]), V128(h[6], h[7]);
    var row3l, row3h := V128(IV[0], IV[1]), V128(IV[2], IV[3]);
    var row4l := XorSi128(V128(IV[4], IV[5]), V128(t0, t1));
    var row4h := XorSi128(V128(IV[6], IV[7]), V128(f0, f1));
    var rows := Rows(row1l, row2l, row3l, row4l, row1h, row2h, row3h, row4h);
    RowsStart(h, t0, t1, f0, f1);
    for n := 0 to 12
      invariant rows.View() == Rounds(Initial(h, t0, t1, f0, f1), m, n)
    {
      rows := Round(rows, m, n, config);
      SigmaRepeats(n);
    }
    r := Finish(h, rows);
  }

  lemma RowsStart(h: seq<Word>, t0: Word, t1: Word, f0: Word, f1: Word)
    requires |h| == 8
    ensures Initial(h, t0, t1, f0, f1) ==
      Rows(V128(h[0], h[1]), V128(h[4], h[5]), V128(IV[0], IV[1]), XorSi128(V128(IV[4], IV[5]), V128(t0, t1)),
           V128(h[2], h[3]), V128(h[6], h[7]), V128(IV[2], IV[3]), XorSi128(V128(IV[6], IV[7]), V128(f0, f1))).View()
  {
    hide Xor, XorLane;
    LanesAre();
  }

  /** The exclusive ors after the last round. */
  method Finish(h: seq<Word>, rows: Rows) returns (r: seq<Word>)
    requires |h| == 8
    ensures r == Feed(h, rows.View())
  {
    hide Xor, XorLane;
    LanesAre();
    var row1l := XorSi128(rows.row3l, rows.row1l);
    var row1h := XorSi128(rows.row3h, rows.row1h);
    var h0 := XorSi128(V128(h[0], h[1]), row1l);
    var h2 := XorSi128(V128(h[2], h[3]), row1h);
    var row2l := XorSi128(rows.row4l, rows.row2l);
    var row2h := XorSi128(rows.row4h, rows.row2h);
    var h4 := XorSi128(V128(h[4], h[5]), row2l);
    var h6 := XorSi128(V128(h[6], h[7]), row2h);
    r := [h0.lo, h0.hi, h2.lo, h2.hi, h4.lo, h4.hi, h6.lo, h6.hi];
    XorSwap(h[0], rows.row1l.lo, rows.row3l.lo);
    XorSwap(h[1], rows.row1l.hi, rows.row3l.hi);
    XorSwap(h[2], rows.row1h.lo, rows.row3h.lo);
    XorSwap(h[3], rows.row1h.hi, rows.row3h.hi);
    XorSwap(h[4], rows.row2l.lo, rows.row4l.lo);
    XorSwap(h[5], rows.row2l.hi, rows.row4l.hi);
    XorSwap(h[6], rows.row2h.lo, rows.row4h.lo);
    XorSwap(h[7], rows.row2h.hi, rows.row4h.hi);
  }

  lemma XorSwap(x: Word, y: Word, z: Word)
    ensures Xor(x, Xor(z, y)) == Xor(Xor(x, y), z)
  {
    hide Xor;
    XorIs();
    assert x ^ (z ^ y) == (x ^ y) ^ z;
  }

  lemma XorIs()
    ensures forall x, y :: Xor(x, y) == x ^ y
  {
  }

  /** The last two rows of sigma repeat the first two. */
  lemma SigmaRepeats(n: nat)
    requires n < 12
    ensures |SIGMA| == 12 && SIGMA[n % 10] == SIGMA[n]
  {
  }

  /* --------------------------------- the standard's hash --------------------------------- */

  /** The state after the whole blocks `p`, none of them the last (section 3.3 of RFC 7693). */
  function Chain(h0: seq<Word>, p: seq<Byte>): (h: seq<Word>)
    requires |h0| == 8 && |p| % BLOCK == 0
    ensures |h| == 8
    decreases |p|
  {
    if p == [] then h0
    else
      var n := |p| - BLOCK;
      F(Chain(h0, p[..n]), p[n..], |p|, false, false)
  }

  /** How many bytes come before the last block: the last block is never empty unless the message is. */
  function BeforeLast(n: nat): (b: nat)
    ensures b % BLOCK == 0 && b <= n <= b + BLOCK && (b > 0 ==> b < n)
  {
    if n == 0 then 0 else (n - 1) / BLOCK * BLOCK
  }

  /** The lower bound fixes `BeforeLast`. */
  lemma BeforeLastIs(n: nat, b: nat)
    requires b % BLOCK == 0 && b <= n <= b + BLOCK && (b > 0 ==> b < n)
    ensures b == BeforeLast(n)
  {
  }

  /** Hashing from the chain value `h0`: pad with zeros, count bytes, flag the last block. */
  function Hash(h0: seq<Word>, msg: seq<Byte>, lastNode: bool): (h: seq<Word>)
    requires |h0| == 8
    ensures |h| == 8
  {
    var b := BeforeLast(|msg|);
    F(Chain(h0, msg[..b]), Padded(msg[b..]), |msg|, true, lastNode)
  }

  /** Section 3.3 of RFC 7693: the parameter block in the first word of the chain value. */
  function Start(outlen: Byte, keylen: Byte): (h: seq<Word>)
    ensures |h| == 8
  {
    [IV[0] ^ 0x0101_0000 ^ ((keylen as Word) << 8) ^ (outlen as Word)] + IV[1..]
  }

  /** BLAKE2b of section 3.3 of RFC 7693: digest length, key, message. */
  function Digest(outlen: nat, key: seq<Byte>, msg: seq<Byte>): (d: seq<Byte>)
    requires 0 < outlen <= OUT && |key| <= OUT
    ensures |d| == outlen
  {
    BytesOf(Hash(Start(outlen as Byte, |key| as Byte), (if key == [] then [] else Padded(key)) + msg, false))[..outlen]
  }

  /* ---------------------------------- the counter ---------------------------------- */

  /** `blake2b_increment_counter` on two words, as the compilers without 128-bit integers see it. */
  method IncrementCounter(t0: nat, t1: nat, inc: nat) returns (r0: nat, r1: nat)
    requires t0 < W64 && t1 < W64 && inc < W64
    ensures r0 < W64 && r1 < W64
    ensures r0 + W64 * r1 == (t0 + W64 * t1 + inc) % W128
  {
    r0 := (t0 + inc) % W64;
    r1 := (t1 + if r0 < inc then 1 else 0) % W64;
    Carried(t0, t1, inc);
  }

  /** The same with 128-bit integers. */
  method IncrementCounter128(t0: nat, t1: nat, inc: nat) returns (r0: nat, r1: nat)
    requires t0 < W64 && t1 < W64 && inc < W64
    ensures r0 < W64 && r1 < W64
    ensures r0 + W64 * r1 == (t0 + W64 * t1 + inc) % W128
  {
    var t := (t1 * W64 + t0 + inc) % W128;
    r0 := t % W64;
    r1 := t / W64 % W64;
  }

  /** A sum that wrapped around is below what was added, and no other sum is. */
  lemma Carried(t0: nat, t1: nat, inc: nat)
    requires t0 < W64 && t1 < W64 && inc < W64
    ensures var r0 := (t0 + inc) % W64;
      var r1 := (t1 + if r0 < inc then 1 else 0) % W64;
      r0 + W64 * r1 == (t0 + W64 * t1 + inc) % W128
  {
    var r0 := (t0 + inc) % W64;
    if t0 + inc >= W64 {
      assert r0 == t0 + inc - W64 < inc;
      if t1 + 1 == W64 {
        assert t0 + W64 * t1 + inc == r0 + W128;
      }
    } else {
      assert r0 == t0 + inc;
    }
  }

  lemma Counted(t0: nat, t1: nat, n: nat)
    requires t0 < W64 && t1 < W64 && t0 + W64 * t1 == n % W128
    ensures LowWord(n) == ToWord(t0) && HighWord(n) == ToWord(t1)
  {
    hide ToWord;
    CounterWords(t0, t1, n);
  }

  lemma CounterWords(t0: nat, t1: nat, n: nat)
    requires t0 < W64 && t1 < W64 && t0 + W64 * t1 == n % W128
    ensures n % W64 == t0 && n / W64 % W64 == t1
  {
    var q := n / W128;
    assert n == t0 + W64 * (t1 + W64 * q);
    assert n / W64 == t1 + W64 * q;
  }

  lemma CountOn(n: nat, inc: nat)
    ensures (n % W128 + inc) % W128 == (n + inc) % W128
  {
  }

  /* --------------------------------- the first chain value --------------------------------- */

  function XorByte(a: Byte, b: Byte): Byte { a ^ b }

  function XorBytes(v: seq<Byte>, p: seq<Byte>): (x: seq<Byte>)
    requires |v| == |p|
    ensures |x| == |v|
  {
    seq(|v|, i requires 0 <= i < |v| && |p| == |v| => XorByte(v[i], p[i]))
  }

  /** The parameter block of `blake2b_init` and `blake2b_init_key`. */
  function ParamBlock(outlen: Byte, keylen: Byte): (p: seq<Byte>)
    ensures |p| == OUT
  {
    [outlen, keylen, 1, 1] + Zeros(60)
  }

  lemma StartIs(outlen: Byte, keylen: Byte)
    ensures WordsOf(XorBytes(BytesOf(IV), ParamBlock(outlen, keylen))) == Start(outlen, keylen)
  {
    hide WordAt, BytesOf, FromBytes, ByteAt, XorByte;
    var p := ParamBlock(outlen, keylen);
    var x := XorBytes(BytesOf(IV), p);
    forall i | 0 <= i < 8
      ensures WordAt(x, i) == IV[i] ^ WordAt(p, i)
    {
      XorWordAt(IV, p, i);
    }
    forall i | 0 < i < 8
      ensures WordAt(p, i) == 0
    {
      ZeroWord(p, i);
    }
    FirstWord(outlen, keylen);
    assert WordsOf(x)[0] == WordAt(x, 0);
    FirstXor(IV[0], outlen, keylen);
    forall i | 0 < i < 8
      ensures IV[i] ^ 0 == IV[i]
    {
    }
    assert WordsOf(x)[1..] == IV[1..];
  }

  lemma FirstXor(v: Word, outlen: Byte, keylen: Byte)
    ensures v ^ (0x0101_0000 ^ ((keylen as Word) << 8) ^ (outlen as Word)) ==
            v ^ 0x0101_0000 ^ ((keylen as Word) << 8) ^ (outlen as Word)
  {
  }

  lemma FirstWord(outlen: Byte, keylen: Byte)
    ensures WordAt(ParamBlock(outlen, keylen), 0) == 0x0101_0000 ^ ((keylen as Word) << 8) ^ (outlen as Word)
  {
    FirstBytes(outlen, keylen);
  }

  lemma FirstBytes(outlen: Byte, keylen: Byte)
    ensures Pack(outlen, keylen, 1, 1, 0, 0, 0, 0) ==
            0x0101_0000 ^ ((keylen as Word) << 8) ^ (outlen as Word)
  {
  }

  lemma ZeroWord(p: seq<Byte>, i: nat)
    requires 8 * i + 8 <= |p| && forall j :: 8 * i <= j < 8 * i + 8 ==> p[j] == 0
    ensures WordAt(p, i) == 0
  {
  }

  lemma XorWordAt(w: seq<Word>, p: seq<Byte>, i: nat)
    requires |p| == 8 * |w| && i < |w|
    ensures WordAt(XorBytes(BytesOf(w), p), i) == w[i] ^ WordAt(p, i)
  {
    hide Pack, Narrow, XorByte;
    var x := XorBytes(BytesOf(w), p);
    forall j | 0 <= j < 8
      ensures x[8 * i + j] == XorByte(Narrow(w[i], j), p[8 * i + j])
    {
      assert (8 * i + j) / 8 == i && (8 * i + j) % 8 == j;
    }
    assert x[8 * i + 0] == XorByte(Narrow(w[i], 0), p[8 * i]);
    XorPack(w[i], p[8 * i], p[8 * i + 1], p[8 * i + 2], p[8 * i + 3],
            p[8 * i + 4], p[8 * i + 5], p[8 * i + 6], p[8 * i + 7]);
  }

  lemma XorPack(w: Word, p0: Byte, p1: Byte, p2: Byte, p3: Byte, p4: Byte, p5: Byte, p6: Byte, p7: Byte)
    ensures Pack(XorByte(Narrow(w, 0), p0), XorByte(Narrow(w, 1), p1), XorByte(Narrow(w, 2), p2),
                 XorByte(Narrow(w, 3), p3), XorByte(Narrow(w, 4), p4), XorByte(Narrow(w, 5), p5),
                 XorByte(Narrow(w, 6), p6), XorByte(Narrow(w, 7), p7))
            == w ^ Pack(p0, p1, p2, p3, p4, p5, p6, p7)
  {
  }
}
