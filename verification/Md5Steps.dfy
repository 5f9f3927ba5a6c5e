/**
 The MD5 block transformation, step by step as the program unrolls it, against the four rounds of
 section 3.4 of RFC 1321.
 */
module Md5Steps {
  type Word = bv32

  type Byte = bv8

  /** The four registers. */
  datatype Regs = Regs(a: Word, b: Word, c: Word, d: Word)

  /* ---------------------------- the auxiliary functions ---------------------------- */

  datatype Round = First | Second | Third | Fourth

  /** Section 3.4 of RFC 1321. */
  function Aux(r: Round, x: Word, y: Word, z: Word): Word {
    match r
    case First => (x & y) | (!x & z)
    case Second => (x & z) | (y & !z)
    case Third => x ^ y ^ z
    case Fourth => y ^ (x | !z)
  }

  // The macros of the program.
  function F(x: Word, y: Word, z: Word): Word { z ^ (x & (y ^ z)) }

  function G(x: Word, y: Word, z: Word): Word { y ^ (z & (x ^ y)) }

  function H(x: Word, y: Word, z: Word): Word { (x ^ y) ^ z }

  function H2(x: Word, y: Word, z: Word): Word { x ^ (y ^ z) }

  function I(x: Word, y: Word, z: Word): Word { y ^ (x | !z) }

  lemma FAgrees(x: Word, y: Word, z: Word)
    ensures F(x, y, z) == Aux(First, x, y, z)
  {
    SelectX(x, y, z);
  }

  lemma SelectX(x: Word, y: Word, z: Word)
    ensures z ^ (x & (y ^ z)) == (x & y) | (!x & z)
  {
  }

  lemma GAgrees(x: Word, y: Word, z: Word)
    ensures G(x, y, z) == Aux(Second, x, y, z)
  {
    SelectZ(x, y, z);
  }

  lemma SelectZ(x: Word, y: Word, z: Word)
    ensures y ^ (z & (x ^ y)) == (x & z) | (y & !z)
  {
  }

  lemma HAgrees(x: Word, y: Word, z: Word)
    ensures H(x, y, z) == Aux(Third, x, y, z)
  {
  }

  lemma H2Agrees(x: Word, y: Word, z: Word)
    ensures H2(x, y, z) == Aux(Third, x, y, z)
  {
  }

  lemma IAgrees(x: Word, y: Word, z: Word)
    ensures I(x, y, z) == Aux(Fourth, x, y, z)
  {
  }

  /* --------------------------------- single steps --------------------------------- */

  /** Section 2 of RFC 1321: X <<< s. */
  function RotateLeft(x: Word, s: nat): Word
    requires s <= 32
  {
    (x << s) | (x >> (32 - s))
  }

  /** The middle line of the macro `STEP`. */
  function Turned(a: Word, s: nat): Word
    requires s <= 32
  {
    (a << s) | ((a & 0xFFFF_FFFF) >> (32 - s))
  }

  /** Its last line. */
  function Plus(a: Word, b: Word): Word { a + b }

  /** The macro `STEP`, given the value of its function. */
  function Step(v: Word, a: Word, b: Word, x: Word, t: Word, s: nat): Word
    requires s <= 32
  {
    Plus(Turned(a + (v + x + t), s), b)
  }

  /** Section 2 of RFC 1321: addition of words. */
  function Add(x: Word, y: Word): Word { x + y }

  /** a = b + ((a + f(b,c,d) + X[k] + T[i]) <<< s) of section 3.4 of RFC 1321. */
  function Operation(v: Word, a: Word, b: Word, x: Word, t: Word, s: nat): Word
    requires s <= 32
  {
    Add(b, RotateLeft(a + v + x + t, s))
  }

  lemma StepIsOperation(v: Word, a: Word, b: Word, x: Word, t: Word, s: nat)
    requires s <= 32
    ensures Step(v, a, b, x, t, s) == Operation(v, a, b, x, t, s)
  {
    hide RotateLeft, Turned, Add, Plus;
    TurnedIsRotated(s);
    AddIs(b);
  }

  lemma AddIs(b: Word)
    ensures forall y :: Plus(y, b) == Add(b, y) && Plus(y, b) == Add(y, b)
  {
  }

  lemma TurnedIsRotated(s: nat)
    requires s <= 32
    ensures forall y :: Turned(y, s) == RotateLeft(y, s)
  {
  }

  /** The constant of step `i`. */
  function T(i: nat): Word
    requires i < 64
  {
    if i < 16 then T1(i) else if i < 32 then T2(i) else if i < 48 then T3(i) else T4(i)
  }

  function T1(i: nat): Word
    requires 0 <= i < 16
  {
    match i
    case 0 => 0xd76aa478
    case 1 => 0xe8c7b756
    case 2 => 0x242070db
    case 3 => 0xc1bdceee
    case 4 => 0xf57c0faf
    case 5 => 0x4787c62a
    case 6 => 0xa8304613
    case 7 => 0xfd469501
    case 8 => 0x698098d8
    case 9 => 0x8b44f7af
    case 10 => 0xffff5bb1
    case 11 => 0x895cd7be
    case 12 => 0x6b901122
    case 13 => 0xfd987193
    case 14 => 0xa679438e
    case _ => 0x49b40821
  }

  function T2(i: nat): Word
    requires 16 <= i < 32
  {
    match i
    case 16 => 0xf61e2562
    case 17 => 0xc040b340
    case 18 => 0x265e5a51
    case 19 => 0xe9b6c7aa
    case 20 => 0xd62f105d
    case 21 => 0x02441453
    case 22 => 0xd8a1e681
    case 23 => 0xe7d3fbc8
    case 24 => 0x21e1cde6
    case 25 => 0xc33707d6
    case 26 => 0xf4d50d87
    case 27 => 0x455a14ed
    case 28 => 0xa9e3e905
    case 29 => 0xfcefa3f8
    case 30 => 0x676f02d9
    case _ => 0x8d2a4c8a
  }

  function T3(i: nat): Word
    requires 32 <= i < 48
  {
    match i
    case 32 => 0xfffa3942
    case 33 => 0x8771f681
    case 34 => 0x6d9d6122
    case 35 => 0xfde5380c
    case 36 => 0xa4beea44
    case 37 => 0x4bdecfa9
    case 38 => 0xf6bb4b60
    case 39 => 0xbebfbc70
    case 40 => 0x289b7ec6
    case 41 => 0xeaa127fa
    case 42 => 0xd4ef3085
    case 43 => 0x04881d05
    case 44 => 0xd9d4d039
    case 45 => 0xe6db99e5
    case 46 => 0x1fa27cf8
    case _ => 0xc4ac5665
  }

  function T4(i: nat): Word
    requires 48 <= i < 64
  {
    match i
    case 48 => 0xf4292244
    case 49 => 0x432aff97
    case 50 => 0xab9423a7
    case 51 => 0xfc93a039
    case 52 => 0x655b59c3
    case 53 => 0x8f0ccc92
    case 54 => 0xffeff47d
    case 55 => 0x85845dd1
    case 56 => 0x6fa87e4f
    case 57 => 0xfe2ce6e0
    case 58 => 0xa3014314
    case 59 => 0x4e0811a1
    case 60 => 0xf7537e82
    case 61 => 0xbd3af235
    case 62 => 0x2ad7d2bb
    case _ => 0xeb86d391
  }

  /** The message word that step `i` uses. */
  function WordIndex(i: nat): (k: nat)
    requires i < 64
    ensures k < 16
  {
    if i < 16 then i
    else if i < 32 then (1 + 5 * i) % 16
    else if i < 48 then (5 + 3 * i) % 16
    else 7 * i % 16
  }

  function Shift(i: nat): (s: nat)
    requires i < 64
    ensures s <= 32
  {
    var s :=
      if i < 16 then (7, 12, 17, 22) else if i < 32 then (5, 9, 14, 20)
      else if i < 48 then (4, 11, 16, 23) else (6, 10, 15, 21);
    match i % 4
    case 0 => s.0
    case 1 => s.1
    case 2 => s.2
    case _ => s.3
  }

  function RoundOf(i: nat): Round
    requires i < 64
  {
    if i < 16 then First else if i < 32 then Second else if i < 48 then Third else Fourth
  }

  /** One operation of the standard; the registers move up one place after it. */
  function Next(r: Regs, x: seq<Word>, i: nat): Regs
    requires |x| == 16 && i < 64
  {
    Regs(r.d, Operation(Aux(RoundOf(i), r.b, r.c, r.d), r.a, r.b, x[WordIndex(i)], T(i), Shift(i)), r.b, r.c)
  }

  function Operations(r: Regs, x: seq<Word>, n: nat): Regs
    requires |x| == 16 && n <= 64
  {
    if n == 0 then r else Next(Operations(r, x, n - 1), x, n - 1)
  }

  /** The macro that step `i` of the program applies. */
  function Macro(i: nat, x: Word, y: Word, z: Word): Word
    requires i < 64
  {
    if i < 16 then F(x, y, z)
    else if i < 32 then G(x, y, z)
    else if i < 48 then if i % 2 == 0 then H(x, y, z) else H2(x, y, z)
    else I(x, y, z)
  }

  lemma MacroAgrees(i: nat, x: Word, y: Word, z: Word)
    requires i < 64
    ensures Macro(i, x, y, z) == Aux(RoundOf(i), x, y, z)
  {
    hide F, G, H, H2, I, Aux;
    FAgrees(x, y, z);
    GAgrees(x, y, z);
    HAgrees(x, y, z);
    H2Agrees(x, y, z);
    IAgrees(x, y, z);
  }

  /** Step `i` uses word `k`, constant `t` and shift `s`. */
  predicate Parameters(i: nat, k: nat, t: Word, s: nat)
    requires i < 64
  {
    k == WordIndex(i) && t == T(i) && s == Shift(i)
  }

  lemma FirstConstants()
    ensures T(0) == 0xd76aa478 && T(1) == 0xe8c7b756 && T(2) == 0x242070db && T(3) == 0xc1bdceee
    ensures T(4) == 0xf57c0faf && T(5) == 0x4787c62a && T(6) == 0xa8304613 && T(7) == 0xfd469501
    ensures T(8) == 0x698098d8 && T(9) == 0x8b44f7af && T(10) == 0xffff5bb1 && T(11) == 0x895cd7be
    ensures T(12) == 0x6b901122 && T(13) == 0xfd987193 && T(14) == 0xa679438e && T(15) == 0x49b40821
  {
  }

  lemma FirstParameters()
    ensures Parameters(0, 0, 0xd76aa478, 7) && Parameters(1, 1, 0xe8c7b756, 12)
    ensures Parameters(2, 2, 0x242070db, 17) && Parameters(3, 3, 0xc1bdceee, 22)
    ensures Parameters(4, 4, 0xf57c0faf, 7) && Parameters(5, 5, 0x4787c62a, 12)
    ensures Parameters(6, 6, 0xa8304613, 17) && Parameters(7, 7, 0xfd469501, 22)
    ensures Parameters(8, 8, 0x698098d8, 7) && Parameters(9, 9, 0x8b44f7af, 12)
    ensures Parameters(10, 10, 0xffff5bb1, 17) && Parameters(11, 11, 0x895cd7be, 22)
    ensures Parameters(12, 12, 0x6b901122, 7) && Parameters(13, 13, 0xfd987193, 12)
    ensures Parameters(14, 14, 0xa679438e, 17) && Parameters(15, 15, 0x49b40821, 22)
  {
    hide T;
    FirstConstants();
  }

  lemma SecondConstants()
    ensures T(16) == 0xf61e2562 && T(17) == 0xc040b340 && T(18) == 0x265e5a51 && T(19) == 0xe9b6c7aa
    ensures T(20) == 0xd62f105d && T(21) == 0x02441453 && T(22) == 0xd8a1e681 && T(23) == 0xe7d3fbc8
    ensures T(24) == 0x21e1cde6 && T(25) == 0xc33707d6 && T(26) == 0xf4d50d87 && T(27) == 0x455a14ed
    ensures T(28) == 0xa9e3e905 && T(29) == 0xfcefa3f8 && T(30) == 0x676f02d9 && T(31) == 0x8d2a4c8a
  {
  }

  lemma SecondParameters()
    ensures Parameters(16, 1, 0xf61e2562, 5) && Parameters(17, 6, 0xc040b340, 9)
    ensures Parameters(18, 11, 0x265e5a51, 14) && Parameters(19, 0, 0xe9b6c7aa, 20)
    ensures Parameters(20, 5, 0xd62f105d, 5) && Parameters(21, 10, 0x02441453, 9)
    ensures Parameters(22, 15, 0xd8a1e681, 14) && Parameters(23, 4, 0xe7d3fbc8, 20)
    ensures Parameters(24, 9, 0x21e1cde6, 5) && Parameters(25, 14, 0xc33707d6, 9)
    ensures Parameters(26, 3, 0xf4d50d87, 14) && Parameters(27, 8, 0x455a14ed, 20)
    ensures Parameters(28, 13, 0xa9e3e905, 5) && Parameters(29, 2, 0xfcefa3f8, 9)
    ensures Parameters(30, 7, 0x676f02d9, 14) && Parameters(31, 12, 0x8d2a4c8a, 20)
  {
    hide T;
    SecondConstants();
  }

  lemma ThirdConstants()
    ensures T(32) == 0xfffa3942 && T(33) == 0x8771f681 && T(34) == 0x6d9d6122 && T(35) == 0xfde5380c
    ensures T(36) == 0xa4beea44 && T(37) == 0x4bdecfa9 && T(38) == 0xf6bb4b60 && T(39) == 0xbebfbc70
    ensures T(40) == 0x289b7ec6 && T(41) == 0xeaa127fa && T(42) == 0xd4ef3085 && T(43) == 0x04881d05
    ensures T(44) == 0xd9d4d039 && T(45) == 0xe6db99e5 && T(46) == 0x1fa27cf8 && T(47) == 0xc4ac5665
  {
  }

  lemma ThirdParameters()
    ensures Parameters(32, 5, 0xfffa3942, 4) && Parameters(33, 8, 0x8771f681, 11)
    ensures Parameters(34, 11, 0x6d9d6122, 16) && Parameters(35, 14, 0xfde5380c, 23)
    ensures Parameters(36, 1, 0xa4beea44, 4) && Parameters(37, 4, 0x4bdecfa9, 11)
    ensures Parameters(38, 7, 0xf6bb4b60, 16) && Parameters(39, 10, 0xbebfbc70, 23)
    ensures Parameters(40, 13, 0x289b7ec6, 4) && Parameters(41, 0, 0xeaa127fa, 11)
    ensures Parameters(42, 3, 0xd4ef3085, 16) && Parameters(43, 6, 0x04881d05, 23)
    ensures Parameters(44, 9, 0xd9d4d039, 4) && Parameters(45, 12, 0xe6db99e5, 11)
    ensures Parameters(46, 15, 0x1fa27cf8, 16) && Parameters(47, 2, 0xc4ac5665, 23)
  {
    hide T;
    ThirdConstants();
  }

  lemma FourthConstants()
    ensures T(48) == 0xf4292244 && T(49) == 0x432aff97 && T(50) == 0xab9423a7 && T(51) == 0xfc93a039
    ensures T(52) == 0x655b59c3 && T(53) == 0x8f0ccc92 && T(54) == 0xffeff47d && T(55) == 0x85845dd1
    ensures T(56) == 0x6fa87e4f && T(57) == 0xfe2ce6e0 && T(58) == 0xa3014314 && T(59) == 0x4e0811a1
    ensures T(60) == 0xf7537e82 && T(61) == 0xbd3af235 && T(62) == 0x2ad7d2bb && T(63) == 0xeb86d391
  {
  }

  lemma FourthParameters()
    ensures Parameters(48, 0, 0xf4292244, 6) && Parameters(49, 7, 0x432aff97, 10)
    ensures Parameters(50, 14, 0xab9423a7, 15) && Parameters(51, 5, 0xfc93a039, 21)
    ensures Parameters(52, 12, 0x655b59c3, 6) && Parameters(53, 3, 0x8f0ccc92, 10)
    ensures Parameters(54, 10, 0xffeff47d, 15) && Parameters(55, 1, 0x85845dd1, 21)
    ensures Parameters(56, 8, 0x6fa87e4f, 6) && Parameters(57, 15, 0xfe2ce6e0, 10)
    ensures Parameters(58, 6, 0xa3014314, 15) && Parameters(59, 13, 0x4e0811a1, 21)
    ensures Parameters(60, 4, 0xf7537e82, 6) && Parameters(61, 11, 0xbd3af235, 10)
    ensures Parameters(62, 2, 0x2ad7d2bb, 15) && Parameters(63, 9, 0xeb86d391, 21)
  {
    hide T;
    FourthConstants();
  }

  /** A step of the program is the operation of the standard. */
  lemma Advance(start: Regs, x: seq<Word>, i: nat, r: Regs, k: nat, t: Word, s: nat)
    requires |x| == 16 && i < 64 && r == Operations(start, x, i)
    requires Parameters(i, k, t, s)
    ensures Operations(start, x, i + 1) == Regs(r.d, Step(Macro(i, r.b, r.c, r.d), r.a, r.b, x[k], t, s), r.b, r.c)
  {
    hide Step, Operation, Aux, Macro, RoundOf, WordIndex, Shift, T;
    MacroAgrees(i, r.b, r.c, r.d);
    StepIsOperation(Macro(i, r.b, r.c, r.d), r.a, r.b, x[k], t, s);
  }

  /* --------------------------------- the four rounds --------------------------------- */

  method FirstRound(r: Regs, x: seq<Word>, ghost start: Regs) returns (out: Regs)
    requires |x| == 16 && r == Operations(start, x, 0)
    ensures out == Operations(start, x, 16)
  {
    hide Step, Operations, F, G, H, H2, I, Parameters;
    FirstParameters();
    var Regs(a, b, c, d) := r;
    Advance(start, x, 0, Regs(a, b, c, d), 0, 0xd76aa478, 7);
    a := Step(F(b, c, d), a, b, x[0], 0xd76aa478, 7);
    Advance(start, x, 1, Regs(d, a, b, c), 1, 0xe8c7b756, 12);
    d := Step(F(a, b, c), d, a, x[1], 0xe8c7b756, 12);
    Advance(start, x, 2, Regs(c, d, a, b), 2, 0x242070db, 17);
    c := Step(F(d, a, b), c, d, x[2], 0x242070db, 17);
    Advance(start, x, 3, Regs(b, c, d, a), 3, 0xc1bdceee, 22);
    b := Step(F(c, d, a), b, c, x[3], 0xc1bdceee, 22);
    Advance(start, x, 4, Regs(a, b, c, d), 4, 0xf57c0faf, 7);
    a := Step(F(b, c, d), a, b, x[4], 0xf57c0faf, 7);
    Advance(start, x, 5, Regs(d, a, b, c), 5, 0x4787c62a, 12);
    d := Step(F(a, b, c), d, a, x[5], 0x4787c62a, 12);
    Advance(start, x, 6, Regs(c, d, a, b), 6, 0xa8304613, 17);
    c := Step(F(d, a, b), c, d, x[6], 0xa8304613, 17);
    Advance(start, x, 7, Regs(b, c, d, a), 7, 0xfd469501, 22);
    b := Step(F(c, d, a), b, c, x[7], 0xfd469501, 22);
    Advance(start, x, 8, Regs(a, b, c, d), 8, 0x698098d8, 7);
    a := Step(F(b, c, d), a, b, x[8], 0x698098d8, 7);
    Advance(start, x, 9, Regs(d, a, b, c), 9, 0x8b44f7af, 12);
    d := Step(F(a, b, c), d, a, x[9], 0x8b44f7af, 12);
    Advance(start, x, 10, Regs(c, d, a, b), 10, 0xffff5bb1, 17);
    c := Step(F(d, a, b), c, d, x[10], 0xffff5bb1, 17);
    Advance(start, x, 11, Regs(b, c, d, a), 11, 0x895cd7be, 22);
    b := Step(F(c, d, a), b, c, x[11], 0x895cd7be, 22);
    Advance(start, x, 12, Regs(a, b, c, d), 12, 0x6b901122, 7);
    a := Step(F(b, c, d), a, b, x[12], 0x6b901122, 7);
    Advance(start, x, 13, Regs(d, a, b, c), 13, 0xfd987193, 12);
    d := Step(F(a, b, c), d, a, x[13], 0xfd987193, 12);
    Advance(start, x, 14, Regs(c, d, a, b), 14, 0xa679438e, 17);
    c := Step(F(d, a, b), c, d, x[14], 0xa679438e, 17);
    Advance(start, x, 15, Regs(b, c, d, a), 15, 0x49b40821, 22);
    b := Step(F(c, d, a), b, c, x[15], 0x49b40821, 22);
    out := Regs(a, b, c, d);
  }

  method SecondRound(r: Regs, x: seq<Word>, ghost start: Regs) returns (out: Regs)
    requires |x| == 16 && r == Operations(start, x, 16)
    ensures out == Operations(start, x, 32)
  {
    hide Step, Operations, F, G, H, H2, I, Parameters;
    SecondParameters();
    var Regs(a, b, c, d) := r;
    Advance(start, x, 16, Regs(a, b, c, d), 1, 0xf61e2562, 5);
    a := Step(G(b, c, d), a, b, x[1], 0xf61e2562, 5);
    Advance(start, x, 17, Regs(d, a, b, c), 6, 0xc040b340, 9);
    d := Step(G(a, b, c), d, a, x[6], 0xc040b340, 9);
    Advance(start, x, 18, Regs(c, d, a, b), 11, 0x265e5a51, 14);
    c := Step(G(d, a, b), c, d, x[11], 0x265e5a51, 14);
    Advance(start, x, 19, Regs(b, c, d, a), 0, 0xe9b6c7aa, 20);
    b := Step(G(c, d, a), b, c, x[0], 0xe9b6c7aa, 20);
    Advance(start, x, 20, Regs(a, b, c, d), 5, 0xd62f105d, 5);
    a := Step(G(b, c, d), a, b, x[5], 0xd62f105d, 5);
    Advance(start, x, 21, Regs(d, a, b, c), 10, 0x02441453, 9);
    d := Step(G(a, b, c), d, a, x[10], 0x02441453, 9);
    Advance(start, x, 22, Regs(c, d, a, b), 15, 0xd8a1e681, 14);
    c := Step(G(d, a, b), c, d, x[15], 0xd8a1e681, 14);
    Advance(start, x, 23, Regs(b, c, d, a), 4, 0xe7d3fbc8, 20);
    b := Step(G(c, d, a), b, c, x[4], 0xe7d3fbc8, 20);
    Advance(start, x, 24, Regs(a, b, c, d), 9, 0x21e1cde6, 5);
    a := Step(G(b, c, d), a, b, x[9], 0x21e1cde6, 5);
    Advance(start, x, 25, Regs(d, a, b, c), 14, 0xc33707d6, 9);
    d := Step(G(a, b, c), d, a, x[14], 0xc33707d6, 9);
    Advance(start, x, 26, Regs(c, d, a, b), 3, 0xf4d50d87, 14);
    c := Step(G(d, a, b), c, d, x[3], 0xf4d50d87, 14);
    Advance(start, x, 27, Regs(b, c, d, a), 8, 0x455a14ed, 20);
    b := Step(G(c, d, a), b, c, x[8], 0x455a14ed, 20);
    Advance(start, x, 28, Regs(a, b, c, d), 13, 0xa9e3e905, 5);
    a := Step(G(b, c, d), a, b, x[13], 0xa9e3e905, 5);
    Advance(start, x, 29, Regs(d, a, b, c), 2, 0xfcefa3f8, 9);
    d := Step(G(a, b, c), d, a, x[2], 0xfcefa3f8, 9);
    Advance(start, x, 30, Regs(c, d, a, b), 7, 0x676f02d9, 14);
    c := Step(G(d, a, b), c, d, x[7], 0x676f02d9, 14);
    Advance(start, x, 31, Regs(b, c, d, a), 12, 0x8d2a4c8a, 20);
    b := Step(G(c, d, a), b, c, x[12], 0x8d2a4c8a, 20);
    out := Regs(a, b, c, d);
  }

  method ThirdRound(r: Regs, x: seq<Word>, ghost start: Regs) returns (out: Regs)
    requires |x| == 16 && r == Operations(start, x, 32)
    ensures out == Operations(start, x, 48)
  {
    hide Operations;
    var half := ThirdRoundFirst(r, x, start);
    out := ThirdRoundSecond(half, x, start);
  }

  /** Steps 33 to 40. */
  method ThirdRoundFirst(r: Regs, x: seq<Word>, ghost start: Regs) returns (out: Regs)
    requires |x| == 16 && r == Operations(start, x, 32)
    ensures out == Operations(start, x, 40)
  {
    hide Step, Operations, F, G, H, H2, I, Parameters;
    ThirdParameters();
    var Regs(a, b, c, d) := r;
    Advance(start, x, 32, Regs(a, b, c, d), 5, 0xfffa3942, 4);
    a := Step(H(b, c, d), a, b, x[5], 0xfffa3942, 4);
    Advance(start, x, 33, Regs(d, a, b, c), 8, 0x8771f681, 11);
    d := Step(H2(a, b, c), d, a, x[8], 0x8771f681, 11);
    Advance(start, x, 34, Regs(c, d, a, b), 11, 0x6d9d6122, 16);
    c := Step(H(d, a, b), c, d, x[11], 0x6d9d6122, 16);
    Advance(start, x, 35, Regs(b, c, d, a), 14, 0xfde5380c, 23);
    b := Step(H2(c, d, a), b, c, x[14], 0xfde5380c, 23);
    Advance(start, x, 36, Regs(a, b, c, d), 1, 0xa4beea44, 4);
    a := Step(H(b, c, d), a, b, x[1], 0xa4beea44, 4);
    Advance(start, x, 37, Regs(d, a, b, c), 4, 0x4bdecfa9, 11);
    d := Step(H2(a, b, c), d, a, x[4], 0x4bdecfa9, 11);
    Advance(start, x, 38, Regs(c, d, a, b), 7, 0xf6bb4b60, 16);
    c := Step(H(d, a, b), c, d, x[7], 0xf6bb4b60, 16);
    Advance(start, x, 39, Regs(b, c, d, a), 10, 0xbebfbc70, 23);
    b := Step(H2(c, d, a), b, c, x[10], 0xbebfbc70, 23);
    out := Regs(a, b, c, d);
  }

  /** Steps 41 to 48. */
  method ThirdRoundSecond(r: Regs, x: seq<Word>, ghost start: Regs) returns (out: Regs)
    requires |x| == 16 && r == Operations(start, x, 40)
    ensures out == Operations(start, x, 48)
  {
    hide Step, Operations, F, G, H, H2, I, Parameters;
    ThirdParameters();
    var Regs(a, b, c, d) := r;
    Advance(start, x, 40, Regs(a, b, c, d), 13, 0x289b7ec6, 4);
    a := Step(H(b, c, d), a, b, x[13], 0x289b7ec6, 4);
    Advance(start, x, 41, Regs(d, a, b, c), 0, 0xeaa127fa, 11);
    d := Step(H2(a, b, c), d, a, x[0], 0xeaa127fa, 11);
    Advance(start, x, 42, Regs(c, d, a, b), 3, 0xd4ef3085, 16);
    c := Step(H(d, a, b), c, d, x[3], 0xd4ef3085, 16);
    Advance(start, x, 43, Regs(b, c, d, a), 6, 0x04881d05, 23);
    b := Step(H2(c, d, a), b, c, x[6], 0x04881d05, 23);
    Advance(start, x, 44, Regs(a, b, c, d), 9, 0xd9d4d039, 4);
    a := Step(H(b, c, d), a, b, x[9], 0xd9d4d039, 4);
    Advance(start, x, 45, Regs(d, a, b, c), 12, 0xe6db99e5, 11);
    d := Step(H2(a, b, c), d, a, x[12], 0xe6db99e5, 11);
    Advance(start, x, 46, Regs(c, d, a, b), 15, 0x1fa27cf8, 16);
    c := Step(H(d, a, b), c, d, x[15], 0x1fa27cf8, 16);
    Advance(start, x, 47, Regs(b, c, d, a), 2, 0xc4ac5665, 23);
    b := Step(H2(c, d, a), b, c, x[2], 0xc4ac5665, 23);
    out := Regs(a, b, c, d);
  }

  method FourthRound(r: Regs, x: seq<Word>, ghost start: Regs) returns (out: Regs)
    requires |x| == 16 && r == Operations(start, x, 48)
    ensures out == Operations(start, x, 64)
  {
    hide Step, Operations, F, G, H, H2, I, Parameters;
    FourthParameters();
    var Regs(a, b, c, d) := r;
    Advance(start, x, 48, Regs(a, b, c, d), 0, 0xf4292244, 6);
    a := Step(I(b, c, d), a, b, x[0], 0xf4292244, 6);
    Advance(start, x, 49, Regs(d, a, b, c), 7, 0x432aff97, 10);
    d := Step(I(a, b, c), d, a, x[7], 0x432aff97, 10);
    Advance(start, x, 50, Regs(c, d, a, b), 14, 0xab9423a7, 15);
    c := Step(I(d, a, b), c, d, x[14], 0xab9423a7, 15);
    Advance(start, x, 51, Regs(b, c, d, a), 5, 0xfc93a039, 21);
    b := Step(I(c, d, a), b, c, x[5], 0xfc93a039, 21);
    Advance(start, x, 52, Regs(a, b, c, d), 12, 0x655b59c3, 6);
    a := Step(I(b, c, d), a, b, x[12], 0x655b59c3, 6);
    Advance(start, x, 53, Regs(d, a, b, c), 3, 0x8f0ccc92, 10);
    d := Step(I(a, b, c), d, a, x[3], 0x8f0ccc92, 10);
    Advance(start, x, 54, Regs(c, d, a, b), 10, 0xffeff47d, 15);
    c := Step(I(d, a, b), c, d, x[10], 0xffeff47d, 15);
    Advance(start, x, 55, Regs(b, c, d, a), 1, 0x85845dd1, 21);
    b := Step(I(c, d, a), b, c, x[1], 0x85845dd1, 21);
    Advance(start, x, 56, Regs(a, b, c, d), 8, 0x6fa87e4f, 6);
    a := Step(I(b, c, d), a, b, x[8], 0x6fa87e4f, 6);
    Advance(start, x, 57, Regs(d, a, b, c), 15, 0xfe2ce6e0, 10);
    d := Step(I(a, b, c), d, a, x[15], 0xfe2ce6e0, 10);
    Advance(start, x, 58, Regs(c, d, a, b), 6, 0xa3014314, 15);
    c := Step(I(d, a, b), c, d, x[6], 0xa3014314, 15);
    Advance(start, x, 59, Regs(b, c, d, a), 13, 0x4e0811a1, 21);
    b := Step(I(c, d, a), b, c, x[13], 0x4e0811a1, 21);
    Advance(start, x, 60, Regs(a, b, c, d), 4, 0xf7537e82, 6);
    a := Step(I(b, c, d), a, b, x[4], 0xf7537e82, 6);
    Advance(start, x, 61, Regs(d, a, b, c), 11, 0xbd3af235, 10);
    d := Step(I(a, b, c), d, a, x[11], 0xbd3af235, 10);
    Advance(start, x, 62, Regs(c, d, a, b), 2, 0x2ad7d2bb, 15);
    c := Step(I(d, a, b), c, d, x[2], 0x2ad7d2bb, 15);
    Advance(start, x, 63, Regs(b, c, d, a), 9, 0xeb86d391, 21);
    b := Step(I(c, d, a), b, c, x[9], 0xeb86d391, 21);
    out := Regs(a, b, c, d);
  }
}
