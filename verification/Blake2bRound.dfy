/**
 The round of BLAKE2b on pairs of 64-bit words, as the vector code computes it, against the scalar
 mixing function of sections 3.1 and 3.2 of RFC 7693.
 */
module Blake2bRound {
  type Word = bv64

  /** A 128-bit register: two words, the low one first. */
  datatype V128 = V128(lo: Word, hi: Word)

  /* ------------------------------------ rotations ------------------------------------ */

  // Section 2.3 of RFC 7693: x >>> n is (x >> n) xor (x << (64 - n)).
  function Ror32(x: Word): Word { (x >> 32) ^ (x << 32) }

  function Ror24(x: Word): Word { (x >> 24) ^ (x << 40) }

  function Ror16(x: Word): Word { (x >> 16) ^ (x << 48) }

  function Ror63(x: Word): Word { (x >> 63) ^ (x << 1) }

  /** Byte `i` of a register. */
  function ByteOf(v: V128, i: nat): Word
    requires i < 16
  {
    if i < 8 then WordByte(v.lo, i) else WordByte(v.hi, i - 8)
  }

  /** Byte `i` of a word, the lowest first. */
  function WordByte(x: Word, i: nat): (b: Word)
    requires i < 8
    ensures b < 256
  {
    match i
    case 0 => x & 0xFF
    case 1 => (x >> 8) & 0xFF
    case 2 => (x >> 16) & 0xFF
    case 3 => (x >> 24) & 0xFF
    case 4 => (x >> 32) & 0xFF
    case 5 => (x >> 40) & 0xFF
    case 6 => (x >> 48) & 0xFF
    case _ => x >> 56
  }

  function FromBytes(b0: Word, b1: Word, b2: Word, b3: Word, b4: Word, b5: Word, b6: Word, b7: Word): Word {
    b0 | (b1 << 8) | (b2 << 16) | (b3 << 24) | (b4 << 32) | (b5 << 40) | (b6 << 48) | (b7 << 56)
  }

  /** `_mm_shuffle_epi8`, with the mask as sixteen byte numbers. */
  function ShuffleEpi8(v: V128, mask: seq<nat>): V128
    requires |mask| == 16 && forall i :: 0 <= i < 16 ==> mask[i] < 16
  {
    V128(
      FromBytes(ByteOf(v, mask[0]), ByteOf(v, mask[1]), ByteOf(v, mask[2]), ByteOf(v, mask[3]),
                ByteOf(v, mask[4]), ByteOf(v, mask[5]), ByteOf(v, mask[6]), ByteOf(v, mask[7])),
      FromBytes(ByteOf(v, mask[8]), ByteOf(v, mask[9]), ByteOf(v, mask[10]), ByteOf(v, mask[11]),
                ByteOf(v, mask[12]), ByteOf(v, mask[13]), ByteOf(v, mask[14]), ByteOf(v, mask[15])))
  }

  // `_mm_shuffle_epi32` with `_MM_SHUFFLE(2,3,0,1)`, on one word.
  function SwapHalves(x: Word): Word { (x >> 32) | (x << 32) }

  // `_mm_xor_si128(_mm_srli_epi64(x, 63), _mm_add_epi64(x, x))`, on one word.
  function DoubleAround(x: Word): Word { (x >> 63) ^ (x + x) }

  const R16: seq<nat> := [2, 3, 4, 5, 6, 7, 0, 1, 10, 11, 12, 13, 14, 15, 8, 9]
  const R24: seq<nat> := [3, 4, 5, 6, 7, 0, 1, 2, 11, 12, 13, 14, 15, 8, 9, 10]

  datatype Rotation = By32 | By24 | By16 | By63

  function Ror(x: Word, c: Rotation): Word {
    match c
    case By32 => Ror32(x)
    case By24 => Ror24(x)
    case By16 => Ror16(x)
    case By63 => Ror63(x)
  }

  /** `_mm_roti_epi64`: shuffles where SSSE3 has them, otherwise the shifts of the standard. */
  function Roti(v: V128, c: Rotation, ssse3: bool): V128 {
    if !ssse3 then V128(Ror(v.lo, c), Ror(v.hi, c))
    else
      match c
      case By32 => V128(SwapHalves(v.lo), SwapHalves(v.hi))
      case By24 => ShuffleEpi8(v, R24)
      case By16 => ShuffleEpi8(v, R16)
      case By63 => V128(DoubleAround(v.lo), DoubleAround(v.hi))
  }

  /** The shuffles, the doubling and the shifts all rotate. */
  lemma RotationsAgree(v: V128, c: Rotation, ssse3: bool)
    ensures Roti(v, c, ssse3) == V128(Ror(v.lo, c), Ror(v.hi, c))
  {
    hide ShuffleEpi8, SwapHalves, DoubleAround, Ror32, Ror24, Ror16, Ror63;
    Shuffled24(v);
    Shuffled16(v);
    Halves(v.lo);
    Halves(v.hi);
    Doubled(v.lo);
    Doubled(v.hi);
  }

  lemma Bytes16(x: Word)
    ensures Ror16(x) == FromBytes(WordByte(x, 2), WordByte(x, 3), WordByte(x, 4), WordByte(x, 5),
                                  WordByte(x, 6), WordByte(x, 7), WordByte(x, 0), WordByte(x, 1))
  {
  }

  lemma Bytes24(x: Word)
    ensures Ror24(x) == FromBytes(WordByte(x, 3), WordByte(x, 4), WordByte(x, 5), WordByte(x, 6),
                                  WordByte(x, 7), WordByte(x, 0), WordByte(x, 1), WordByte(x, 2))
  {
  }

  lemma Shuffled16(v: V128)
    ensures ShuffleEpi8(v, R16) == V128(Ror16(v.lo), Ror16(v.hi))
  {
    hide FromBytes, WordByte, Ror16;
    Bytes16(v.lo);
    Bytes16(v.hi);
  }

  lemma Shuffled24(v: V128)
    ensures ShuffleEpi8(v, R24) == V128(Ror24(v.lo), Ror24(v.hi))
  {
    hide FromBytes, WordByte, Ror24;
    Bytes24(v.lo);
    Bytes24(v.hi);
  }

  lemma Halves(x: Word)
    ensures SwapHalves(x) == Ror32(x)
  {
  }

  lemma Doubled(x: Word)
    ensures DoubleAround(x) == Ror63(x)
  {
  }

  /* ------------------------------ other vector operations ------------------------------ */

  // One lane of `_mm_add_epi64` and of `_mm_xor_si128`.
  function AddLane(x: Word, y: Word): Word { x + y }

  function XorLane(x: Word, y: Word): Word { x ^ y }

  function AddEpi64(v: V128, w: V128): V128 { V128(AddLane(v.lo, w.lo), AddLane(v.hi, w.hi)) }

  function XorSi128(v: V128, w: V128): V128 { V128(XorLane(v.lo, w.lo), XorLane(v.hi, w.hi)) }

  // Section 2.3 of RFC 7693: addition modulo 2^64 and exclusive or.
  function Add(x: Word, y: Word): Word { x + y }

  function Xor(x: Word, y: Word): Word { x ^ y }

  lemma LanesAre()
    ensures forall x, y :: AddLane(x, y) == Add(x, y)
    ensures forall x, y :: XorLane(x, y) == Xor(x, y)
  {
  }

  function UnpackLo(v: V128, w: V128): V128 { V128(v.lo, w.lo) }

  function UnpackHi(v: V128, w: V128): V128 { V128(v.hi, w.hi) }

  /** `_mm_alignr_epi8(v, w, 8)`. */
  function Alignr8(v: V128, w: V128): V128 { V128(w.hi, v.lo) }

  /** `_mm_blend_epi16(v, w, 0xF0)`. */
  function BlendF0(v: V128, w: V128): V128 { V128(v.lo, w.hi) }

  /** `_mm_shuffle_epi32` with `_MM_SHUFFLE(1,0,3,2)`: the words change places. */
  function Shuffle1032(v: V128): V128 { V128(v.hi, v.lo) }

  function SetEpi64x(hi: Word, lo: Word): V128 { V128(lo, hi) }

  /* ------------------------------------ the loads ------------------------------------ */

  const SIGMA: seq<seq<nat>> := [
    [0, 1, 2, 3, 4, 5, 6, 7, 8, 9, 10, 11, 12, 13, 14, 15],
    [14, 10, 4, 8, 9, 15, 13, 6, 1, 12, 0, 2, 11, 7, 5, 3],
    [11, 8, 12, 0, 5, 2, 15, 13, 10, 14, 3, 6, 7, 1, 9, 4],
    [7, 9, 3, 1, 13, 12, 11, 14, 2, 6, 5, 10, 4, 0, 15, 8],
    [9, 0, 5, 7, 2, 4, 10, 15, 14, 1, 11, 12, 6, 8, 3, 13],
    [2, 12, 6, 10, 0, 11, 8, 3, 4, 13, 7, 5, 15, 14, 1, 9],
    [12, 5, 1, 15, 14, 13, 4, 10, 0, 7, 6, 3, 9, 2, 8, 11],
    [13, 11, 7, 14, 12, 1, 3, 9, 5, 0, 15, 4, 8, 6, 2, 10],
    [6, 15, 14, 9, 11, 3, 0, 8, 12, 2, 13, 7, 1, 4, 10, 5],
    [10, 2, 8, 4, 7, 6, 1, 5, 15, 11, 9, 14, 3, 12, 13, 0],
    [0, 1, 2, 3, 4, 5, 6, 7, 8, 9, 10, 11, 12, 13, 14, 15],
    [14, 10, 4, 8, 9, 15, 13, 6, 1, 12, 0, 2, 11, 7, 5, 3]
  ]

  predicate WordNames(s: seq<nat>) {
    |s| == 16 && forall i :: 0 <= i < 16 ==> s[i] < 16
  }

  /** `LOAD_MSG_r_q` of the SSE4.1 header. */
  function LoadSse41(m: seq<Word>, r: nat, q: nat): (V128, V128)
    requires |m| == 16 && r < 12 && 1 <= q <= 4
  {
    var m0, m1, m2, m3 := V128(m[0], m[1]), V128(m[2], m[3]), V128(m[4], m[5]), V128(m[6], m[7]);
    var m4, m5, m6, m7 := V128(m[8], m[9]), V128(m[10], m[11]), V128(m[12], m[13]), V128(m[14], m[15]);
    match r
    case 0 =>
      (match q
      case 1 => (UnpackLo(m0, m1), UnpackLo(m2, m3))
      case 2 => (UnpackHi(m0, m1), UnpackHi(m2, m3))
      case 3 => (UnpackLo(m4, m5), UnpackLo(m6, m7))
      case _ => (UnpackHi(m4, m5), UnpackHi(m6, m7)))
    case 1 =>
      (match q
      case 1 => (UnpackLo(m7, m2), UnpackHi(m4, m6))
      case 2 => (UnpackLo(m5, m4), Alignr8(m3, m7))
      case 3 => (Shuffle1032(m0), UnpackHi(m5, m2))
      case _ => (UnpackLo(m6, m1), UnpackHi(m3, m1)))
    case 2 =>
      (match q
      case 1 => (Alignr8(m6, m5), UnpackHi(m2, m7))
      case 2 => (UnpackLo(m4, m0), BlendF0(m1, m6))
      case 3 => (BlendF0(m5, m1), UnpackHi(m3, m4))
      case _ => (UnpackLo(m7, m3), Alignr8(m2, m0)))
    case 3 =>
      (match q
      case 1 => (UnpackHi(m3, m1), UnpackHi(m6, m5))
      case 2 => (UnpackHi(m4, m0), UnpackLo(m6, m7))
      case 3 => (BlendF0(m1, m2), BlendF0(m2, m7))
      case _ => (UnpackLo(m3, m5), UnpackLo(m0, m4)))
    case 4 =>
      (match q
      case 1 => (UnpackHi(m4, m2), UnpackLo(m1, m5))
      case 2 => (BlendF0(m0, m3), BlendF0(m2, m7))
      case 3 => (BlendF0(m7, m5), BlendF0(m3, m1))
      case _ => (Alignr8(m6, m0), BlendF0(m4, m6)))
    case 5 =>
      (match q
      case 1 => (UnpackLo(m1, m3), UnpackLo(m0, m4))
      case 2 => (UnpackLo(m6, m5), UnpackHi(m5, m1))
      case 3 => (BlendF0(m2, m3), UnpackHi(m7, m0))
      case _ => (UnpackHi(m6, m2), BlendF0(m7, m4)))
    case 6 =>
      (match q
      case 1 => (BlendF0(m6, m0), UnpackLo(m7, m2))
      case 2 => (UnpackHi(m2, m7), Alignr8(m5, m6))
      case 3 => (UnpackLo(m0, m3), Shuffle1032(m4))
      case _ => (UnpackHi(m3, m1), BlendF0(m1, m5)))
    case 7 =>
      (match q
      case 1 => (UnpackHi(m6, m3), BlendF0(m6, m1))
      case 2 => (Alignr8(m7, m5), UnpackHi(m0, m4))
      case 3 => (UnpackHi(m2, m7), UnpackLo(m4, m1))
      case _ => (UnpackLo(m0, m2), UnpackLo(m3, m5)))
    case 8 =>
      (match q
      case 1 => (UnpackLo(m3, m7), Alignr8(m0, m5))
      case 2 => (UnpackHi(m7, m4), Alignr8(m4, m1))
      case 3 => (m6, Alignr8(m5, m0))
      case _ => (BlendF0(m1, m3), m2))
    case 9 =>
      (match q
      case 1 => (UnpackLo(m5, m4), UnpackHi(m3, m0))
      case 2 => (UnpackLo(m1, m2), BlendF0(m3, m2))
      case 3 => (UnpackHi(m7, m4), UnpackHi(m1, m6))
      case _ => (Alignr8(m7, m5), UnpackLo(m6, m0)))
    case 10 =>
      (match q
      case 1 => (UnpackLo(m0, m1), UnpackLo(m2, m3))
      case 2 => (UnpackHi(m0, m1), UnpackHi(m2, m3))
      case 3 => (UnpackLo(m4, m5), UnpackLo(m6, m7))
      case _ => (UnpackHi(m4, m5), UnpackHi(m6, m7)))
    case _ =>
      (match q
      case 1 => (UnpackLo(m7, m2), UnpackHi(m4, m6))
      case 2 => (UnpackLo(m5, m4), Alignr8(m3, m7))
      case 3 => (Shuffle1032(m0), UnpackHi(m5, m2))
      case _ => (UnpackLo(m6, m1), UnpackHi(m3, m1)))
  }

  /** `LOAD_MSG_r_q` of the SSE2 header. */
  function LoadSse2(m: seq<Word>, r: nat, q: nat): (V128, V128)
    requires |m| == 16 && r < 12 && 1 <= q <= 4
  {
    match r
    case 0 =>
      (match q
      case 1 => (SetEpi64x(m[2], m[0]), SetEpi64x(m[6], m[4]))
      case 2 => (SetEpi64x(m[3], m[1]), SetEpi64x(m[7], m[5]))
      case 3 => (SetEpi64x(m[10], m[8]), SetEpi64x(m[14], m[12]))
      case _ => (SetEpi64x(m[11], m[9]), SetEpi64x(m[15], m[13])))
    case 1 =>
      (match q
      case 1 => (SetEpi64x(m[4], m[14]), SetEpi64x(m[13], m[9]))
      case 2 => (SetEpi64x(m[8], m[10]), SetEpi64x(m[6], m[15]))
      case 3 => (SetEpi64x(m[0], m[1]), SetEpi64x(m[5], m[11]))
      case _ => (SetEpi64x(m[2], m[12]), SetEpi64x(m[3], m[7])))
    case 2 =>
      (match q
      case 1 => (SetEpi64x(m[12], m[11]), SetEpi64x(m[15], m[5]))
      case 2 => (SetEpi64x(m[0], m[8]), SetEpi64x(m[13], m[2]))
      case 3 => (SetEpi64x(m[3], m[10]), SetEpi64x(m[9], m[7]))
      case _ => (SetEpi64x(m[6], m[14]), SetEpi64x(m[4], m[1])))
    case 3 =>
      (match q
      case 1 => (SetEpi64x(m[3], m[7]), SetEpi64x(m[11], m[13]))
      case 2 => (SetEpi64x(m[1], m[9]), SetEpi64x(m[14], m[12]))
      case 3 => (SetEpi64x(m[5], m[2]), SetEpi64x(m[15], m[4]))
      case _ => (SetEpi64x(m[10], m[6]), SetEpi64x(m[8], m[0])))
    case 4 =>
      (match q
      case 1 => (SetEpi64x(m[5], m[9]), SetEpi64x(m[10], m[2]))
      case 2 => (SetEpi64x(m[7], m[0]), SetEpi64x(m[15], m[4]))
      case 3 => (SetEpi64x(m[11], m[14]), SetEpi64x(m[3], m[6]))
      case _ => (SetEpi64x(m[12], m[1]), SetEpi64x(m[13], m[8])))
    case 5 =>
      (match q
      case 1 => (SetEpi64x(m[6], m[2]), SetEpi64x(m[8], m[0]))
      case 2 => (SetEpi64x(m[10], m[12]), SetEpi64x(m[3], m[11]))
      case 3 => (SetEpi64x(m[7], m[4]), SetEpi64x(m[1], m[15]))
      case _ => (SetEpi64x(m[5], m[13]), SetEpi64x(m[9], m[14])))
    case 6 =>
      (match q
      case 1 => (SetEpi64x(m[1], m[12]), SetEpi64x(m[4], m[14]))
      case 2 => (SetEpi64x(m[15], m[5]), SetEpi64x(m[10], m[13]))
      case 3 => (SetEpi64x(m[6], m[0]), SetEpi64x(m[8], m[9]))
      case _ => (SetEpi64x(m[3], m[7]), SetEpi64x(m[11], m[2])))
    case 7 =>
      (match q
      case 1 => (SetEpi64x(m[7], m[13]), SetEpi64x(m[3], m[12]))
      case 2 => (SetEpi64x(m[14], m[11]), SetEpi64x(m[9], m[1]))
      case 3 => (SetEpi64x(m[15], m[5]), SetEpi64x(m[2], m[8]))
      case _ => (SetEpi64x(m[4], m[0]), SetEpi64x(m[10], m[6])))
    case 8 =>
      (match q
      case 1 => (SetEpi64x(m[14], m[6]), SetEpi64x(m[0], m[11]))
      case 2 => (SetEpi64x(m[9], m[15]), SetEpi64x(m[8], m[3]))
      case 3 => (SetEpi64x(m[13], m[12]), SetEpi64x(m[10], m[1]))
      case _ => (SetEpi64x(m[7], m[2]), SetEpi64x(m[5], m[4])))
    case 9 =>
      (match q
      case 1 => (SetEpi64x(m[8], m[10]), SetEpi64x(m[1], m[7]))
      case 2 => (SetEpi64x(m[4], m[2]), SetEpi64x(m[5], m[6]))
      case 3 => (SetEpi64x(m[9], m[15]), SetEpi64x(m[13], m[3]))
      case _ => (SetEpi64x(m[14], m[11]), SetEpi64x(m[0], m[12])))
    case 10 =>
      (match q
      case 1 => (SetEpi64x(m[2], m[0]), SetEpi64x(m[6], m[4]))
      case 2 => (SetEpi64x(m[3], m[1]), SetEpi64x(m[7], m[5]))
      case 3 => (SetEpi64x(m[10], m[8]), SetEpi64x(m[14], m[12]))
      case _ => (SetEpi64x(m[11], m[9]), SetEpi64x(m[15], m[13])))
    case _ =>
      (match q
      case 1 => (SetEpi64x(m[4], m[14]), SetEpi64x(m[13], m[9]))
      case 2 => (SetEpi64x(m[8], m[10]), SetEpi64x(m[6], m[15]))
      case 3 => (SetEpi64x(m[0], m[1]), SetEpi64x(m[5], m[11]))
      case _ => (SetEpi64x(m[2], m[12]), SetEpi64x(m[3], m[7])))
  }

  /** The words that row `s` of sigma names at `k`, `k + 2`, `k + 4` and `k + 6`, in two registers. */
  function Named(m: seq<Word>, s: seq<nat>, k: nat): (V128, V128)
    requires |m| == 16 && WordNames(s) && k <= 9
  {
    (V128(m[s[k]], m[s[k + 2]]), V128(m[s[k + 4]], m[s[k + 6]]))
  }

  /** Where the words of quarter `q` start in the row of sigma. */
  function QuarterStart(q: nat): nat
    requires 1 <= q <= 4
  {
    match q
    case 1 => 0
    case 2 => 1
    case 3 => 8
    case _ => 9
  }

  /** The headers load the words that row `r` of sigma names. */
  lemma Sse2Loads(m: seq<Word>, r: nat, q: nat)
    requires |m| == 16 && r < 12 && 1 <= q <= 4
    ensures |SIGMA| == 12 && WordNames(SIGMA[r])
    ensures LoadSse2(m, r, q) == Named(m, SIGMA[r], QuarterStart(q))
  {
    hide WordNames;
    SigmaRows(r);
  }

  lemma SigmaRows(r: nat)
    requires r < 12
    ensures |SIGMA| == 12 && WordNames(SIGMA[r])
  {
  }

  /** The shuffles of the SSE4.1 header and the word lists of the SSE2 header load the same words. */
  lemma LoadsAgree(m: seq<Word>, r: nat, q: nat)
    requires |m| == 16 && r < 12 && 1 <= q <= 4
    ensures LoadSse41(m, r, q) == LoadSse2(m, r, q)
  {
  }

  /* --------------------------------- the scalar round --------------------------------- */

  datatype Quad = Quad(a: Word, b: Word, c: Word, d: Word)

  /** Section 3.1 of RFC 7693 on one column or diagonal. */
  function G(q: Quad, x: Word, y: Word): Quad {
    var a1 := Add(Add(q.a, q.b), x);
    var d1 := Ror32(Xor(q.d, a1));
    var c1 := Add(q.c, d1);
    var b1 := Ror24(Xor(q.b, c1));
    var a2 := Add(Add(a1, b1), y);
    var d2 := Ror16(Xor(d1, a2));
    var c2 := Add(c1, d2);
    var b2 := Ror63(Xor(b1, c2));
    Quad(a2, b2, c2, d2)
  }

  function Mix(v: seq<Word>, a: nat, b: nat, c: nat, d: nat, x: Word, y: Word): (r: seq<Word>)
    requires |v| == 16 && a < 16 && b < 16 && c < 16 && d < 16
    ensures |r| == 16
  {
    var q := G(Quad(v[a], v[b], v[c], v[d]), x, y);
    v[a := q.a][b := q.b][c := q.c][d := q.d]
  }

  lemma MixChanges(v: seq<Word>, a: nat, b: nat, c: nat, d: nat, x: Word, y: Word)
    requires |v| == 16 && a < 4 <= b < 8 <= c < 12 <= d < 16
    ensures var r := Mix(v, a, b, c, d, x, y);
      && Quad(r[a], r[b], r[c], r[d]) == G(Quad(v[a], v[b], v[c], v[d]), x, y)
      && forall i :: 0 <= i < 16 && i != a && i != b && i != c && i != d ==> r[i] == v[i]
  {
    hide G;
  }

  function MixColumns(v: seq<Word>, m: seq<Word>, s: seq<nat>): (r: seq<Word>)
    requires |v| == 16 == |m| && WordNames(s)
    ensures |r| == 16
  {
    var v1 := Mix(v, 0, 4, 8, 12, m[s[0]], m[s[1]]);
    var v2 := Mix(v1, 1, 5, 9, 13, m[s[2]], m[s[3]]);
    var v3 := Mix(v2, 2, 6, 10, 14, m[s[4]], m[s[5]]);
    Mix(v3, 3, 7, 11, 15, m[s[6]], m[s[7]])
  }

  function MixDiagonals(v: seq<Word>, m: seq<Word>, s: seq<nat>): (r: seq<Word>)
    requires |v| == 16 == |m| && WordNames(s)
    ensures |r| == 16
  {
    var v1 := Mix(v, 0, 5, 10, 15, m[s[8]], m[s[9]]);
    var v2 := Mix(v1, 1, 6, 11, 12, m[s[10]], m[s[11]]);
    var v3 := Mix(v2, 2, 7, 8, 13, m[s[12]], m[s[13]]);
    Mix(v3, 3, 4, 9, 14, m[s[14]], m[s[15]])
  }

  /** One round of section 3.2 of RFC 7693. */
  function ScalarRound(v: seq<Word>, m: seq<Word>, s: seq<nat>): (r: seq<Word>)
    requires |v| == 16 == |m| && WordNames(s)
    ensures |r| == 16
  {
    MixDiagonals(MixColumns(v, m, s), m, s)
  }

  /* ----------------------------- columns, diagonals, registers ----------------------------- */

  datatype Quads = Quads(q0: Quad, q1: Quad, q2: Quad, q3: Quad)

  function Columns(v: seq<Word>): Quads
    requires |v| == 16
  {
    Quads(Quad(v[0], v[4], v[8], v[12]), Quad(v[1], v[5], v[9], v[13]),
          Quad(v[2], v[6], v[10], v[14]), Quad(v[3], v[7], v[11], v[15]))
  }

  function Diagonals(v: seq<Word>): Quads
    requires |v| == 16
  {
    Quads(Quad(v[0], v[5], v[10], v[15]), Quad(v[1], v[6], v[11], v[12]),
          Quad(v[2], v[7], v[8], v[13]), Quad(v[3], v[4], v[9], v[14]))
  }

  /** G on four quadruples, with eight words named from `k` on. */
  function GAll(q: Quads, m: seq<Word>, s: seq<nat>, k: nat): Quads
    requires |m| == 16 && WordNames(s) && k <= 8
  {
    Quads(G(q.q0, m[s[k]], m[s[k + 1]]), G(q.q1, m[s[k + 2]], m[s[k + 3]]),
          G(q.q2, m[s[k + 4]], m[s[k + 5]]), G(q.q3, m[s[k + 6]], m[s[k + 7]]))
  }

  lemma ColumnsMixed(v: seq<Word>, m: seq<Word>, s: seq<nat>)
    requires |v| == 16 == |m| && WordNames(s)
    ensures Columns(MixColumns(v, m, s)) == GAll(Columns(v), m, s, 0)
  {
    hide G, Mix;
    MixChanges(v, 0, 4, 8, 12, m[s[0]], m[s[1]]);
    var v1 := Mix(v, 0, 4, 8, 12, m[s[0]], m[s[1]]);
    MixChanges(v1, 1, 5, 9, 13, m[s[2]], m[s[3]]);
    var v2 := Mix(v1, 1, 5, 9, 13, m[s[2]], m[s[3]]);
    MixChanges(v2, 2, 6, 10, 14, m[s[4]], m[s[5]]);
    var v3 := Mix(v2, 2, 6, 10, 14, m[s[4]], m[s[5]]);
    MixChanges(v3, 3, 7, 11, 15, m[s[6]], m[s[7]]);
  }

  lemma DiagonalsMixed(v: seq<Word>, m: seq<Word>, s: seq<nat>)
    requires |v| == 16 == |m| && WordNames(s)
    ensures Diagonals(MixDiagonals(v, m, s)) == GAll(Diagonals(v), m, s, 8)
  {
    hide G, Mix;
    MixChanges(v, 0, 5, 10, 15, m[s[8]], m[s[9]]);
    var v1 := Mix(v, 0, 5, 10, 15, m[s[8]], m[s[9]]);
    MixChanges(v1, 1, 6, 11, 12, m[s[10]], m[s[11]]);
    var v2 := Mix(v1, 1, 6, 11, 12, m[s[10]], m[s[11]]);
    MixChanges(v2, 2, 7, 8, 13, m[s[12]], m[s[13]]);
    var v3 := Mix(v2, 2, 7, 8, 13, m[s[12]], m[s[13]]);
    MixChanges(v3, 3, 4, 9, 14, m[s[14]], m[s[15]]);
  }

  lemma ColumnsDetermine(v: seq<Word>, w: seq<Word>)
    requires |v| == 16 == |w| && Columns(v) == Columns(w)
    ensures v == w
  {
  }

  lemma DiagonalsDetermine(v: seq<Word>, w: seq<Word>)
    requires |v| == 16 == |w| && Diagonals(v) == Diagonals(w)
    ensures v == w
  {
  }

  /** The sixteen words of the state in eight registers. */
  datatype Rows = Rows(row1l: V128, row2l: V128, row3l: V128, row4l: V128,
                       row1h: V128, row2h: V128, row3h: V128, row4h: V128)
  {
    function View(): (v: seq<Word>)
      ensures |v| == 16
    {
      [row1l.lo, row1l.hi, row1h.lo, row1h.hi, row2l.lo, row2l.hi, row2h.lo, row2h.hi,
       row3l.lo, row3l.hi, row3h.lo, row3h.hi, row4l.lo, row4l.hi, row4h.lo, row4h.hi]
    }

    function Column(): Quads {
      Quads(Quad(row1l.lo, row2l.lo, row3l.lo, row4l.lo), Quad(row1l.hi, row2l.hi, row3l.hi, row4l.hi),
            Quad(row1h.lo, row2h.lo, row3h.lo, row4h.lo), Quad(row1h.hi, row2h.hi, row3h.hi, row4h.hi))
    }

    function Diagonal(): Quads {
      Quads(Quad(row1l.lo, row2l.hi, row3h.lo, row4h.hi), Quad(row1l.hi, row2h.lo, row3h.hi, row4l.lo),
            Quad(row1h.lo, row2h.hi, row3l.lo, row4l.hi), Quad(row1h.hi, row2l.lo, row3l.hi, row4h.lo))
    }
  }

  lemma Views(rows: Rows)
    ensures Columns(rows.View()) == rows.Column() && Diagonals(rows.View()) == rows.Diagonal()
  {
  }

  /* --------------------------------- the vector round --------------------------------- */

  /** Half of G: one message word goes in, the rotations are `first` and `second`. */
  function HalfG(q: Quad, x: Word, first: Rotation, second: Rotation): Quad {
    var a := Add(Add(q.a, q.b), x);
    var d := Ror(Xor(q.d, a), first);
    var c := Add(q.c, d);
    Quad(a, Ror(Xor(q.b, c), second), c, d)
  }

  function HalfAll(q: Quads, b0: V128, b1: V128, first: Rotation, second: Rotation): Quads {
    Quads(HalfG(q.q0, b0.lo, first, second), HalfG(q.q1, b0.hi, first, second),
          HalfG(q.q2, b1.lo, first, second), HalfG(q.q3, b1.hi, first, second))
  }

  lemma TwoHalves(q: Quad, x: Word, y: Word)
    ensures G(q, x, y) == HalfG(HalfG(q, x, By32, By24), y, By16, By63)
  {
    hide Ror32, Ror24, Ror16, Ror63, Add, Xor;
  }

  lemma AddSwap(a: Word, b: Word, x: Word)
    ensures Add(Add(a, x), b) == Add(Add(a, b), x)
  {
    assert Add(a, x) == a + x && Add(a + x, b) == a + x + b;
    assert Add(a, b) == a + b && Add(a + b, x) == a + b + x;
  }

  /** The macros `G1` and `G2`, which differ in the rotations only: half of G on each column. */
  method GHalf(rows: Rows, b0: V128, b1: V128, first: Rotation, second: Rotation, ssse3: bool) returns (r: Rows)
    ensures r.Column() == HalfAll(rows.Column(), b0, b1, first, second)
  {
    hide Roti, Ror, Add, Xor, AddLane, XorLane;
    LanesAre();
    var row1l, row2l, row3l, row4l := rows.row1l, rows.row2l, rows.row3l, rows.row4l;
    var row1h, row2h, row3h, row4h := rows.row1h, rows.row2h, rows.row3h, rows.row4h;
    AddSwap(row1l.lo, row2l.lo, b0.lo);
    AddSwap(row1l.hi, row2l.hi, b0.hi);
    AddSwap(row1h.lo, row2h.lo, b1.lo);
    AddSwap(row1h.hi, row2h.hi, b1.hi);

    row1l := AddEpi64(AddEpi64(row1l, b0), row2l);
    row1h := AddEpi64(AddEpi64(row1h, b1), row2h);

    row4l := XorSi128(row4l, row1l);
    row4h := XorSi128(row4h, row1h);

    RotationsAgree(row4l, first, ssse3);
    RotationsAgree(row4h, first, ssse3);
    row4l := Roti(row4l, first, ssse3);
    row4h := Roti(row4h, first, ssse3);

    row3l := AddEpi64(row3l, row4l);
    row3h := AddEpi64(row3h, row4h);

    row2l := XorSi128(row2l, row3l);
    row2h := XorSi128(row2h, row3h);

    RotationsAgree(row2l, second, ssse3);
    RotationsAgree(row2h, second, ssse3);
    row2l := Roti(row2l, second, ssse3);
    row2h := Roti(row2h, second, ssse3);
    r := Rows(row1l, row2l, row3l, row4l, row1h, row2h, row3h, row4h);
  }

  /** The macro `DIAGONALIZE`, with SSSE3 or without: diagonals become columns. */
  method Diagonalize(rows: Rows, ssse3: bool) returns (r: Rows)
    ensures r.Column() == rows.Diagonal()
  {
    var row2l, row3l, row4l := rows.row2l, rows.row3l, rows.row4l;
    var row2h, row3h, row4h := rows.row2h, rows.row3h, rows.row4h;
    if ssse3 {
      var t0 := Alignr8(row2h, row2l);
      var t1 := Alignr8(row2l, row2h);
      row2l := t0;
      row2h := t1;

      t0 := row3l;
      row3l := row3h;
      row3h := t0;

      t0 := Alignr8(row4h, row4l);
      t1 := Alignr8(row4l, row4h);
      row4l := t1;
      row4h := t0;
    } else {
      var t0 := row4l;
      var t1 := row2l;
      row4l := row3l;
      row3l := row3h;
      row3h := row4l;
      row4l := UnpackHi(row4h, UnpackLo(t0, t0));
      row4h := UnpackHi(t0, UnpackLo(row4h, row4h));
      row2l := UnpackHi(row2l, UnpackLo(row2h, row2h));
      row2h := UnpackHi(row2h, UnpackLo(t1, t1));
    }
    r := Rows(rows.row1l, row2l, row3l, row4l, rows.row1h, row2h, row3h, row4h);
  }

  /** The macro `UNDIAGONALIZE`: columns become diagonals again. */
  method Undiagonalize(rows: Rows, ssse3: bool) returns (r: Rows)
    ensures r.Diagonal() == rows.Column()
  {
    var row2l, row3l, row4l := rows.row2l, rows.row3l, rows.row4l;
    var row2h, row3h, row4h := rows.row2h, rows.row3h, rows.row4h;
    if ssse3 {
      var t0 := Alignr8(row2l, row2h);
      var t1 := Alignr8(row2h, row2l);
      row2l := t0;
      row2h := t1;

      t0 := row3l;
      row3l := row3h;
      row3h := t0;

      t0 := Alignr8(row4l, row4h);
      t1 := Alignr8(row4h, row4l);
      row4l := t1;
      row4h := t0;
    } else {
      var t0 := row3l;
      row3l := row3h;
      row3h := t0;
      t0 := row2l;
      var t1 := row4l;
      row2l := UnpackHi(row2h, UnpackLo(row2l, row2l));
      row2h := UnpackHi(t0, UnpackLo(row2h, row2h));
      row4l := UnpackHi(row4l, UnpackLo(row4h, row4h));
      row4h := UnpackHi(row4h, UnpackLo(t1, t1));
    }
    r := Rows(rows.row1l, row2l, row3l, row4l, rows.row1h, row2h, row3h, row4h);
  }

  /** The instruction sets a build may use. */
  datatype Config = Config(ssse3: bool, sse41: bool)

  function Load(m: seq<Word>, r: nat, q: nat, config: Config): (V128, V128)
    requires |m| == 16 && r < 12 && 1 <= q <= 4
  {
    if config.sse41 then LoadSse41(m, r, q) else LoadSse2(m, r, q)
  }

  /** `LOAD_MSG`, `G1`, `LOAD_MSG`, `G2`: G on the four columns, with the words of half a row of sigma. */
  method MixRows(rows: Rows, m: seq<Word>, r: nat, second: bool, config: Config) returns (out: Rows)
    requires |m| == 16 && r < 12
    ensures |SIGMA| == 12 && WordNames(SIGMA[r])
    ensures out.Column() == GAll(rows.Column(), m, SIGMA[r], if second then 8 else 0)
  {
    hide G, HalfG, Load;
    var q := if second then 3 else 1;
    var b := Load(m, r, q, config);
    var mid := GHalf(rows, b.0, b.1, By32, By24, config.ssse3);
    var c := Load(m, r, q + 1, config);
    out := GHalf(mid, c.0, c.1, By16, By63, config.ssse3);
    LoadIs(m, r, q, config);
    LoadIs(m, r, q + 1, config);
    HalvesMeet(rows.Column(), m, SIGMA[r], if second then 8 else 0);
  }

  lemma LoadIs(m: seq<Word>, r: nat, q: nat, config: Config)
    requires |m| == 16 && r < 12 && 1 <= q <= 4
    ensures |SIGMA| == 12 && WordNames(SIGMA[r])
    ensures Load(m, r, q, config) == Named(m, SIGMA[r], QuarterStart(q))
  {
    hide LoadSse2, LoadSse41, Named;
    Sse2Loads(m, r, q);
    LoadsAgree(m, r, q);
  }

  lemma HalvesMeet(q: Quads, m: seq<Word>, s: seq<nat>, k: nat)
    requires |m| == 16 && WordNames(s) && k <= 8
    ensures var b, c := Named(m, s, k), Named(m, s, k + 1);
      HalfAll(HalfAll(q, b.0, b.1, By32, By24), c.0, c.1, By16, By63) == GAll(q, m, s, k)
  {
    hide G, HalfG;
    TwoHalves(q.q0, m[s[k]], m[s[k + 1]]);
    TwoHalves(q.q1, m[s[k + 2]], m[s[k + 3]]);
    TwoHalves(q.q2, m[s[k + 4]], m[s[k + 5]]);
    TwoHalves(q.q3, m[s[k + 6]], m[s[k + 7]]);
  }

  /** The macro `ROUND` is the round of the standard, for every instruction set. */
  method Round(rows: Rows, m: seq<Word>, r: nat, config: Config) returns (out: Rows)
    requires |m| == 16 && r < 12
    ensures |SIGMA| == 12 && WordNames(SIGMA[r])
    ensures out.View() == ScalarRound(rows.View(), m, SIGMA[r])
  {
    hide GAll, ScalarRound;
    var columns := MixRows(rows, m, r, false, config);
    var turned := Diagonalize(columns, config.ssse3);
    var diagonals := MixRows(turned, m, r, true, config);
    out := Undiagonalize(diagonals, config.ssse3);
    RoundsMeet(rows, columns, out, m, SIGMA[r]);
  }

  lemma RoundsMeet(rows: Rows, columns: Rows, out: Rows, m: seq<Word>, s: seq<nat>)
    requires |m| == 16 && WordNames(s)
    requires columns.Column() == GAll(rows.Column(), m, s, 0)
    requires out.Diagonal() == GAll(columns.Diagonal(), m, s, 8)
    ensures out.View() == ScalarRound(rows.View(), m, s)
  {
    hide GAll, MixColumns, MixDiagonals, Columns, Diagonals, WordNames, Rows.View, Rows.Column, Rows.Diagonal;
    Views(rows);
    Views(columns);
    Views(out);
    var v := MixColumns(rows.View(), m, s);
    ColumnsMixed(rows.View(), m, s);
    ColumnsDetermine(columns.View(), v);
    DiagonalsMixed(v, m, s);
    DiagonalsDetermine(out.View(), ScalarRound(rows.View(), m, s));
  }
}
