/**
 The streaming interface of BLAKE2b. The buffer holds two blocks and is compressed only when more
 input is at hand, so the last block is never compressed early.
 */
module Blake2bStream {
  import opened Blake2bRound
  import opened Blake2b

  class State {
    const config: Config
    // Whether the compiler has 128-bit integers.
    const wide: bool
    var h: seq<Word>
    var t0: nat
    var t1: nat
    var f0: Word
    var f1: Word
    const buf: array<Byte>
    var buflen: nat
    var lastNode: bool

    // The chain value at the start and everything fed since.
    ghost var start: seq<Word>
    ghost var fed: seq<Byte>

    constructor (config: Config, wide: bool)
      ensures fresh(buf) && buf.Length == 2 * BLOCK
    {
      this.config, this.wide := config, wide;
      buf := new Byte[2 * BLOCK];
    }

    /** Bytes already compressed. */
    ghost function Done(): int
      reads this
    {
      |fed| - buflen
    }

    ghost predicate Valid()
      reads this, buf
    {
      && buf.Length == 2 * BLOCK && |start| == 8 && buflen <= 2 * BLOCK && buflen <= |fed|
      && Done() % BLOCK == 0 && (Done() > 0 ==> buflen > 0)
      && t0 < W64 && t1 < W64 && t0 + W64 * t1 == Done() % W128
      && f0 == Flag(false) && f1 == Flag(false)
      && h == Chain(start, fed[..Done()])
      && buf[..buflen] == fed[Done()..]
    }

    lemma ShapeOf()
      requires Valid()
      ensures buf.Length == 2 * BLOCK && buflen <= 2 * BLOCK && (Done() > 0 ==> buflen > 0)
    {
    }

    /** `blake2b_init_param`, after `blake2b_init` has made the parameter block. */
    method InitParam(p: seq<Byte>)
      requires buf.Length == 2 * BLOCK && |p| == OUT
      modifies this, buf
      ensures Valid() && fed == [] && start == WordsOf(XorBytes(BytesOf(IV), p)) && !lastNode
    {
      hide BytesOf, WordsOf, XorByte;
      var v := BytesOf(IV);
      forall i | 0 <= i < buf.Length {
        buf[i] := 0;
      }
      t0, t1, f0, f1, buflen, lastNode := 0, 0, 0, 0, 0, false;
      var x := [];
      for i := 0 to OUT
        invariant |x| == i && forall j :: 0 <= j < i ==> x[j] == XorByte(v[j], p[j])
        modifies {}
      {
        x := x + [XorByte(v[i], p[i])];
      }
      assert x == XorBytes(v, p);
      h := WordsOf(x);
      start, fed := h, [];
    }

    /** `blake2b_init`. */
    method Init(outlen: nat) returns (r: int)
      requires buf.Length == 2 * BLOCK && outlen < 256
      modifies this, buf
      ensures r == if 0 < outlen <= OUT then 0 else -1
      ensures r == 0 ==> Valid() && fed == [] && start == Start(outlen as Byte, 0) && !lastNode
    {
      if outlen == 0 || outlen > OUT { return -1; }
      InitParam(ParamBlock(outlen as Byte, 0));
      StartIs(outlen as Byte, 0);
      return 0;
    }

    /** `blake2b_init_key`: the padded key is the first block of input. */
    method InitKey(outlen: nat, key: seq<Byte>) returns (r: int)
      requires buf.Length == 2 * BLOCK && outlen < 256 && |key| < 256
      modifies this, buf
      ensures r == if 0 < outlen <= OUT && 0 < |key| <= OUT then 0 else -1
      ensures r == 0 ==> Valid() && fed == Padded(key) && start == Start(outlen as Byte, |key| as Byte) && !lastNode
    {
      if outlen == 0 || outlen > OUT { return -1; }
      if key == [] || |key| > OUT { return -1; }
      InitParam(ParamBlock(outlen as Byte, |key| as Byte));
      StartIs(outlen as Byte, |key| as Byte);
      Update(Padded(key));
      assert fed == Padded(key);
      return 0;
    }

    method Count(inc: nat)
      requires t0 < W64 && t1 < W64 && inc < W64
      modifies `t0, `t1
      ensures t0 < W64 && t1 < W64 && t0 + W64 * t1 == (old(t0) + W64 * old(t1) + inc) % W128
    {
      if wide {
        t0, t1 := IncrementCounter128(t0, t1, inc);
      } else {
        t0, t1 := IncrementCounter(t0, t1, inc);
      }
    }

    /** `blake2b_compress( S, S->buf )`. */
    method CompressBuffer(ghost n: nat, ghost last: bool)
      requires buf.Length == 2 * BLOCK && |h| == 8
      requires t0 < W64 && t1 < W64 && t0 + W64 * t1 == n % W128
      requires f0 == Flag(last) && f1 == Flag(last && lastNode)
      modifies `h
      ensures h == F(old(h), buf[..BLOCK], n, last, lastNode)
    {
      hide Flag, Feed, Rounds, Initial, WordsOf, LowWord, HighWord, ToWord;
      Counted(t0, t1, n);
      h := Compress(h, buf[..BLOCK], ToWord(t0), ToWord(t1), f0, f1, config);
    }

    /** `memcpy( S->buf + left, in, … )` and the new length. */
    method Fill(chunk: seq<Byte>)
      requires Valid() && buflen + |chunk| <= 2 * BLOCK
      requires Done() > 0 ==> buflen + |chunk| > 0
      modifies buf, `buflen, `fed
      ensures Valid() && fed == old(fed) + chunk && buflen == old(buflen) + |chunk|
    {
      hide Chain, Flag;
      ghost var held, done := buf[..buflen], Done();
      var left := buflen;
      forall i | 0 <= i < |chunk| {
        buf[left + i] := chunk[i];
      }
      buflen := buflen + |chunk|;
      assert buf[..buflen] == held + chunk;
      assert (fed + chunk)[..done] == fed[..done];
      assert (fed + chunk)[done..] == fed[done..] + chunk;
      fed := fed + chunk;
    }

    /** Counts and compresses the first block of the buffer, then moves `count` bytes down. */
    method FirstBlock(count: nat)
      requires Valid() && buflen > BLOCK && buflen - BLOCK <= count <= BLOCK
      modifies `h, `t0, `t1, buf, `buflen
      ensures Valid() && buflen == old(buflen) - BLOCK
    {
      hide Chain, Flag, F, W128;
      ghost var done, block, rest := Done(), buf[..BLOCK], buf[BLOCK..buflen];
      Count(BLOCK);
      CountOn(done, BLOCK);
      NotLast(h, block, done + BLOCK, lastNode);
      CompressBuffer(done + BLOCK, false);
      ShiftDown(count);
      assert buf[..buflen] == rest;
      Advanced(start, fed, done, block, rest);
    }

    /** `memcpy( S->buf, S->buf + 128, … )` and the new length. */
    method ShiftDown(count: nat)
      requires buf.Length == 2 * BLOCK && BLOCK < buflen <= BLOCK + count && count <= BLOCK
      modifies buf, `buflen
      ensures buflen == old(buflen) - BLOCK && buf[..buflen] == old(buf[BLOCK..buflen])
    {
      forall i | 0 <= i < count {
        buf[i] := buf[BLOCK + i];
      }
      buflen := buflen - BLOCK;
    }

    /** `blake2b_update`. */
    method Update(input: seq<Byte>)
      requires Valid()
      modifies this, buf
      ensures Valid() && fed == old(fed) + input && start == old(start) && lastNode == old(lastNode)
    {
      hide Chain, Flag, F, Valid;
      var pos: nat, inlen: nat := 0, |input|;
      while inlen > 0
        invariant Valid() && pos + inlen == |input|
        decreases inlen, buflen
        invariant fed == old(fed) + input[..pos] && start == old(start) && lastNode == old(lastNode)
      {
        ShapeOf();
        var left := buflen;
        var fill := 2 * BLOCK - left;
        if inlen > fill {
          assert input[..pos] + input[pos..pos + fill] == input[..pos + fill];
          Fill(input[pos..pos + fill]);
          FirstBlock(BLOCK);
          pos := pos + fill;
          inlen := inlen - fill;
        } else {
          assert input[..pos] + input[pos..pos + inlen] == input[..pos + inlen];
          Fill(input[pos..pos + inlen]);
          pos := pos + inlen;
          inlen := inlen - inlen;
        }
      }
      assert input[..pos] == input;
    }

    /** `blake2b_final`: the digest is that of all the bytes fed, however they were split. */
    method Final(outlen: nat) returns (r: int, out: seq<Byte>)
      requires Valid() && outlen < 256
      modifies this, buf
      ensures outlen > OUT ==> r == -1 && Valid() && fed == old(fed) && start == old(start)
      ensures outlen <= OUT ==> r == 0 && out == BytesOf(Hash(old(start), old(fed), old(lastNode)))[..outlen]
    {
      hide Valid, Chain, Flag, F, BytesOf, Hash;
      if outlen > OUT { return -1, []; }
      ShapeOf();
      if buflen > BLOCK {
        FirstBlock(buflen - BLOCK);
        ShapeOf();
      }
      LastBlock();
      return 0, BytesOf(h)[..outlen];
    }

    /** Counts the rest of the buffer, sets the flags, pads and compresses. */
    method LastBlock()
      requires Valid() && buflen <= BLOCK
      modifies this, buf
      ensures h == Hash(old(start), old(fed), old(lastNode))
    {
      hide Chain, Flag, F, Zeros;
      ghost var done, rest := Done(), buf[..buflen];
      Count(buflen);
      CountOn(done, buflen);
      if lastNode {
        f1 := 0xFFFF_FFFF_FFFF_FFFF;
      }
      f0 := 0xFFFF_FFFF_FFFF_FFFF;
      Flags();
      forall i | buflen <= i < 2 * BLOCK {
        buf[i] := 0;
      }
      ZerosAre(BLOCK - buflen);
      assert buf[..BLOCK] == Padded(rest);
      CompressBuffer(|fed|, true);
      BeforeLastIs(|fed|, done);
    }
  }

  lemma Flags()
    ensures Flag(true) == 0xFFFF_FFFF_FFFF_FFFF && Flag(false) == 0
  {
  }

  lemma NotLast(h: seq<Word>, block: seq<Byte>, t: nat, lastNode: bool)
    requires |h| == 8 && |block| == BLOCK
    ensures F(h, block, t, false, lastNode) == F(h, block, t, false, false)
  {
  }

  lemma ZerosAre(n: nat)
    ensures Zeros(n) == seq(n, _ => 0)
  {
  }

  lemma Advanced(start: seq<Word>, fed: seq<Byte>, done: nat, block: seq<Byte>, rest: seq<Byte>)
    requires |start| == 8 && done <= |fed| && done % BLOCK == 0 && |block| == BLOCK && fed[done..] == block + rest
    ensures |fed| - |rest| == done + BLOCK && (done + BLOCK) % BLOCK == 0 && fed[done + BLOCK..] == rest
    ensures Chain(start, fed[..done + BLOCK]) == F(Chain(start, fed[..done]), block, done + BLOCK, false, false)
  {
    hide Chain, F;
    SplitAt(fed, done, block, rest);
    NextMultiple(done);
    ChainOn(start, fed[..done], block);
  }

  lemma NextMultiple(n: nat)
    ensures n % BLOCK == 0 ==> (n + BLOCK) % BLOCK == 0
  {
  }

  lemma SplitAt<T>(s: seq<T>, n: nat, a: seq<T>, b: seq<T>)
    requires n <= |s| && s[n..] == a + b
    ensures n + |a| <= |s| && s[..n + |a|] == s[..n] + a && s[n + |a|..] == b
  {
    assert |s| == n + |a| + |b|;
    assert forall i :: 0 <= i < |a| + |b| ==> s[n + i] == s[n..][i];
  }

  /** One more block joins the chain. */
  lemma ChainOn(start: seq<Word>, p: seq<Byte>, block: seq<Byte>)
    requires |start| == 8 && |p| % BLOCK == 0 && |block| == BLOCK
    ensures Chain(start, p + block) == F(Chain(start, p), block, |p| + BLOCK, false, false)
  {
    hide F;
    assert (p + block)[..|p|] == p && (p + block)[|p|..] == block;
  }

  /* ------------------------------ one call, and long outputs ------------------------------ */

  /** The function `blake2b`. A missing key has length zero. */
  method Blake2bOf(input: seq<Byte>, key: seq<Byte>, outlen: nat, config: Config, wide: bool)
    returns (r: int, out: seq<Byte>)
    requires outlen < 256 && |key| < 256
    ensures r == if 0 < outlen <= OUT && |key| <= OUT then 0 else -1
    ensures r == 0 ==> out == Digest(outlen, key, input)
  {
    hide Hash, BytesOf, Start, Padded, State.Valid;
    var s := new State(config, wide);
    out := [];
    if key != [] {
      r := s.InitKey(outlen, key);
      if r < 0 { return -1, out; }
    } else {
      r := s.Init(outlen);
      if r < 0 { return -1, out; }
    }
    s.Update(input);
    assert key == [] ==> s.fed == [] + input;
    r, out := s.Final(outlen);
    return 0, out;
  }

  /** The four bytes of a 32-bit integer in memory. */
  function Le32(n: nat): (b: seq<Byte>)
    requires n < 0x1_0000_0000
    ensures |b| == 4
  {
    FourBytes(n)
  }

  /** The low byte comes first. */
  lemma Le32Is(n: nat)
    requires n < 0x1_0000_0000
    ensures var b := Le32(n);
      n == b[0] as nat + 0x100 * (b[1] as nat) + 0x1_0000 * (b[2] as nat) + 0x100_0000 * (b[3] as nat)
  {
    hide FourBytes, Higher;
    FourBytesIs(n);
  }

  /** The digests V_1, V_2, … of section 3.3 of RFC 9106. */
  function Link(t: nat, a: seq<Byte>, i: nat): (v: seq<Byte>)
    requires 0 < i && t < 0x1_0000_0000
    ensures |v| == OUT
  {
    if i == 1 then Digest(OUT, [], Le32(t) + a) else Digest(OUT, [], Link(t, a, i - 1))
  }

  /** The first halves of the first `r` of them. */
  function Halves(t: nat, a: seq<Byte>, r: nat): (w: seq<Byte>)
    requires t < 0x1_0000_0000
    ensures |w| == 32 * r
  {
    if r == 0 then [] else Halves(t, a, r - 1) + Link(t, a, r)[..32]
  }

  /** The variable-length hash function H' of section 3.3 of RFC 9106. */
  function LongHash(t: nat, a: seq<Byte>): (d: seq<Byte>)
    requires 0 < t < 0x1_0000_0000
    ensures |d| == t
  {
    if t <= OUT then Digest(t, [], Le32(t) + a)
    else
      var r := (t + 31) / 32 - 2;
      Halves(t, a, r) + Digest(t - 32 * r, [], Link(t, a, r))
  }

  /** `blake2b_long`. */
  method Blake2bLong(outlen: nat, input: seq<Byte>, config: Config, wide: bool) returns (out: seq<Byte>)
    requires 0 < outlen < 0x1_0000_0000
    ensures out == LongHash(outlen, input)
  {
    hide Hash, BytesOf, Start, State.Valid, Le32, Digest;
    var outBuffer := FirstDigest(outlen, if outlen <= OUT then outlen else OUT, input, config, wide);
    if outlen <= OUT { return outBuffer; }
    out := outBuffer[..OUT / 2];
    var toproduce := outlen - OUT / 2;
    ghost var i: nat := 1;
    while toproduce > OUT
      invariant i > 0 && toproduce == outlen - 32 * i && toproduce > OUT / 2
      invariant outBuffer == Link(outlen, input, i)
      invariant out == Halves(outlen, input, i)
    {
      var inBuffer := outBuffer;
      var r;
      r, outBuffer := Blake2bOf(inBuffer, [], OUT, config, wide);
      out := out + outBuffer[..OUT / 2];
      toproduce := toproduce - OUT / 2;
      i := i + 1;
    }
    assert i == (outlen + 31) / 32 - 2;
    var r, last := Blake2bOf(outBuffer, [], toproduce, config, wide);
    out := out + last[..toproduce];
  }

  /** The length and the input, fed one after the other. */
  method FirstDigest(outlen: nat, size: nat, input: seq<Byte>, config: Config, wide: bool) returns (d: seq<Byte>)
    requires outlen < 0x1_0000_0000 && 0 < size <= OUT
    ensures d == Digest(size, [], Le32(outlen) + input)
  {
    hide Hash, BytesOf, Start, State.Valid, Le32;
    var s := new State(config, wide);
    var r := s.Init(size);
    s.Update(Le32(outlen));
    s.Update(input);
    assert s.fed == [] + (Le32(outlen) + input);
    r, d := s.Final(size);
  }
}
