/**
 `CBitWriter`: bits go into bytes, the first bit highest. The server build stops at the end of its
 buffer; the client build has no such check.
 */
module BitWriter {
  import opened PowersOfTwo

  type Byte = n: nat | n < 256

  type Bits = seq<bool>

  /* ------------------------------ bits, numbers, bytes ------------------------------ */

  /** The low `n` bits of `v`, the highest first. */
  function BitsOf(v: nat, n: nat): (b: Bits)
    ensures |b| == n
  {
    if n == 0 then [] else BitsOf(v / 2, n - 1) + [v % 2 == 1]
  }

  function Value(b: Bits): nat {
    if b == [] then 0 else 2 * Value(b[..|b| - 1]) + if b[|b| - 1] then 1 else 0
  }

  lemma {:induction false} ValueBound(b: Bits)
    ensures Value(b) < Pow2(|b|)
  {
    if b != [] {
      ValueBound(b[..|b| - 1]);
    }
  }

  lemma {:induction false} ValueOfBits(v: nat, n: nat)
    ensures Value(BitsOf(v, n)) == v % Pow2(n)
  {
    if n > 0 {
      ValueOfBits(v / 2, n - 1);
      assert BitsOf(v, n)[..n - 1] == BitsOf(v / 2, n - 1);
      LowBitOff(v, Pow2(n - 1));
    }
  }

  lemma LowBitOff(v: nat, m: nat)
    requires m > 0
    ensures v % (2 * m) == 2 * (v / 2 % m) + v % 2
  {
    var q, r := v / 2 / m, v / 2 % m;
    assert v / 2 == q * m + r;
    assert v == q * (2 * m) + (2 * r + v % 2);
    DivUnique(v, 2 * m, q, 2 * r + v % 2);
  }

  function Zeros(n: nat): (b: Bits)
    ensures |b| == n
  {
    seq(n, _ => false)
  }

  /** Bits that fill up the last byte. */
  function Padding(n: nat): nat { if n % 8 == 0 then 0 else 8 - n % 8 }

  function ByteOf(b: Bits): Byte
    requires |b| == 8
  {
    assert Pow2(8) == 256;
    ValueBound(b);
    Value(b)
  }

  /** Bits in bytes, padded with zeros. */
  function Packed(b: Bits): (p: seq<Byte>)
    ensures |p| == (|b| + 7) / 8
  {
    if b == [] then []
    else if |b| < 8 then [ByteOf(b + Zeros(8 - |b|))]
    else [ByteOf(b[..8])] + Packed(b[8..])
  }

  function Unpacked(p: seq<Byte>): (b: Bits)
    ensures |b| == 8 * |p|
  {
    if p == [] then [] else BitsOf(p[0], 8) + Unpacked(p[1..])
  }

  lemma {:induction false} BitsOfValue(b: Bits)
    ensures BitsOf(Value(b), |b|) == b
  {
    if b != [] {
      var n := |b| - 1;
      BitsOfValue(b[..n]);
      assert Value(b) / 2 == Value(b[..n]) && (Value(b) % 2 == 1 <==> b[n]);
      assert b == b[..n] + [b[n]];
    }
  }

  /** What was packed can be read again, followed by the padding. */
  lemma {:induction false} UnpackPacked(b: Bits)
    ensures Unpacked(Packed(b)) == b + Zeros(Padding(|b|))
  {
    hide Zeros, Padding, Packed, Unpacked;
    if b == [] {
      UnpackNone(b);
    } else if |b| < 8 {
      UnpackShort(b, 8 - |b|);
    } else {
      UnpackPacked(b[8..]);
      UnpackStep(b, b[..8], b[8..]);
      SamePadding(|b|, |b| - 8);
      assert b == b[..8] + b[8..];
    }
  }

  lemma UnpackStep(b: Bits, byte: Bits, rest: Bits)
    requires |b| >= 8 && byte == b[..8] && rest == b[8..]
    ensures Unpacked(Packed(b)) == byte + Unpacked(Packed(rest))
  {
    hide Zeros, Value, BitsOf;
    BitsOfValue(byte);
    PackedStep(b);
  }

  lemma UnpackNone(b: Bits)
    requires b == []
    ensures Unpacked(Packed(b)) == b + Zeros(Padding(|b|))
  {
  }

  lemma UnpackShort(b: Bits, n: nat)
    requires 0 < |b| < 8 && |b| + n == 8
    ensures Unpacked(Packed(b)) == b + Zeros(Padding(|b|))
  {
    hide Zeros, Packed, Unpacked, Padding;
    PaddingIs(|b|, 0, |b|);
    UnpackOne(b, b + Zeros(n), n);
  }

  lemma UnpackOne(b: Bits, p: Bits, n: nat)
    requires 0 < |b| < 8 && |b| + n == 8 == |p| && p == b + Zeros(n)
    ensures Unpacked(Packed(b)) == p
  {
    hide Zeros, Value, BitsOf;
    BitsOfValue(p);
    assert n == 8 - |b|;
    assert Packed(b) == [ByteOf(p)];
    assert Unpacked([ByteOf(p)]) == BitsOf(ByteOf(p), 8) + Unpacked([]);
  }

  lemma SamePadding(n: nat, m: nat)
    requires n == m + 8
    ensures Padding(n) == Padding(m)
  {
  }

  lemma PackedStep(b: Bits)
    requires |b| >= 8
    ensures Packed(b) == [ByteOf(b[..8])] + Packed(b[8..])
  {
    hide ByteOf, Zeros;
  }

  lemma {:induction false} PackedPrefix(b: Bits, c: Bits)
    requires |b| % 8 == 0
    ensures Packed(b + c) == Packed(b) + Packed(c)
  {
    hide ByteOf, Zeros;
    if b == [] {
      assert b + c == c;
    } else {
      PackedPrefix(b[8..], c);
      assert (b + c)[..8] == b[..8] && (b + c)[8..] == b[8..] + c;
      hide Packed;
      PackedStep(b);
      PackedStep(b + c);
    }
  }

  /* ----------------------------------- the class ----------------------------------- */

  class CBitWriter {
    const server: bool
    const dest: array<Byte>
    const maxLen: nat
    var bitBuffer: nat
    var curPos: nat
    var mask: nat

    // Every bit handed to the writer.
    ghost var bits: Bits

    /** Bytes that can be stored. */
    ghost function Room(): nat
      reads this
    {
      if server then maxLen else dest.Length
    }

    /** Nothing was dropped so far. */
    ghost predicate Whole()
      reads this
    {
      |bits| < 8 * Room() + 8
    }

    ghost predicate Valid()
      reads this, dest
    {
      && (server ==> maxLen <= dest.Length) && mask < 256 && bitBuffer < 256 && curPos <= Room()
      && 8 * curPos <= |bits| && dest[..curPos] == Packed(bits[..8 * curPos])
      && (if Whole() then mask < 8 && |bits| == 8 * curPos + mask && bitBuffer == Value(bits[8 * curPos..])
          else server && curPos == maxLen)
    }

    constructor (server: bool, dest: array<Byte>, maxLen: nat)
      requires server ==> maxLen <= dest.Length
      ensures Valid() && bits == [] && this.dest == dest && this.maxLen == maxLen && this.server == server
    {
      this.server, this.dest, this.maxLen := server, dest, maxLen;
      bitBuffer, curPos, mask := 0, 0, 0;
      bits := [];
    }

    /** One turn of the loop in `WriteBits`; `stop` is its early return. */
    method PutBit(bit: bool) returns (stop: bool)
      requires Valid() && (server || |bits| + 1 < 8 * Room() + 8)
      modifies this, dest
      ensures Valid() && bits == old(bits) + [bit]
      ensures stop ==> !Whole()
    {
      hide Value, Packed, ByteOf;
      ghost var done, rest := bits[..8 * curPos], bits[8 * curPos..];
      ghost var whole := Whole();
      bitBuffer := 2 * bitBuffer % 256;
      if bit {
        bitBuffer := bitBuffer + 1;
      }
      mask := (mask + 1) % 256;
      bits := bits + [bit];
      Split(old(bits), bit, 8 * curPos);
      if whole {
        NextValue(rest, bit);
      }
      stop := false;
      if mask == 8 {
        if server && curPos >= maxLen {
          stop := true;
          return;
        }
        StoreByte(done, rest + [bit]);
      }
    }

    /** A full byte goes to the buffer. */
    method StoreByte(ghost done: Bits, ghost byte: Bits)
      requires (server ==> maxLen <= dest.Length) && curPos < Room() && bitBuffer < 256
      requires |done| == 8 * curPos && |byte| == 8 && bits == done + byte
      requires dest[..curPos] == Packed(done) && bitBuffer == Value(byte)
      modifies `curPos, `bitBuffer, `mask, dest
      ensures Valid()
    {
      hide Value, Packed, ByteOf;
      ByteDone(done, byte);
      dest[curPos] := bitBuffer;
      curPos := curPos + 1;
      bitBuffer := 0;
      mask := 0;
      assert bits[..8 * curPos] == bits && bits[8 * curPos..] == [];
    }

    /** `WriteBits`. */
    method WriteBits(v: nat, count: nat)
      requires Valid() && count <= 32 && (server || |bits| + count < 8 * Room() + 8)
      modifies this, dest
      ensures Valid() && bits == old(bits) + BitsOf(v, count)
    {
      hide Valid;
      ghost var before := bits;
      var i := 0;
      while i < count
        invariant 0 <= i <= count && Valid() && bits == before + BitsOf(v, count)[..i]
      {
        BitIs(v, count, i);
        var stop := PutBit(v / Pow2(count - 1 - i) % 2 == 1);
        i := i + 1;
        if stop {
          Dropped(BitsOf(v, count)[i..]);
          assert bits == before + BitsOf(v, count);
          return;
        }
      }
    }

    /** After the writer has given up, the rest of a call makes no difference. */
    ghost method Dropped(rest: Bits)
      requires Valid() && !Whole()
      modifies `bits
      ensures Valid() && bits == old(bits) + rest
    {
      assert (bits + rest)[..8 * curPos] == bits[..8 * curPos];
      bits := bits + rest;
    }

    method WriteBit(bit: nat)
      requires Valid() && bit < 2 && (server || |bits| + 1 < 8 * Room() + 8)
      modifies this, dest
      ensures Valid() && bits == old(bits) + [bit == 1]
    {
      hide Valid, BitsOf;
      OneBit(bit);
      WriteBits(bit, 1);
    }

    /** The loop of `Flush`, which shifts zeros in until a byte is full. */
    method FillByte(ghost rest: Bits, ghost whole: bool)
      requires mask < 256 && bitBuffer < 256 && (whole ==> mask == |rest| <= 8 && bitBuffer == Value(rest))
      modifies `mask, `bitBuffer
      ensures mask < 256 && bitBuffer < 256
      ensures whole ==> bitBuffer == Value(rest + Zeros(8 - |rest|))
    {
      hide Value, Zeros;
      ghost var m := mask;
      NoZeros(rest);
      while mask < 8
        invariant m <= mask < 256 && bitBuffer < 256
        invariant whole ==> mask <= 8 && bitBuffer == Value(rest + Zeros(mask - m))
      {
        if whole {
          NextZero(rest, mask - m);
        }
        mask := mask + 1;
        bitBuffer := 2 * bitBuffer % 256;
      }
    }

    /** `Flush`: the bytes of all bits, or as many as there is room for. */
    method Flush() returns (n: nat)
      requires Valid() && (server || (|bits| + 7) / 8 <= Room())
      modifies this, dest
      ensures Valid() && bits == old(bits) + Zeros(Padding(|old(bits)|))
      ensures n == Min((|old(bits)| + 7) / 8, Room())
      ensures dest[..n] == Packed(old(bits))[..n]
    {
      hide Packed, Value, Zeros, Padding;
      ghost var whole, rest, done := Whole(), bits[8 * curPos..], bits[..8 * curPos];
      ghost var pad := Zeros(Padding(|bits|));
      if whole {
        PaddingIs(|bits|, curPos, mask);
      }
      assert bits == done + rest;
      PackedAt(bits, curPos);
      if mask == 0 {
        if whole {
          NoZeros(bits);
        } else {
          Dropped(pad);
        }
        return curPos;
      }
      FillByte(rest, whole);
      bits := bits + pad;
      assert bits[..8 * curPos] == done;
      if server && curPos >= maxLen { return curPos; }
      assert bits == done + (rest + pad);
      PaddedByte(done, rest, pad);
      ByteDone(done, rest + pad);
      StoreByte(done, rest + pad);
      PackedAt(bits, curPos);
      return curPos;
    }
  }

  lemma OneBit(bit: nat)
    requires bit < 2
    ensures BitsOf(bit, 1) == [bit == 1]
  {
  }

  function Min(a: nat, b: nat): nat { if a < b then a else b }

  lemma PaddingIs(n: nat, c: nat, m: nat)
    requires n == 8 * c + m && m < 8
    ensures Padding(n) == if m == 0 then 0 else 8 - m
  {
  }

  lemma NoZeros(b: Bits)
    ensures b + Zeros(0) == b
  {
  }

  lemma NextZero(rest: Bits, k: nat)
    requires |rest| + k < 8
    ensures Value(rest + Zeros(k + 1)) == 2 * Value(rest + Zeros(k)) < 256
  {
    assert rest + Zeros(k + 1) == rest + Zeros(k) + [false];
    NextValue(rest + Zeros(k), false);
  }

  /** Padding the last byte changes nothing. */
  lemma PaddedByte(done: Bits, rest: Bits, pad: Bits)
    requires |done| % 8 == 0 && 0 < |rest| < 8 && pad == Zeros(8 - |rest|)
    ensures Packed(done + (rest + pad)) == Packed(done + rest)
  {
    hide Zeros, ByteOf;
    PackedPrefix(done, rest);
    PackedPrefix(done, rest + pad);
    LastByte(rest, rest + pad);
  }

  lemma LastByte(rest: Bits, p: Bits)
    requires 0 < |rest| < 8 && |p| == 8 && p == rest + Zeros(8 - |rest|)
    ensures Packed(p) == Packed(rest)
  {
    hide Zeros, ByteOf;
    assert p[..8] == p && p[8..] == [];
    assert Packed(p) == [ByteOf(p)] + Packed([]);
  }

  lemma PackedAt(b: Bits, c: nat)
    requires 8 * c <= |b|
    ensures c <= |Packed(b)| && Packed(b)[..c] == Packed(b[..8 * c])
  {
    hide Packed;
    var n := 8 * c;
    PackedParts(b[..n], b[n..], c);
    assert b == b[..n] + b[n..];
  }

  lemma PackedParts(done: Bits, rest: Bits, c: nat)
    requires |done| == 8 * c
    ensures c <= |Packed(done + rest)| && Packed(done + rest)[..c] == Packed(done)
  {
    hide Packed;
    PackedPrefix(done, rest);
    assert |Packed(done)| == c;
  }

  lemma {:induction false} BitIs(v: nat, count: nat, i: nat)
    requires i < count
    ensures BitsOf(v, count)[i] == (v / Pow2(count - 1 - i) % 2 == 1)
  {
    if i < count - 1 {
      BitIs(v / 2, count - 1, i);
      DivPow2Twice(v, 1, count - 2 - i);
    }
  }

  lemma Split(b: Bits, bit: bool, n: nat)
    requires n <= |b|
    ensures (b + [bit])[..n] == b[..n] && (b + [bit])[n..] == b[n..] + [bit]
  {
  }

  lemma NextValue(rest: Bits, bit: bool)
    requires |rest| < 8
    ensures Value(rest + [bit]) == 2 * Value(rest) + (if bit then 1 else 0) < 256
  {
    assert (rest + [bit])[..|rest|] == rest;
    ValueBound(rest + [bit]);
    assert Pow2(8) == 256;
    Pow2Mono(|rest| + 1, 8);
  }

  lemma ByteDone(done: Bits, byte: Bits)
    requires |done| % 8 == 0 && |byte| == 8
    ensures Value(byte) < 256 && Packed(done + byte) == Packed(done) + [Value(byte)] && Value([]) == 0
  {
    assert Pow2(8) == 256;
    ValueBound(byte);
    PackedPrefix(done, byte);
    assert byte[..8] == byte && byte[8..] == [];
  }
}
