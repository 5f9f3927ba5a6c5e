/**
 The fingerprint of an item: a variable-length bit code of its modifiers, levels and disk usage, cut
 to whole bytes. A decoder recovers the quantised item, unless the server's five bytes were too few.
 */
module ItemFingerprint {
  import opened PowersOfTwo
  import opened BitWriter

  /** The fields the fingerprint reads: three 16-bit modifiers, three 8-bit levels, a 16-bit disk usage. */
  datatype Item = Item(
    modHP: int, modCPU: int, modMemory: int, scriptLevel: nat, codeLevel: nat, hackLevel: nat, diskUsage: nat)
  {
    predicate Valid() {
      && -0x8000 <= modHP < 0x8000 && -0x8000 <= modCPU < 0x8000 && -0x8000 <= modMemory < 0x8000
      && scriptLevel < 256 && codeLevel < 256 && hackLevel < 256 && diskUsage < 0x1_0000
    }

    /** `GetDiskUsage` returns eight bits. */
    function GetDiskUsage(): (d: nat)
      ensures d < 256 && (diskUsage - d) % 256 == 0
    {
      diskUsage % 256
    }
  }

  /** A 16-bit modifier in an unsigned 32-bit variable. */
  function Unsigned(m: int): (v: nat)
    requires -0x8000 <= m < 0x8000
    ensures v < 0x1_0000_0000 && (v - m) % 0x1_0000_0000 == 0
  {
    if m < 0 then m + 0x1_0000_0000 else m
  }

  /* ------------------------------------ the code ------------------------------------ */

  /** A zero for every halving until the value is below 16, then a one and four bits. */
  function ModBits(v: nat): Bits {
    if v < 16 then [true] + BitsOf(v, 4) else [false] + ModBits(v / 2)
  }

  function LevelBits(l: nat): Bits {
    if l < 16 then [false] + BitsOf(l, 4) else [true] + BitsOf(l - 16, 2)
  }

  function DiskBits(d: nat): Bits {
    if d < 32 then [true] + BitsOf(d, 5)
    else if d < 64 then [false, true] + BitsOf(d - 32, 5)
    else [false, false] + BitsOf(d - 64, 8)
  }

  function Code(i: Item): Bits
    requires i.Valid()
  {
    ModBits(Unsigned(i.modHP)) + (ModBits(Unsigned(i.modCPU)) + (ModBits(Unsigned(i.modMemory)) +
    (LevelBits(i.hackLevel) + (LevelBits(i.codeLevel) + (LevelBits(i.scriptLevel) + DiskBits(i.GetDiskUsage()))))))
  }

  /* ----------------------------------- the decoder ----------------------------------- */

  datatype Read = Short | Read(value: nat, rest: Bits)

  function ReadNumber(b: Bits, n: nat): Read {
    if |b| < n then Short else Read(Value(b[..n]), b[n..])
  }

  function Plus(r: Read, k: nat): Read { if r.Short? then Short else Read(r.value + k, r.rest) }

  function ReadMod(b: Bits): Read {
    if b == [] then Short
    else if b[0] then ReadNumber(b[1..], 4)
    else var r := ReadMod(b[1..]); if r.Short? then Short else Read(2 * r.value, r.rest)
  }

  function ReadLevel(b: Bits): Read {
    if b == [] then Short else if b[0] then Plus(ReadNumber(b[1..], 2), 16) else ReadNumber(b[1..], 4)
  }

  function ReadDisk(b: Bits): Read {
    if b == [] then Short
    else if b[0] then ReadNumber(b[1..], 5)
    else if |b| == 1 then Short
    else if b[1] then Plus(ReadNumber(b[2..], 5), 32)
    else Plus(ReadNumber(b[2..], 8), 64)
  }

  /** What a fingerprint tells about an item. */
  datatype Quantised =
    | Unreadable
    | Quantised(hp: nat, cpu: nat, memory: nat, hack: nat, code: nat, script: nat, disk: nat)

  function Decode(b: Bits): Quantised {
    var hp := ReadMod(b);
    if hp.Short? then Unreadable else
    var cpu := ReadMod(hp.rest);
    if cpu.Short? then Unreadable else
    var memory := ReadMod(cpu.rest);
    if memory.Short? then Unreadable else
    var hack := ReadLevel(memory.rest);
    if hack.Short? then Unreadable else
    var code := ReadLevel(hack.rest);
    if code.Short? then Unreadable else
    var script := ReadLevel(code.rest);
    if script.Short? then Unreadable else
    var disk := ReadDisk(script.rest);
    if disk.Short? then Unreadable else
    Quantised(hp.value, cpu.value, memory.value, hack.value, code.value, script.value, disk.value)
  }

  /* --------------------------------- what is recovered --------------------------------- */

  /** The value rounded down to its top four bits. */
  function Rounded(v: nat): nat { if v < 16 then v else 2 * Rounded(v / 2) }

  lemma {:induction false} RoundedIs(v: nat) returns (k: nat)
    ensures Rounded(v) == v / Pow2(k) * Pow2(k) && v / Pow2(k) < 16 && (k > 0 ==> v / Pow2(k) >= 8)
    ensures |ModBits(v)| == k + 5
  {
    k := 0;
    if v >= 16 {
      var j := RoundedIs(v / 2);
      k := j + 1;
      DivPow2Twice(v, 1, j);
      assert Pow2(1) == 2 && Pow2(k) == 2 * Pow2(j);
    }
  }

  /** Levels 16 to 19 have two bits; higher ones lose theirs. */
  function LevelKept(l: nat): nat { if l < 16 then l else 16 + (l - 16) % 4 }

  lemma LevelExact(l: nat)
    ensures LevelKept(l) == l <==> l <= 19
  {
  }

  function Kept(i: Item): Quantised
    requires i.Valid()
  {
    Quantised(Rounded(Unsigned(i.modHP)), Rounded(Unsigned(i.modCPU)), Rounded(Unsigned(i.modMemory)),
              LevelKept(i.hackLevel), LevelKept(i.codeLevel), LevelKept(i.scriptLevel), i.GetDiskUsage())
  }

  lemma NumberRead(v: nat, n: nat, rest: Bits)
    ensures ReadNumber(BitsOf(v, n) + rest, n) == Read(v % Pow2(n), rest)
  {
    ValueOfBits(v, n);
    assert (BitsOf(v, n) + rest)[..n] == BitsOf(v, n) && (BitsOf(v, n) + rest)[n..] == rest;
  }

  lemma Powers()
    ensures Pow2(2) == 4 && Pow2(4) == 16 && Pow2(5) == 32 && Pow2(8) == 256
  {
    assert Pow2(3) == 8 && Pow2(6) == 64;
  }

  lemma {:induction false} ModRead(v: nat, rest: Bits)
    ensures ReadMod(ModBits(v) + rest) == Read(Rounded(v), rest)
  {
    hide BitsOf, ReadNumber;
    var b := ModBits(v) + rest;
    if v < 16 {
      assert b[1..] == BitsOf(v, 4) + rest;
      NumberRead(v, 4, rest);
      Powers();
    } else {
      assert b[1..] == ModBits(v / 2) + rest;
      ModRead(v / 2, rest);
    }
  }

  lemma LevelRead(l: nat, rest: Bits)
    ensures ReadLevel(LevelBits(l) + rest) == Read(LevelKept(l), rest)
  {
    hide BitsOf, ReadNumber;
    var b := LevelBits(l) + rest;
    Powers();
    if l < 16 {
      assert b[1..] == BitsOf(l, 4) + rest;
      NumberRead(l, 4, rest);
    } else {
      assert b[1..] == BitsOf(l - 16, 2) + rest;
      NumberRead(l - 16, 2, rest);
    }
  }

  lemma DiskRead(d: nat, rest: Bits)
    requires d < 256
    ensures ReadDisk(DiskBits(d) + rest) == Read(d, rest)
  {
    hide BitsOf, ReadNumber;
    var b := DiskBits(d) + rest;
    Powers();
    if d < 32 {
      assert b[1..] == BitsOf(d, 5) + rest;
      NumberRead(d, 5, rest);
    } else if d < 64 {
      assert b[2..] == BitsOf(d - 32, 5) + rest;
      NumberRead(d - 32, 5, rest);
    } else {
      assert b[2..] == BitsOf(d - 64, 8) + rest;
      NumberRead(d - 64, 8, rest);
    }
  }

  /** The code is uniquely decodable, whatever follows it. */
  lemma DecodeCode(i: Item, rest: Bits)
    requires i.Valid()
    ensures Decode(Code(i) + rest) == Kept(i)
  {
    hide ModBits, LevelBits, DiskBits, ReadMod, ReadLevel, ReadDisk, Rounded, LevelKept;
    var b7 := DiskBits(i.GetDiskUsage()) + rest;
    var b6 := LevelBits(i.scriptLevel) + b7;
    var b5 := LevelBits(i.codeLevel) + b6;
    var b4 := LevelBits(i.hackLevel) + b5;
    var b3 := ModBits(Unsigned(i.modMemory)) + b4;
    var b2 := ModBits(Unsigned(i.modCPU)) + b3;
    assert Code(i) + rest == ModBits(Unsigned(i.modHP)) + b2;
    ModRead(Unsigned(i.modHP), b2);
    ModRead(Unsigned(i.modCPU), b3);
    ModRead(Unsigned(i.modMemory), b4);
    LevelRead(i.hackLevel, b5);
    LevelRead(i.codeLevel, b6);
    LevelRead(i.scriptLevel, b7);
    DiskRead(i.GetDiskUsage(), rest);
  }

  /* -------------------------------- the server's five bytes -------------------------------- */

  const SIZE: nat := 5

  /** The bytes that the code of an item takes. */
  function CodeBytes(i: Item): nat
    requires i.Valid()
  {
    (|Code(i)| + 7) / 8
  }

  /** The fingerprint as the server stores it. */
  function ServerFingerprint(i: Item): seq<Byte>
    requires i.Valid()
  {
    var p := Packed(Code(i));
    p[..Min(|p|, SIZE)]
  }

  /** Bytes of a packed string hold its first bits. */
  lemma UnpackFirst(b: Bits, c: nat)
    requires 8 * c <= |b|
    ensures c <= |Packed(b)| && Unpacked(Packed(b)[..c]) == b[..8 * c]
  {
    hide Packed, Unpacked, Zeros;
    PackedAt(b, c);
    UnpackPacked(b[..8 * c]);
    PaddingIs(8 * c, c, 0);
    NoZeros(b[..8 * c]);
  }

  /** A fingerprint that fits gives the item back, as far as the code keeps it. */
  lemma FingerprintDecodes(i: Item)
    requires i.Valid() && |Code(i)| <= 8 * SIZE
    ensures Decode(Unpacked(ServerFingerprint(i))) == Kept(i)
  {
    hide Packed, Unpacked, Zeros, Code, Decode, Kept, Padding;
    var p := Packed(Code(i));
    assert p[..Min(|p|, SIZE)] == p;
    UnpackPacked(Code(i));
    DecodeCode(i, Zeros(Padding(|Code(i)|)));
  }

  /** The same item with the lowest bit of its disk usage turned over. */
  function Twin(i: Item): (t: Item)
    requires i.Valid()
    ensures t.Valid()
  {
    i.(diskUsage := if i.diskUsage % 2 == 0 then i.diskUsage + 1 else i.diskUsage - 1)
  }

  lemma TwinDisk(d: nat)
    requires d < 256
    ensures var t := if d % 2 == 0 then d + 1 else d - 1;
      |DiskBits(t)| == |DiskBits(d)| > 0 && DiskBits(t)[..|DiskBits(d)| - 1] == DiskBits(d)[..|DiskBits(d)| - 1]
  {
    var t := if d % 2 == 0 then d + 1 else d - 1;
    var base, n := if d < 32 then 0 else if d < 64 then 32 else 64, if d < 64 then 5 else 8;
    assert (t - base) / 2 == (d - base) / 2;
  }

  /** Items whose code differs in the last bit only. */
  lemma TwinCode(i: Item)
    requires i.Valid()
    ensures |Code(Twin(i))| == |Code(i)| > 0
    ensures Code(Twin(i))[..|Code(i)| - 1] == Code(i)[..|Code(i)| - 1]
    ensures Kept(Twin(i)) != Kept(i)
  {
    hide ModBits, LevelBits, DiskBits, Rounded, LevelKept;
    var t := Twin(i);
    TwinUsage(i.diskUsage);
    TwinDisk(i.GetDiskUsage());
    var p := ModBits(Unsigned(i.modHP)) + (ModBits(Unsigned(i.modCPU)) + (ModBits(Unsigned(i.modMemory)) +
             (LevelBits(i.hackLevel) + (LevelBits(i.codeLevel) + LevelBits(i.scriptLevel)))));
    var d, e := DiskBits(i.GetDiskUsage()), DiskBits(t.GetDiskUsage());
    assert Code(i) == p + d && Code(t) == p + e;
    SameFront(p, d, e);
  }

  lemma TwinUsage(u: nat)
    ensures var t := if u % 2 == 0 then u + 1 else u - 1;
      t % 256 == if u % 256 % 2 == 0 then u % 256 + 1 else u % 256 - 1
  {
  }

  lemma SameFront(p: Bits, d: Bits, e: Bits)
    requires |d| == |e| > 0 && d[..|d| - 1] == e[..|d| - 1]
    ensures (p + d)[..|p + d| - 1] == (p + e)[..|p + d| - 1]
  {
    assert (p + d)[..|p + d| - 1] == p + d[..|d| - 1];
    assert (p + e)[..|p + d| - 1] == p + e[..|d| - 1];
  }

  /** Two items with the same fingerprint, one of which fits, are the same to the decoder. */
  lemma SameFingerprint(i: Item, other: Item)
    requires i.Valid() && other.Valid() && |Code(i)| <= 8 * SIZE
    requires ServerFingerprint(other) == ServerFingerprint(i)
    ensures Kept(other) == Kept(i)
  {
    hide Packed, Unpacked, Zeros, Code, Decode, Kept, Padding;
    FingerprintDecodes(i);
    if |Code(other)| <= 8 * SIZE {
      FingerprintDecodes(other);
    } else {
      var c, o := Code(i), Code(other);
      UnpackFirst(o, SIZE);
      assert Packed(c)[..Min(|Packed(c)|, SIZE)] == Packed(c);
      UnpackPacked(c);
      assert o[..8 * SIZE] == c + Zeros(Padding(|c|));
      assert o == c + o[|c|..];
      DecodeCode(i, o[|c|..]);
      DecodeCode(other, []);
      assert o + [] == o;
    }
  }

  /** The server's fingerprint determines the quantised item exactly if the code has at most forty bits. */
  lemma FingerprintDetermines(i: Item)
    requires i.Valid()
    ensures |Code(i)| <= 8 * SIZE <==>
      forall other: Item :: other.Valid() && ServerFingerprint(other) == ServerFingerprint(i) ==> Kept(other) == Kept(i)
  {
    hide Packed, Code, Kept;
    if |Code(i)| <= 8 * SIZE {
      forall other: Item | other.Valid() && ServerFingerprint(other) == ServerFingerprint(i)
        ensures Kept(other) == Kept(i)
      {
        SameFingerprint(i, other);
      }
    } else {
      var t := Twin(i);
      TwinCode(i);
      var c, o := Code(i), Code(t);
      PackedAt(c, SIZE);
      PackedAt(o, SIZE);
      assert c[..8 * SIZE] == c[..|c| - 1][..8 * SIZE] && o[..8 * SIZE] == o[..|c| - 1][..8 * SIZE];
      assert ServerFingerprint(t) == ServerFingerprint(i);
    }
  }

  /** Items with small modifiers fit. */
  lemma SmallFits(i: Item)
    requires i.Valid() && 0 <= i.modHP < 16 && 0 <= i.modCPU < 16 && 0 <= i.modMemory < 16
    ensures |Code(i)| <= 8 * SIZE
  {
  }

  lemma {:induction false} ModBitsRounded(v: nat)
    ensures ModBits(Rounded(v)) == ModBits(v) && (v >= 16 ==> Rounded(v) >= 16)
  {
    if v >= 16 {
      ModBitsRounded(v / 2);
      assert Rounded(v) / 2 == Rounded(v / 2);
      if v / 2 < 16 {
        assert Rounded(v / 2) == v / 2;
      }
    }
  }

  lemma LevelBitsKept(l: nat)
    ensures LevelBits(LevelKept(l)) == LevelBits(l) && (l >= 16 <==> LevelKept(l) >= 16)
  {
    if l >= 16 {
      TwoBits(l - 16);
    }
  }

  lemma TwoBits(x: nat)
    ensures BitsOf(x % 4, 2) == BitsOf(x, 2)
  {
    assert BitsOf(x, 2) == BitsOf(x / 2, 1) + [x % 2 == 1];
    assert BitsOf(x / 2, 1) == BitsOf(x / 2 / 2, 0) + [x / 2 % 2 == 1];
  }

  /** Items that are the same to the decoder have the same code. */
  lemma CodeOfKept(i: Item, j: Item)
    requires i.Valid() && j.Valid() && Kept(i) == Kept(j)
    ensures Code(i) == Code(j)
  {
    hide ModBits, LevelBits, DiskBits, Rounded, LevelKept;
    ModBitsRounded(Unsigned(i.modHP)); ModBitsRounded(Unsigned(j.modHP));
    ModBitsRounded(Unsigned(i.modCPU)); ModBitsRounded(Unsigned(j.modCPU));
    ModBitsRounded(Unsigned(i.modMemory)); ModBitsRounded(Unsigned(j.modMemory));
    LevelBitsKept(i.hackLevel); LevelBitsKept(j.hackLevel);
    LevelBitsKept(i.codeLevel); LevelBitsKept(j.codeLevel);
    LevelBitsKept(i.scriptLevel); LevelBitsKept(j.scriptLevel);
  }

  /* ------------------------------------ the program ------------------------------------ */

  /** One of the three loops of `GetItemFingerprint`. */
  method WriteModifier(w: CBitWriter, mod: int)
    requires w.Valid() && -0x8000 <= mod < 0x8000
    requires w.server || |w.bits| + |ModBits(Unsigned(mod))| <= 8 * w.Room()
    modifies w, w.dest
    ensures w.Valid() && w.bits == old(w.bits) + ModBits(Unsigned(mod))
  {
    hide BitWriter.CBitWriter.Valid, BitsOf;
    var v := Unsigned(mod);
    ghost var target := w.bits + ModBits(v);
    var again := true;
    while again
      invariant w.Valid() && v >= 0
      invariant target == if again then w.bits + ModBits(v) else w.bits
      decreases again, v
    {
      if v < 16 {
        ModBitsEnd(w.bits, v);
        w.WriteBit(1);
        w.WriteBits(v, 4);
        v := 0;
      } else {
        ModBitsOn(w.bits, v);
        w.WriteBit(0);
        v := v / 2;
      }
      again := v > 0;
    }
  }

  lemma ModBitsEnd(b: Bits, v: nat)
    requires v < 16
    ensures b + ModBits(v) == (b + [true]) + BitsOf(v, 4)
  {
  }

  lemma ModBitsOn(b: Bits, v: nat)
    requires v >= 16
    ensures b + ModBits(v) == (b + [false]) + ModBits(v / 2)
  {
  }

  method WriteLevel(w: CBitWriter, level: nat)
    requires w.Valid() && (w.server || |w.bits| + |LevelBits(level)| <= 8 * w.Room())
    modifies w, w.dest
    ensures w.Valid() && w.bits == old(w.bits) + LevelBits(level)
  {
    hide BitWriter.CBitWriter.Valid, BitsOf;
    ghost var start := w.bits;
    if level < 16 {
      w.WriteBit(0);
      w.WriteBits(level, 4);
      assert w.bits == start + ([false] + BitsOf(level, 4));
    } else {
      w.WriteBit(1);
      w.WriteBits(level - 16, 2);
      assert w.bits == start + ([true] + BitsOf(level - 16, 2));
    }
  }

  method WriteDisk(w: CBitWriter, disk: nat)
    requires w.Valid() && (w.server || |w.bits| + |DiskBits(disk)| <= 8 * w.Room())
    modifies w, w.dest
    ensures w.Valid() && w.bits == old(w.bits) + DiskBits(disk)
  {
    hide BitWriter.CBitWriter.Valid, BitsOf;
    ghost var start := w.bits;
    if disk < 32 {
      w.WriteBit(1);
      w.WriteBits(disk, 5);
      assert w.bits == start + ([true] + BitsOf(disk, 5));
    } else {
      w.WriteBit(0);
      if disk < 64 {
        w.WriteBit(1);
        w.WriteBits(disk - 32, 5);
        assert w.bits == start + ([false, true] + BitsOf(disk - 32, 5));
      } else {
        w.WriteBit(0);
        w.WriteBits(disk - 64, 8);
        assert w.bits == start + ([false, false] + BitsOf(disk - 64, 8));
      }
    }
  }

  /** `GetItemFingerprint`, built for the server or for the client, which does not check for room. */
  method GetItemFingerprint(i: Item, outData: array<Byte>, server: bool) returns (n: nat)
    requires i.Valid() && outData.Length >= if server then SIZE else CodeBytes(i)
    modifies outData
    ensures n == (if server then Min(CodeBytes(i), SIZE) else CodeBytes(i)) <= outData.Length
    ensures outData[..n] == FingerprintOf(i, server)
  {
    hide ModBits, LevelBits, DiskBits, Packed, BitWriter.CBitWriter.Valid, Code, ServerFingerprint;
    var w := new CBitWriter(server, outData, SIZE);
    WriteItem(w, i);
    n := w.Flush();
    ServerPart(i);
    assert Packed(Code(i))[..|Packed(Code(i))|] == Packed(Code(i));
  }

  lemma ServerPart(i: Item)
    requires i.Valid()
    ensures ServerFingerprint(i) == Packed(Code(i))[..Min(CodeBytes(i), SIZE)]
  {
    hide Code;
  }

  method WriteItem(w: CBitWriter, i: Item)
    requires w.Valid() && i.Valid() && w.bits == [] && (w.server || |Code(i)| <= 8 * w.Room())
    modifies w, w.dest
    ensures w.Valid() && w.bits == Code(i)
  {
    hide ModBits, LevelBits, DiskBits, BitWriter.CBitWriter.Valid, Code;
    CodeInOrder(i);
    WriteModifier(w, i.modHP);
    WriteModifier(w, i.modCPU);
    WriteModifier(w, i.modMemory);
    WriteLevel(w, i.hackLevel);
    WriteLevel(w, i.codeLevel);
    WriteLevel(w, i.scriptLevel);
    WriteDisk(w, i.GetDiskUsage());
  }

  /** The parts of the code in the order in which they are written. */
  lemma CodeInOrder(i: Item)
    requires i.Valid()
    ensures Code(i) == [] + ModBits(Unsigned(i.modHP)) + ModBits(Unsigned(i.modCPU)) + ModBits(Unsigned(i.modMemory))
      + LevelBits(i.hackLevel) + LevelBits(i.codeLevel) + LevelBits(i.scriptLevel) + DiskBits(i.GetDiskUsage())
  {
    hide ModBits, LevelBits, DiskBits;
    Regroup(ModBits(Unsigned(i.modHP)), ModBits(Unsigned(i.modCPU)), ModBits(Unsigned(i.modMemory)),
      LevelBits(i.hackLevel), LevelBits(i.codeLevel), LevelBits(i.scriptLevel), DiskBits(i.GetDiskUsage()));
  }

  lemma Regroup(a: Bits, b: Bits, c: Bits, d: Bits, e: Bits, f: Bits, g: Bits)
    ensures a + (b + (c + (d + (e + (f + g))))) == [] + a + b + c + d + e + f + g
  {
    assert a + (b + (c + (d + (e + (f + g))))) == a + (b + (c + (d + (e + f + g))));
    assert [] + a == a;
  }

  function FingerprintOf(i: Item, server: bool): seq<Byte>
    requires i.Valid()
  {
    if server then ServerFingerprint(i) else Packed(Code(i))
  }

  /* ------------------------------ all equipped items ------------------------------ */

  const EQUIP_SLOT_MAX: nat := 7
  const BUFFER_SIZE: nat := 35

  datatype Slot = Empty | Filled(item: Item)

  predicate AllValid(slots: seq<Slot>) {
    forall s :: s in slots && s.Filled? ==> s.item.Valid()
  }

  /** The fingerprints of the equipped items, one behind the other. */
  function Fingerprints(slots: seq<Slot>, server: bool): seq<Byte>
    requires AllValid(slots)
  {
    if slots == [] then []
    else
      var s := slots[|slots| - 1];
      Fingerprints(slots[..|slots| - 1], server) + if s.Filled? then FingerprintOf(s.item, server) else []
  }

  /**
   The first loop of `GetItemFingerprintString`, with its buffer of five bytes a slot. It stops where
   the program would write behind the end of the buffer: on the server never, on the client exactly
   if the codes take more bytes than the buffer has.
   */
  method GetFingerprints(slots: seq<Slot>, server: bool) returns (overrun: bool, buffer: array<Byte>, outPos: nat)
    requires |slots| == EQUIP_SLOT_MAX && AllValid(slots)
    ensures fresh(buffer) && buffer.Length == BUFFER_SIZE
    ensures overrun <==> |Fingerprints(slots, server)| > BUFFER_SIZE
    ensures server ==> !overrun
    ensures !overrun ==>
      outPos == |Fingerprints(slots, server)| && buffer[..outPos] == Fingerprints(slots, server)
  {
    hide Code, Packed, ServerFingerprint;
    buffer := new Byte[BUFFER_SIZE](_ => 0);
    overrun, outPos := false, 0;
    for i := 0 to |slots|
      invariant outPos == |Fingerprints(slots[..i], server)| <= BUFFER_SIZE
      invariant buffer[..outPos] == Fingerprints(slots[..i], server) && (server ==> outPos <= SIZE * i)
    {
      assert slots[i] in slots && slots[..i + 1][..i] == slots[..i];
      if slots[i].Filled? {
        var item := slots[i].item;
        ServerLength(item);
        if !server && outPos + CodeBytes(item) > BUFFER_SIZE {
          FingerprintsGrow(slots, i + 1, server);
          overrun := true;
          return;
        }
        outPos := AppendFingerprint(item, buffer, outPos, server);
      }
    }
    assert slots[..|slots|] == slots;
  }

  /** The fingerprint is written from `outPos` on; the bytes before stay. */
  method AppendFingerprint(item: Item, buffer: array<Byte>, outPos: nat, server: bool) returns (end: nat)
    requires item.Valid() && outPos + (if server then SIZE else CodeBytes(item)) <= buffer.Length
    modifies buffer
    ensures end == outPos + |FingerprintOf(item, server)| <= buffer.Length
    ensures buffer[..end] == old(buffer[..outPos]) + FingerprintOf(item, server)
  {
    hide Code, Packed, ServerFingerprint;
    var rest := new Byte[buffer.Length - outPos](_ => 0);
    var n := GetItemFingerprint(item, rest, server);
    for k := 0 to n
      modifies buffer
      invariant buffer[..outPos + k] == old(buffer[..outPos]) + rest[..k]
    {
      buffer[outPos + k] := rest[k];
    }
    end := outPos + n;
    assert buffer[..end] == old(buffer[..outPos]) + rest[..n];
  }

  lemma ServerLength(i: Item)
    requires i.Valid()
    ensures |FingerprintOf(i, true)| <= SIZE && |FingerprintOf(i, false)| == CodeBytes(i)
  {
    hide Code;
  }

  lemma {:induction false} FingerprintsGrow(slots: seq<Slot>, i: nat, server: bool)
    requires AllValid(slots) && i <= |slots|
    ensures |Fingerprints(slots[..i], server)| <= |Fingerprints(slots, server)|
    decreases |slots| - i
  {
    hide FingerprintOf;
    if i < |slots| {
      assert slots[..i + 1][..i] == slots[..i];
      FingerprintsGrow(slots, i + 1, server);
    } else {
      assert slots[..i] == slots;
    }
  }

  /** Modifiers with `k` bits behind their top four take `k` zeros. */
  lemma {:induction false} ModLength(v: nat, k: nat)
    requires v < 16 * Pow2(k)
    ensures |ModBits(v)| <= k + 5 && (8 * Pow2(k) <= v ==> |ModBits(v)| == k + 5)
    decreases k
  {
    hide BitsOf;
    if k > 0 {
      assert Pow2(k) == 2 * Pow2(k - 1);
      Pow2Mono(0, k - 1);
      if v >= 16 {
        ModLength(v / 2, k - 1);
      }
    }
  }

  lemma Pow28()
    ensures Pow2(28) == 0x1000_0000
  {
    assert Pow2(7) == 128;
    Pow2Add(7, 7);
    Pow2Add(14, 14);
  }

  /** No code is longer than sixteen bytes, so two items always fit into the buffer. */
  lemma CodeBound(i: Item)
    requires i.Valid()
    ensures CodeBytes(i) <= 16
  {
    hide ModBits, LevelBits, DiskBits;
    Pow28();
    ModLength(Unsigned(i.modHP), 28);
    ModLength(Unsigned(i.modCPU), 28);
    ModLength(Unsigned(i.modMemory), 28);
    ShortParts(i.hackLevel, i.codeLevel, i.scriptLevel, i.GetDiskUsage());
  }

  lemma ShortParts(a: nat, b: nat, c: nat, d: nat)
    ensures |LevelBits(a)| <= 5 && |LevelBits(b)| <= 5 && |LevelBits(c)| <= 5 && |DiskBits(d)| <= 10
  {
  }

  /** Three items can overrun it: negative modifiers are large numbers for the code. */
  lemma ThreeOverrun()
    ensures var heavy := Item(-1, -1, -1, 0, 0, 0, 64);
      var slots := [Filled(heavy), Filled(heavy), Filled(heavy), Empty, Empty, Empty, Empty];
      CodeBytes(heavy) == 16 && |Fingerprints(slots, false)| == 48 > BUFFER_SIZE
  {
    hide Code, Fingerprints, FingerprintOf;
    var heavy := Item(-1, -1, -1, 0, 0, 0, 64);
    HeavyCode();
    ServerLength(heavy);
    var one, two := [Filled(heavy)], [Filled(heavy), Filled(heavy)];
    var three := [Filled(heavy), Filled(heavy), Filled(heavy)];
    NoSlots();
    OneMore([], Filled(heavy), one);
    OneMore(one, Filled(heavy), two);
    OneMore(two, Filled(heavy), three);
    OneMore(three, Empty, three + [Empty]);
    OneMore(three + [Empty], Empty, three + [Empty, Empty]);
    OneMore(three + [Empty, Empty], Empty, three + [Empty, Empty, Empty]);
    OneMore(three + [Empty, Empty, Empty], Empty, three + [Empty, Empty, Empty, Empty]);
    assert three + [Empty, Empty, Empty, Empty] ==
      [Filled(heavy), Filled(heavy), Filled(heavy), Empty, Empty, Empty, Empty];
  }

  lemma HeavyCode()
    ensures CodeBytes(Item(-1, -1, -1, 0, 0, 0, 64)) == 16
  {
    hide ModBits, BitsOf;
    Pow28();
    ModLength(Unsigned(-1), 28);
    assert |DiskBits(64)| == 10 && |LevelBits(0)| == 5;
    hide DiskBits, LevelBits;
  }

  lemma NoSlots()
    ensures Fingerprints([], false) == []
  {
  }

  lemma OneMore(slots: seq<Slot>, s: Slot, more: seq<Slot>)
    requires AllValid(slots) && (s.Filled? ==> s.item.Valid()) && more == slots + [s]
    ensures AllValid(more)
    ensures |Fingerprints(more, false)| ==
      |Fingerprints(slots, false)| + if s.Filled? then |FingerprintOf(s.item, false)| else 0
  {
    hide FingerprintOf;
    assert more[..|more| - 1] == slots;
  }
}
