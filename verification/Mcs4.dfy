/**
 The program counter stack of the MCS-4 emulator: four 12-bit counters packed in six bytes, and the two
 instructions that push and pop them.
 */
module Mcs4 {
  type Byte = bv8

  type Addr = bv16

  /* ------------------------------- four counters in six bytes ------------------------------- */

  /** `_mcs4_get_pc` on the six bytes. */
  function GetPc(pc: seq<Byte>, idx: nat): Addr
    requires |pc| == 6 && idx < 4
  {
    var loc := idx / 2 * 3;
    if idx % 2 == 1 then Odd(pc[loc + 1], pc[loc + 2]) else Even(pc[loc], pc[loc + 1])
  }

  /** `_mcs4_set_pc` on the six bytes. */
  function SetPc(pc: seq<Byte>, idx: nat, val: Addr): (r: seq<Byte>)
    requires |pc| == 6 && idx < 4
    ensures |r| == 6
  {
    var loc := idx / 2 * 3;
    if idx % 2 == 1 then pc[loc + 1 := OddHigh(pc[loc + 1], val)][loc + 2 := OddLow(val)]
    else pc[loc := EvenHigh(val)][loc + 1 := EvenLow(pc[loc + 1], val)]
  }

  function Odd(b1: Byte, b2: Byte): Addr { (((b1 & 0xF) as Addr) << 8) | (b2 as Addr) }

  function Even(b0: Byte, b1: Byte): Addr { ((b0 as Addr) << 4) | (((b1 >> 4) & 0xF) as Addr) }

  function OddHigh(b1: Byte, val: Addr): Byte { (b1 & 0xF0) | (((val & 0xF00) >> 8) as Byte) }

  function OddLow(val: Addr): Byte { (val & 0xFF) as Byte }

  function EvenHigh(val: Addr): Byte { ((val & 0xFF0) >> 4) as Byte }

  function EvenLow(b1: Byte, val: Addr): Byte { (b1 & 0x0F) | (((val & 0x00F) << 4) as Byte) }

  lemma NibbleIs(b: Byte)
    ensures (b & 0xF) as nat == b as nat % 16 && ((b >> 4) & 0xF) as nat == b as nat / 16
  {
    assert b as nat == (b & 0xF) as nat + 16 * ((b >> 4) as nat);
    assert (b >> 4) & 0xF == b >> 4 && b & 0xF <= 0xF;
  }

  lemma OddIs(b1: Byte, b2: Byte)
    ensures Odd(b1, b2) as nat == 0x100 * (b1 as nat % 16) + b2 as nat
  {
    NibbleIs(b1);
    assert ((((b1 & 0xF) as Addr) << 8) | (b2 as Addr)) as nat == 0x100 * ((b1 & 0xF) as nat) + b2 as nat;
  }

  lemma EvenIs(b0: Byte, b1: Byte)
    ensures Even(b0, b1) as nat == 16 * (b0 as nat) + b1 as nat / 16
  {
    NibbleIs(b1);
    assert (((b0 as Addr) << 4) | (((b1 >> 4) & 0xF) as Addr)) as nat == 16 * (b0 as nat) + ((b1 >> 4) & 0xF) as nat;
  }

  lemma Nibbles(b0: Byte, b1: Byte, b2: Byte, val: Addr)
    ensures Odd(OddHigh(b1, val), OddLow(val)) == val & 0xFFF
    ensures Even(EvenHigh(val), EvenLow(b1, val)) == val & 0xFFF
    ensures Even(b0, OddHigh(b1, val)) == Even(b0, b1)
    ensures Odd(EvenLow(b1, val), b2) == Odd(b1, b2)
  {
  }

  /** Writing one counter leaves the other three alone. */
  lemma SetGet(pc: seq<Byte>, i: nat, val: Addr, j: nat)
    requires |pc| == 6 && i < 4 && j < 4
    ensures GetPc(SetPc(pc, i, val), j) == if i == j then val & 0xFFF else GetPc(pc, j)
  {
    hide Odd, Even, OddHigh, OddLow, EvenHigh, EvenLow;
    var loc := i / 2 * 3;
    Nibbles(pc[loc], pc[loc + 1], pc[loc + 2], val);
  }

  /** The four counters. */
  function Counters(pc: seq<Byte>): (c: seq<Addr>)
    requires |pc| == 6
    ensures |c| == 4
  {
    [GetPc(pc, 0), GetPc(pc, 1), GetPc(pc, 2), GetPc(pc, 3)]
  }

  /** Where each counter lies in the bytes. */
  lemma EvenCounter(pc: seq<Byte>, k: nat)
    requires |pc| == 6 && k < 2
    ensures Counters(pc)[2 * k] as nat == 16 * (pc[3 * k] as nat) + pc[3 * k + 1] as nat / 16
  {
    EvenIs(pc[3 * k], pc[3 * k + 1]);
    hide Odd, Even;
    assert 2 * k / 2 * 3 == 3 * k && 2 * k % 2 == 0;
  }

  lemma OddCounter(pc: seq<Byte>, k: nat)
    requires |pc| == 6 && k < 2
    ensures Counters(pc)[2 * k + 1] as nat == 0x100 * (pc[3 * k + 1] as nat % 16) + pc[3 * k + 2] as nat
  {
    OddIs(pc[3 * k + 1], pc[3 * k + 2]);
    hide Odd, Even;
    assert (2 * k + 1) / 2 * 3 == 3 * k && (2 * k + 1) % 2 == 1;
  }

  lemma CountersBound(pc: seq<Byte>)
    requires |pc| == 6
    ensures Counters(pc)[0] as nat < 0x1000
  {
    hide Odd, Even;
    EvenIs(pc[0], pc[1]);
    ByteBound(pc[0]);
    ByteBound(pc[1]);
  }

  lemma ByteBound(b: Byte)
    ensures b as nat < 256
  {
  }

  lemma TwelveBits(pc: seq<Byte>, j: nat)
    requires |pc| == 6 && j < 4
    ensures GetPc(pc, j) & 0xFFF == GetPc(pc, j)
  {
    hide Odd, Even;
    var loc := j / 2 * 3;
    Narrow(pc[loc], pc[loc + 1], pc[loc + 2]);
  }

  lemma Narrow(b0: Byte, b1: Byte, b2: Byte)
    ensures Odd(b1, b2) & 0xFFF == Odd(b1, b2) && Even(b0, b1) & 0xFFF == Even(b0, b1)
  {
  }

  /** The six bytes are four independent counters. */
  lemma SetCounters(pc: seq<Byte>, i: nat, val: Addr)
    requires |pc| == 6 && i < 4
    ensures Counters(SetPc(pc, i, val)) == Counters(pc)[i := val & 0xFFF]
  {
    hide GetPc, SetPc;
    forall j: nat | j < 4
      ensures GetPc(SetPc(pc, i, val), j) == if i == j then val & 0xFFF else GetPc(pc, j)
    {
      SetGet(pc, i, val, j);
    }
  }

  /** `_mcs4_inc_pc` stays on its page. */
  function Advance(a: Addr): Addr { (a & 0xF00) | ((a + 1) & 0xFF) }

  /** The address after `n`: the next one, or the first of its page after the last. */
  function Following(n: nat): (m: nat) { if n % 0x100 == 0xFF then n - 0xFF else n + 1 }

  function Low(a: Addr): Byte { (a & 0xFF) as Byte }

  function High(a: Addr): Byte { (a >> 8) as Byte }

  lemma HighLow(a: Addr)
    ensures a as nat == Low(a) as nat + 0x100 * (High(a) as nat)
  {
    assert a as nat == ((a & 0xFF) as Byte) as nat + 0x100 * (((a >> 8) as Byte) as nat);
  }

  lemma AdvanceIs(a: Addr)
    requires a as nat < 0x1000
    ensures Advance(a) as nat == Following(a as nat) < 0x1000
  {
    HighLow(a);
    HighLow(Advance(a));
    AdvanceParts(a);
    hide Advance, Low, High, Following;
    IncLow(a);
    Paged(a as nat, Low(a) as nat, High(a) as nat, Low(Advance(a)) as nat);
  }

  lemma Paged(n: nat, l: nat, h: nat, l': nat)
    requires n == l + 0x100 * h < 0x1000 && l < 0x100 && l' == if l == 0xFF then 0 else l + 1
    ensures l' + 0x100 * h == Following(n) < 0x1000
  {
  }

  lemma IncLow(a: Addr)
    requires a as nat < 0x1000
    ensures Low(a) as nat < 0x100
    ensures Low(Advance(a)) as nat == if Low(a) as nat == 0xFF then 0 else Low(a) as nat + 1
  {
    AdvanceParts(a);
    hide Low, Advance;
    ByteBound(Low(a));
    IncByte(Low(a));
  }

  lemma AdvanceParts(a: Addr)
    requires a as nat < 0x1000
    ensures Low(Advance(a)) == Low(a) + 1 && High(Advance(a)) == High(a)
  {
    assert a < 0x1000;
  }

  lemma IncByte(b: Byte)
    ensures (b + 1) as nat == if b as nat == 0xFF then 0 else b as nat + 1
  {
    assert (b + 1) as nat == if b == 0xFF then 0 else b as nat + 1;
  }

  /** Away from the end of a page a call of two bytes resumes behind them. */
  lemma TwoOn(a: Addr)
    requires a as nat < 0x1000
    ensures Advance(Advance(a)) as nat == Following(Following(a as nat)) < 0x1000
    ensures a as nat % 0x100 < 0xFE ==> Advance(Advance(a)) as nat == a as nat + 2
  {
    hide Advance, Following;
    AdvanceIs(a);
    AdvanceIs(Advance(a));
    TwoFollowing(a as nat);
  }

  lemma TwoFollowing(n: nat)
    ensures n % 0x100 < 0xFE ==> Following(Following(n)) == n + 2
  {
  }

  lemma AdvanceFits(a: Addr)
    ensures Advance(a) & 0xFFF == Advance(a)
  {
  }

  /* ---------------------------------- push and pop ---------------------------------- */

  /** The counters and the stack pointer. */
  datatype Stack = Stack(c: seq<Addr>, sp: nat) {
    predicate Valid() { |c| == 4 && sp < 4 }

    /** The live part: the current counter and the return addresses below it. */
    function View(): seq<Addr>
      requires Valid()
    {
      c[..sp + 1]
    }
  }

  /** The stack after `mcs4_op_jms`; at depth three the stack pointer wraps around. */
  function Jms(s: Stack, next: Addr): (r: Stack)
    requires s.Valid()
    ensures r.Valid()
    ensures s.sp < 3 ==> r.View() == [next, Advance(Advance(s.c[0]))] + s.View()[1..]
  {
    var back := Advance(Advance(s.c[0]));
    if s.sp == 3 then Stack([next] + s.c[1..], 0)
    else Stack([next, back] + s.c[1..s.sp + 1] + s.c[s.sp + 2..], s.sp + 1)
  }

  /** The stack after `mcs4_op_bbl`. */
  function Bbl(s: Stack): (r: Stack)
    requires s.Valid()
    ensures r.Valid()
    ensures s.sp > 0 ==> r.View() == s.View()[1..]
    ensures s.sp == 0 ==> r.View() == [Advance(s.c[0])]
  {
    if s.sp > 0 then Stack(s.c[1..s.sp + 1] + [0] + s.c[s.sp + 1..], s.sp - 1)
    else Stack([Advance(s.c[0])] + s.c[1..], 0)
  }

  /** A return undoes a call exactly if the stack was not full. */
  lemma ReturnUndoesCall(s: Stack, next: Addr)
    requires s.Valid()
    ensures Bbl(Jms(s, next)).sp == s.sp <==> s.sp < 3
    ensures s.sp < 3 ==> Bbl(Jms(s, next)).View() == [Advance(Advance(s.c[0]))] + s.View()[1..]
    ensures s.sp == 3 ==> Bbl(Jms(s, next)).View() == [Advance(next)]
  {
  }

  /** A piece of a run: other instructions set the current counter; calls have bodies and return. */
  datatype Code = Done | Other(pc: Addr, rest: Code) | Call(next: Addr, body: Code, rest: Code)

  function Depth(code: Code): nat {
    match code
    case Done => 0
    case Other(_, rest) => Depth(rest)
    case Call(_, body, rest) => if Depth(rest) > Depth(body) + 1 then Depth(rest) else Depth(body) + 1
  }

  function Run(s: Stack, code: Code): (r: Stack)
    requires s.Valid()
    ensures r.Valid()
    decreases code
  {
    match code
    case Done => s
    case Other(pc, rest) => Run(s.(c := s.c[0 := pc]), rest)
    case Call(next, body, rest) => Run(Bbl(Run(Jms(s, next), body)), rest)
  }

  /** Balanced calls that fit the stack leave every return address as it was. */
  lemma {:induction false} BalancedRun(s: Stack, code: Code)
    requires s.Valid() && s.sp + Depth(code) <= 3
    ensures Run(s, code).sp == s.sp && Run(s, code).View()[1..] == s.View()[1..]
    decreases code, 0
  {
    match code {
      case Done =>
      case Other(pc, rest) =>
        BalancedRun(s.(c := s.c[0 := pc]), rest);
      case Call(next, body, rest) =>
        CallReturns(s, next, body);
        BalancedRun(Bbl(Run(Jms(s, next), body)), rest);
    }
  }

  /** Whatever the body calls, a return resumes where its call had advanced to. */
  lemma {:induction false} CallReturns(s: Stack, next: Addr, body: Code)
    requires s.Valid() && s.sp + Depth(body) < 3
    ensures Bbl(Run(Jms(s, next), body)).sp == s.sp
    ensures Bbl(Run(Jms(s, next), body)).View() == [Advance(Advance(s.c[0]))] + s.View()[1..]
    ensures s.c[0] as nat < 0x1000 && s.c[0] as nat % 0x100 < 0xFE ==>
      Bbl(Run(Jms(s, next), body)).View()[0] as nat == s.c[0] as nat + 2
    decreases body, 1
  {
    hide Jms, Bbl, Advance;
    if s.c[0] as nat < 0x1000 {
      TwoOn(s.c[0]);
    }
    var called := Jms(s, next);
    JmsDeeper(s, next);
    BalancedRun(called, body);
    var r := Run(called, body);
    assert called.View()[1..] == [Advance(Advance(s.c[0]))] + s.View()[1..];
  }

  lemma JmsDeeper(s: Stack, next: Addr)
    requires s.Valid() && s.sp < 3
    ensures Jms(s, next).sp == s.sp + 1
  {
  }

  /* -------------------------------------- the CPU -------------------------------------- */

  class Cpu {
    const prom: seq<Byte>
    const pc: array<Byte>
    var sp: nat
    var a: Byte
    var tmp: Byte
    var cycles: nat

    ghost predicate Valid()
      reads this, pc
    {
      |prom| == 2048 && pc.Length == 6 && sp < 4
    }

    ghost function View(): Stack
      requires Valid()
      reads this, pc
    {
      Stack(Counters(pc[..]), sp)
    }

    constructor (prom: seq<Byte>)
      requires |prom| == 2048
      ensures Valid() && fresh(pc) && sp == 0
    {
      this.prom := prom;
      pc := new Byte[6](_ => 0);
      sp, a, tmp, cycles := 0, 0, 0, 0;
    }

    method ReadPc(idx: nat) returns (val: Addr)
      requires pc.Length == 6 && idx < 4
      ensures val == Counters(pc[..])[idx]
    {
      hide Odd, Even;
      var loc := idx / 2 * 3;
      if idx % 2 == 1 {
        val := Odd(pc[loc + 1], pc[loc + 2]);
      } else {
        val := Even(pc[loc], pc[loc + 1]);
      }
    }

    method WritePc(idx: nat, val: Addr)
      requires pc.Length == 6 && idx < 4
      modifies pc
      ensures Counters(pc[..]) == old(Counters(pc[..]))[idx := val & 0xFFF]
    {
      hide Counters, OddHigh, OddLow, EvenHigh, EvenLow, Odd, Even;
      ghost var before := pc[..];
      SetCounters(before, idx, val);
      var loc := idx / 2 * 3;
      if idx % 2 == 1 {
        pc[loc + 1] := OddHigh(pc[loc + 1], val);
        pc[loc + 2] := OddLow(val);
      } else {
        pc[loc] := EvenHigh(val);
        pc[loc + 1] := EvenLow(pc[loc + 1], val);
      }
      assert pc[..] == SetPc(before, idx, val);
    }

    /** The address that the current counter holds. */
    ghost function Here(): nat
      requires pc.Length == 6
      reads pc
    {
      Counters(pc[..])[0] as nat
    }

    method IncPc()
      requires pc.Length == 6
      modifies pc, `cycles
      ensures Counters(pc[..]) == old(Counters(pc[..]))[0 := Advance(old(Counters(pc[..]))[0])]
      ensures cycles == (old(cycles) + 1) % 0x1_0000_0000
    {
      hide Counters;
      var current := ReadPc(0);
      AdvanceFits(current);
      WritePc(0, Advance(current));
      cycles := (cycles + 1) % 0x1_0000_0000;
    }

    /** The byte that the current counter selects, in a memory of 2048 bytes. */
    ghost function Fetched(): Byte
      requires Valid()
      reads this, pc
    {
      PromAt(prom, Counters(pc[..])[0])
    }

    method Fetch() returns (b: Byte)
      requires Valid()
      ensures b == Fetched()
    {
      var current := ReadPc(0);
      b := PromAt(prom, current);
    }

    /** `mcs4_op_jms` pushes: the target is the low nibble of this byte and the next byte. */
    method OpJms()
      requires Valid()
      modifies this, pc
      ensures Valid() && View() == Jms(old(View()), Target(prom, old(View()).c[0]))
      ensures Goes(prom, old(View()), View())
      ensures a == old(a) && cycles == (old(cycles) + 2) % 0x1_0000_0000
    {
      hide Counters, PromAt, Advance, Jms, Join, LowNibble, Goes;
      CountersBound(pc[..]);
      CallGoes(prom, View());
      var b := Fetch();
      tmp := LowNibble(b);
      IncPc();
      var low := Fetch();
      var next := Join(tmp, low);
      JoinFits(b, low);
      IncPc();
      ghost var d := Counters(pc[..]);
      PushPc(next);
      Pushed(old(View()), d, next);
    }

    /** The loop of `mcs4_op_jms`, and the jump. */
    method PushPc(next: Addr)
      requires Valid() && next & 0xFFF == next
      modifies `sp, pc
      ensures Valid() && sp == (old(sp) + 1) % 4
      ensures Counters(pc[..]) == Up(old(Counters(pc[..])), 0, sp)[0 := next]
    {
      hide Counters, Up;
      sp := (sp + 1) % 4;
      ghost var d := Counters(pc[..]);
      var i := sp;
      UpStart(d, sp);
      while i > 0
        invariant 0 <= i <= sp
        invariant Counters(pc[..]) == Up(d, i, sp)
        modifies pc
      {
        UpStep(d, i, sp);
        var v := ReadPc(i - 1);
        CounterFits(pc[..], i - 1);
        WritePc(i, v);
        i := i - 1;
      }
      WritePc(0, next);
    }

    /** `mcs4_op_bbl` pops and loads the accumulator, or moves on if there is nothing to pop. */
    method OpBbl()
      requires Valid()
      modifies this, pc
      ensures Valid() && View() == Bbl(old(View()))
      ensures old(sp) > 0 ==> a as nat == ByteAt(prom, old(Here())) % 16 && cycles == old(cycles)
      ensures old(sp) == 0 ==> a == old(a) && cycles == (old(cycles) + 1) % 0x1_0000_0000
      ensures old(sp) == 0 ==> Here() == Following(old(Here()))
    {
      hide Counters, PromAt, Advance, Down, Bbl, LowNibble, ByteAt, Following;
      CountersBound(pc[..]);
      PromAtIs(prom, View().c[0]);
      LowNibbleIs(Fetched());
      AdvanceIs(View().c[0]);
      var b := Fetch();
      tmp := LowNibble(b);
      if sp > 0 {
        ghost var c := Counters(pc[..]);
        var i := 0;
        DownStart(c);
        while i < sp
          invariant 0 <= i <= sp
          invariant Counters(pc[..]) == Down(c, i)
          modifies pc
        {
          DownStep(c, i);
          var v := ReadPc(i + 1);
          CounterFits(pc[..], i + 1);
          WritePc(i, v);
          i := i + 1;
        }
        WritePc(sp, 0);
        ZeroFits();
        Popped(old(View()));
        sp := sp - 1;
        a := tmp;
      } else {
        IncPc();
        Passed(old(View()));
      }
    }
  }

  /** The first `p` counters once those from `i` on have moved up. */
  function Up<T>(d: seq<T>, i: int, p: int): (u: seq<T>)
    requires 0 <= i <= p < |d|
    ensures |u| == |d|
  {
    d[..i + 1] + d[i..p] + d[p + 1..]
  }

  lemma UpStart<T>(d: seq<T>, p: int)
    requires 0 <= p < |d|
    ensures Up(d, p, p) == d
  {
  }

  lemma UpStep<T>(d: seq<T>, i: int, p: int)
    requires 0 < i <= p < |d|
    ensures |Up(d, i, p)| == |d| && Up(d, i, p)[i := Up(d, i, p)[i - 1]] == Up(d, i - 1, p)
  {
  }

  /** The counters once the first `i` have taken the value of their successor. */
  function Down<T>(c: seq<T>, i: int): seq<T>
    requires 0 <= i < |c|
  {
    c[1..i + 1] + c[i..]
  }

  lemma DownStart<T>(c: seq<T>)
    requires |c| > 0
    ensures Down(c, 0) == c
  {
  }

  lemma DownStep<T>(c: seq<T>, i: int)
    requires 0 <= i < |c| - 1
    ensures |Down(c, i)| == |c| && Down(c, i)[i + 1] == c[i + 1] && Down(c, i)[i := c[i + 1]] == Down(c, i + 1)
  {
  }

  lemma Pushed(s: Stack, d: seq<Addr>, next: Addr)
    requires s.Valid() && d == s.c[0 := Advance(Advance(s.c[0]))]
    ensures Up(d, 0, (s.sp + 1) % 4)[0 := next] == Jms(s, next).c && Jms(s, next).sp == (s.sp + 1) % 4
  {
    hide Advance;
  }

  lemma Popped(s: Stack)
    requires s.Valid() && s.sp > 0
    ensures Down(s.c, s.sp)[s.sp := 0] == Bbl(s).c && Bbl(s).sp == s.sp - 1
  {
    hide Advance;
  }

  lemma Passed(s: Stack)
    requires s.Valid() && s.sp == 0
    ensures s.c[0 := Advance(s.c[0])] == Bbl(s).c && Bbl(s).sp == 0
  {
    hide Advance;
  }

  lemma CounterFits(pc: seq<Byte>, j: nat)
    requires |pc| == 6 && j < 4
    ensures Counters(pc)[j] & 0xFFF == Counters(pc)[j]
  {
    hide GetPc;
    TwelveBits(pc, j);
  }

  lemma ZeroFits()
    ensures (0 as Addr) & 0xFFF == 0
  {
  }

  function PromAt(prom: seq<Byte>, a: Addr): Byte
    requires |prom| == 2048
  {
    prom[(a & 0x7FF) as nat]
  }

  /** The byte at address `n`: addresses wrap around in 2048 bytes. */
  function ByteAt(prom: seq<Byte>, n: nat): nat
    requires |prom| == 2048
  {
    prom[n % 2048] as nat
  }

  lemma PromAtIs(prom: seq<Byte>, a: Addr)
    requires |prom| == 2048
    ensures PromAt(prom, a) as nat == ByteAt(prom, a as nat)
  {
    LowEleven(a);
  }

  lemma LowEleven(a: Addr)
    ensures (a & 0x7FF) as nat == a as nat % 2048
  {
    ElevenBits(a);
    LowPart(a as nat, (a & 0x7FF) as nat, (a >> 11) as nat);
  }

  lemma ElevenBits(a: Addr)
    ensures a as nat == (a & 0x7FF) as nat + 2048 * ((a >> 11) as nat)
    ensures (a & 0x7FF) as nat < 2048
  {
    assert a & 0x7FF <= 0x7FF;
  }

  lemma LowPart(n: nat, l: nat, h: nat)
    requires n == l + 2048 * h && l < 2048
    ensures l == n % 2048
  {
  }

  function LowNibble(b: Byte): Byte { b & 0xF }

  function Join(high: Byte, low: Byte): Addr { ((high as Addr) << 8) | (low as Addr) }

  lemma LowNibbleIs(b: Byte)
    ensures LowNibble(b) as nat == b as nat % 16
  {
    NibbleIs(b);
  }

  lemma JoinIs(high: Byte, low: Byte)
    ensures Join(high, low) as nat == 0x100 * (high as nat) + low as nat
  {
    assert (((high as Addr) << 8) | (low as Addr)) as nat == 0x100 * (high as nat) + low as nat;
  }

  lemma JoinFits(b: Byte, low: Byte)
    ensures Join(LowNibble(b), low) & 0xFFF == Join(LowNibble(b), low)
  {
  }

  /** Where the call at address `a` goes. */
  function Target(prom: seq<Byte>, a: Addr): Addr
    requires |prom| == 2048
  {
    Join(LowNibble(PromAt(prom, a)), PromAt(prom, Advance(a)))
  }

  lemma TargetIs(prom: seq<Byte>, a: Addr)
    requires |prom| == 2048 && a as nat < 0x1000
    ensures Target(prom, a) as nat == 0x100 * (ByteAt(prom, a as nat) % 16) + ByteAt(prom, Following(a as nat))
  {
    hide Join, LowNibble, PromAt, ByteAt, Advance, Following;
    AdvanceIs(a);
    PromAtIs(prom, a);
    PromAtIs(prom, Advance(a));
    LowNibbleIs(PromAt(prom, a));
    JoinIs(LowNibble(PromAt(prom, a)), PromAt(prom, Advance(a)));
  }

  /** Where a call goes, and where it will resume, as addresses. */
  ghost predicate Goes(prom: seq<Byte>, s: Stack, r: Stack)
    requires |prom| == 2048 && s.Valid() && r.Valid()
  {
    var here := s.c[0] as nat;
    && r.c[0] as nat == 0x100 * (ByteAt(prom, here) % 16) + ByteAt(prom, Following(here))
    && (s.sp < 3 ==> r.c[1] as nat == Following(Following(here)))
  }

  lemma CallGoes(prom: seq<Byte>, s: Stack)
    requires |prom| == 2048 && s.Valid() && s.c[0] as nat < 0x1000
    ensures Goes(prom, s, Jms(s, Target(prom, s.c[0])))
  {
    hide Target, Advance, ByteAt, Following;
    TargetIs(prom, s.c[0]);
    TwoOn(s.c[0]);
  }
}
