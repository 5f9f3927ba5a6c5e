/** Exclusive or on words held as `nat`, bit by bit. */
module WordXor {
  import opened PowersOfTwo

  function Xor(a: nat, b: nat): nat {
    if a == 0 && b == 0 then 0 else (a + b) % 2 + 2 * Xor(a / 2, b / 2)
  }

  lemma {:induction false} XorZero(a: nat)
    ensures Xor(a, 0) == a && Xor(0, a) == a
  {
    if a > 0 {
      XorZero(a / 2);
    }
  }

  lemma {:induction false} XorSelf(a: nat)
    ensures Xor(a, a) == 0
  {
    if a > 0 {
      XorSelf(a / 2);
    }
  }

  lemma {:induction false} XorCommutes(a: nat, b: nat)
    ensures Xor(a, b) == Xor(b, a)
    decreases a + b
  {
    if a != 0 || b != 0 {
      XorCommutes(a / 2, b / 2);
    }
  }

  lemma {:induction false} XorAssoc(a: nat, b: nat, c: nat)
    ensures Xor(Xor(a, b), c) == Xor(a, Xor(b, c))
    decreases a + b + c
  {
    hide Xor;
    if a == 0 && b == 0 && c == 0 {
      XorZero(0);
    } else {
      XorAssoc(a / 2, b / 2, c / 2);
      XorHalf(a, b);
      XorHalf(b, c);
      XorHalf(Xor(a, b), c);
      XorHalf(a, Xor(b, c));
      Parity(a, b, c, Xor(a, b), Xor(b, c));
      ByHalves(Xor(Xor(a, b), c), Xor(a, Xor(b, c)));
    }
  }

  lemma Parity(a: nat, b: nat, c: nat, x: nat, y: nat)
    requires x % 2 == (a + b) % 2 && y % 2 == (b + c) % 2
    ensures (x + c) % 2 == (a + y) % 2
  {
  }

  lemma ByHalves(x: nat, y: nat)
    requires x / 2 == y / 2 && x % 2 == y % 2
    ensures x == y
  {
  }

  lemma XorHalf(a: nat, b: nat)
    ensures Xor(a, b) / 2 == Xor(a / 2, b / 2) && Xor(a, b) % 2 == (a + b) % 2
  {
  }

  lemma {:induction false} XorBound(a: nat, b: nat, n: nat)
    requires a < Pow2(n) && b < Pow2(n)
    ensures Xor(a, b) < Pow2(n)
  {
    if n > 0 {
      XorBound(a / 2, b / 2, n - 1);
      XorHalf(a, b);
    }
  }

  function Quotient(x: nat, d: nat): nat
    requires d > 0
  {
    x / d
  }

  function Shifted(x: nat, n: nat): nat { Quotient(x, Pow2(n)) }

  /** Shifting right commutes with the exclusive or. */
  lemma {:induction false} XorShifted(a: nat, b: nat, n: nat)
    ensures Xor(Shifted(a, n), Shifted(b, n)) == Shifted(Xor(a, b), n)
    decreases n
  {
    hide Xor;
    if n > 0 {
      XorShifted(a / 2, b / 2, n - 1);
      XorHalf(a, b);
      HalfFirst(a, n);
      HalfFirst(b, n);
      HalfFirst(Xor(a, b), n);
      hide Shifted;
    }
  }

  lemma HalfFirst(x: nat, n: nat)
    requires n > 0
    ensures Shifted(x / 2, n - 1) == Shifted(x, n)
  {
    assert Pow2(1) == 2;
    DivPow2Twice(x, 1, n - 1);
  }

  /** Words whose exclusive or is zero are equal. */
  lemma {:induction false} XorZeroIffEqual(a: nat, b: nat)
    ensures Xor(a, b) == 0 <==> a == b
    decreases a + b
  {
    if a != 0 || b != 0 {
      XorZeroIffEqual(a / 2, b / 2);
      XorHalf(a, b);
    }
  }
}
