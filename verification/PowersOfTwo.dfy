/** Powers of two, as needed to speak of bit positions of machine words held as `nat`. */
module PowersOfTwo {
  function Pow2(n: nat): (r: nat)
    ensures r > 0
  {
    if n == 0 then 1 else 2 * Pow2(n - 1)
  }

  lemma {:induction false} Pow2Add(a: nat, b: nat)
    ensures Pow2(a + b) == Pow2(a) * Pow2(b)
  {
    if a > 0 {
      Pow2Add(a - 1, b);
      assert Pow2(a + b) == 2 * Pow2(a + b - 1);
      Double(Pow2(a - 1), Pow2(b));
    }
  }

  lemma Double(p: nat, q: nat)
    ensures (2 * p) * q == 2 * (p * q)
  {
  }

  lemma {:induction false} Pow2Mono(a: nat, b: nat)
    requires a <= b
    ensures Pow2(a) <= Pow2(b)
    decreases b - a
  {
    if a < b {
      Pow2Mono(a, b - 1);
    }
  }

  /** A division by a power of two, cut in two steps. */
  lemma DivPow2Twice(x: nat, a: nat, b: nat)
    ensures (x / Pow2(a)) / Pow2(b) == x / Pow2(a + b)
  {
    Pow2Add(a, b);
    var p, q := Pow2(a), Pow2(b);
    DivTwice(x, p, q);
  }

  lemma DivTwice(x: nat, p: nat, q: nat)
    requires p > 0 && q > 0
    ensures p * q > 0
    ensures (x / p) / q == x / (p * q)
  {
    var d := x / p;
    var e := d / q;
    var r1, r2 := x % p, d % q;
    assert x == p * d + r1;
    assert d == q * e + r2;
    assert x == (p * q) * e + (p * r2 + r1) by {
      assert p * (q * e + r2) == p * (q * e) + p * r2;
      assert p * (q * e) == (p * q) * e;
    }
    assert p * r2 + r1 < p * q by {
      assert p * (r2 + 1) <= p * q by { MulMono(p, r2 + 1, q); }
      assert p * (r2 + 1) == p * r2 + p;
    }
    assert p * q > 0 by { MulMono(p, 1, q); }
    DivUnique(x, p * q, e, p * r2 + r1);
  }

  lemma MulMono(a: nat, x: int, y: int)
    requires x <= y
    ensures a * x <= a * y
  {
  }

  lemma DivUnique(x: nat, m: nat, q: int, r: int)
    requires m > 0 && x == m * q + r && 0 <= r < m
    ensures x / m == q && x % m == r
  {
    var q', r' := x / m, x % m;
    assert x == m * q' + r';
    assert m * (q + 1) == m * q + m && m * (q' + 1) == m * q' + m;
    if q < q' {
      MulMono(m, q + 1, q');
    } else if q' < q {
      MulMono(m, q' + 1, q);
    }
  }

  lemma Word64()
    ensures Pow2(63) == 0x8000_0000_0000_0000
    ensures Pow2(64) == 0x1_0000_0000_0000_0000
  {
    assert Pow2(7) == 128 && Pow2(8) == 256;
    Pow2Add(8, 8);
    Pow2Add(16, 16);
    Pow2Add(32, 16);
    Pow2Add(48, 8);
    Pow2Add(56, 7);
    assert Pow2(64) == 2 * Pow2(63);
  }
}
