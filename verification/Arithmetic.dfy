/** Powers and remainders. */
module Arithmetic {

  function Pow(b: nat, n: nat): (p: nat)
    ensures b > 0 ==> p > 0
  {
    if n == 0 then 1 else b * Pow(b, n - 1)
  }

  function Pow2(n: nat): (p: nat)
    ensures p > 0
  {
    if n == 0 then 1 else 2 * Pow2(n - 1)
  }

  lemma MultipleBounds(m: nat, d: int)
    ensures d >= 1 ==> m * d >= m
    ensures d <= -1 ==> m * d <= 0 - m
    ensures d >= 0 ==> m * d >= 0
  {
  }

  lemma Below(a: nat, b: nat, c: nat)
    requires a < b && 0 < c
    ensures a * c < b * c
  {
    assert b * c == a * c + (b - a) * c;
    MultipleBounds(c, b - a);
  }

  /** Quotient and remainder are determined by their defining equation. */
  lemma DivModUnique(x: int, q: int, m: nat, r: nat)
    requires r < m && x == m * q + r
    ensures x / m == q && x % m == r
  {
    var d := q - x / m;
    assert m * d == m * q - m * (x / m);
    MultipleBounds(m, d);
  }

  lemma {:induction false} Pow2Sum(a: nat, b: nat)
    ensures Pow2(a + b) == Pow2(a) * Pow2(b)
  {
    if a > 0 {
      Pow2Sum(a - 1, b);
      assert Pow2(a + b) == 2 * Pow2(a - 1 + b);
      assert 2 * (Pow2(a - 1) * Pow2(b)) == (2 * Pow2(a - 1)) * Pow2(b);
    }
  }

  lemma Pow2Monotone(a: nat, b: nat)
    requires a <= b
    ensures Pow2(a) <= Pow2(b)
  {
    Pow2Sum(a, b - a);
    MultipleBounds(Pow2(a), Pow2(b - a));
  }

  lemma Pow2Values()
    ensures Pow2(4) == 16 && Pow2(8) == 256 && Pow2(12) == 4096 && Pow2(13) == 8192 && Pow2(14) == 16384
  {
    assert Pow2(2) == 4;
    assert Pow2(4) == 4 * Pow2(2);
    assert Pow2(6) == 4 * Pow2(4);
    assert Pow2(8) == 4 * Pow2(6);
    assert Pow2(10) == 4 * Pow2(8);
    assert Pow2(12) == 4 * Pow2(10);
    assert Pow2(14) == 4 * Pow2(12);
  }

  // Quotient and remainder by name: proofs that only need the equations below hide the operators.

  function Quo(x: nat, m: nat): (q: nat)
    requires 0 < m
  {
    x / m
  }

  function Rem(x: nat, m: nat): (r: nat)
    requires 0 < m
    ensures r < m
  {
    x % m
  }

  lemma QuoRem(x: nat, m: nat)
    requires 0 < m
    ensures x == m * Quo(x, m) + Rem(x, m)
  {
  }

  lemma QuoRemUnique(x: nat, q: nat, m: nat, r: nat)
    requires r < m && x == m * q + r
    ensures Quo(x, m) == q && Rem(x, m) == r
  {
    DivModUnique(x, q, m, r);
  }
}
