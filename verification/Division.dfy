/**
 Euclidean division for the solver: a quotient and a remainder determine each
 other.
 */
module Division {
  lemma Gap(d: nat, a: int, b: int)
    requires a < b
    ensures d * b >= d * a + d
  {
    MulAtLeast(d, b - a);
    assert d * (b - a) == d * b - d * a;
  }

  lemma MulAtLeast(d: nat, a: int)
    requires a >= 1
    ensures d * a >= d
  {
  }

  lemma DivMod(x: int, d: nat)
    requires d > 0
    ensures x == d * (x / d) + x % d && 0 <= x % d < d
  {
  }

  lemma DivisionIsUnique(x: int, d: nat, q: int, r: int)
    requires 0 <= r < d && x == d * q + r
    ensures x / d == q && x % d == r
  {
    DivMod(x, d);
    if q < x / d {
      Gap(d, q, x / d);
    } else if x / d < q {
      Gap(d, x / d, q);
    }
  }
}
