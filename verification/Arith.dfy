// Facts about products and division that the solver needs spelled out.
module Arith {

  lemma MulNonneg(a: int, b: int)
    requires a >= 0 && b >= 0
    ensures a * b >= 0
  {
  }

  // Distinct multiples of `d` are at least `d` apart.
  lemma MulOrder(a: int, b: int, d: int)
    requires d >= 0
    ensures a < b ==> d * a + d <= d * b
    ensures a <= b ==> d * a <= d * b
  {
    if a < b {
      MulNonneg(b - a - 1, d);
      assert (b - a - 1) * d == d * b - d * a - d;
    }
  }

  lemma DivModUnique(x: nat, d: nat, q: int, r: nat)
    requires r < d && x == d * q + r
    ensures x / d == q && x % d == r
  {
    assert x == d * (x / d) + x % d;
    MulOrder(x / d, q, d);
    MulOrder(q, x / d, d);
  }

  lemma ModStep(j: nat, d: nat)
    requires 0 < d <= j
    ensures (j - d) % d == j % d
  {
    var q, r := (j - d) / d, (j - d) % d;
    assert j == d * (q + 1) + r;
    DivModUnique(j, d, q + 1, r);
  }
}
