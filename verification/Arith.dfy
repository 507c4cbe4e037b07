/** Facts about products and quotients that the solver does not find by itself. */
module Arith {

  lemma MulMonotone(a: int, b: int, c: nat)
    requires a <= b
    ensures a * c <= b * c && c * a <= c * b
  {
  }

  lemma DivModUnique(q: nat, d: nat, r: nat)
    requires r < d
    ensures (q * d + r) / d == q && (q * d + r) % d == r
  {
    var n := q * d + r;
    var p, s := n / d, n % d;
    assert n == d * p + s;
    if q < p {
      MulMonotone(q + 1, p, d);
    } else if p < q {
      MulMonotone(p + 1, q, d);
    }
  }

  lemma DivMonotone(a: nat, b: nat, d: nat)
    requires a <= b && d > 0
    ensures a / d <= b / d
  {
    var m, n := a / d, b / d;
    assert m * d <= a && b < n * d + d;
    assert (n + 1) * d == n * d + d;
    if n < m {
      MulMonotone(n + 1, m, d);
    }
  }
}
