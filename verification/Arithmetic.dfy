/** Division, for the proofs about places, digits and time. */
module Arithmetic {

  lemma Quotient(n: int, m: int, q: int, r: int)
    requires m > 0 && n == m * q + r && 0 <= r < m
    ensures n / m == q && n % m == r
  {
    var d := n / m - q;
    assert m * d == r - n % m;
    ZeroMultiple(m, d);
  }

  lemma ZeroMultiple(m: int, d: int)
    requires m >= 1 && -m < m * d < m
    ensures d == 0
  {}

  lemma DivTwice(n: nat, a: nat, b: nat)
    requires a >= 1 && b >= 1
    ensures a * b >= 1 && n / a / b == n / (a * b)
  {
    var q, r, low := n / a / b, n / a % b, n % a;
    MulAtLeast(a, b, r, low);
    assert n == a * (b * q + r) + low;
    assert a * (b * q + r) == (a * b) * q + a * r;
    Quotient(n, a * b, q, a * r + low);
  }

  lemma MulAtLeast(a: nat, b: nat, r: nat, low: nat)
    requires a >= 1 && b >= 1 && r < b && low < a
    ensures a * b >= 1 && a * r + low < a * b
  {
    MulGrows(a, b);
    MulGrows(a, b - r);
    assert a * (b - r) == a * b - a * r;
  }

  lemma MulGrows(a: nat, k: nat)
    requires k >= 1
    ensures a * k >= a
  {}
}
