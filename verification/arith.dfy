/** Quotients and remainders, from what a number is made of. */
module Arith {
  lemma Scale(k: int, a: int, b: int)
    requires k > 0 && a <= b
    ensures k * a <= k * b
  {
  }

  lemma Euclid(n: int, k: int, q: int, r: int)
    requires 0 <= r < k && n == k * q + r
    ensures n / k == q && n % k == r
  {
    var p := n / k - q;
    assert k * p == k * (n / k) - k * q;
    assert -k < k * p < k;
    assert p == 0 by {
      if p > 0 { Scale(k, 1, p); }
      if p < 0 { Scale(k, p, -1); }
    }
  }
}
