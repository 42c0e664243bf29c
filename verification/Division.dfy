/** Quotients and remainders by a divisor that is not a literal. */
module Division {
  lemma Positive(x: int, y: int, z: int)
    requires x >= 0 && y >= 0 && z >= 0
    ensures x * y + z >= 0
  {
    assert x * y >= 0;
  }

  lemma Associate(x: int, y: int, z: int)
    ensures x * (y * z) == (x * y) * z
  {}

  lemma AtLeastTwice(q: nat, d: int)
    requires d >= 2
    ensures q * d >= 2 * q
  {}

  lemma SmallMultiple(k: int, d: int)
    requires -d < k * d < d
    ensures k == 0
  {
    assert k >= 1 ==> k * d >= d;
    assert k <= -1 ==> k * d <= -d;
  }

  lemma QuotientRemainder(q: nat, r: nat, d: int)
    requires 0 <= r < d
    ensures (q * d + r) / d == q && (q * d + r) % d == r
  {
    var n := q * d + r;
    var p, s := n / d, n % d;
    assert n == p * d + s;
    assert (p - q) * d == r - s;
    SmallMultiple(p - q, d);
  }

  lemma EuclidFacts(n: nat, d: int)
    requires d > 0
    ensures n == (n / d) * d + n % d && 0 <= n % d < d && n / d >= 0
    ensures (n - n % d) / d == n / d
  {
    var q := n / d;
    assert n - n % d == q * d + 0;
    QuotientRemainder(q, 0, d);
  }

  /** Adding whole divisors does not change the remainder. */
  lemma WholeDivisors(n: nat, k: nat, d: int)
    requires d > 0
    ensures (n + k * d) % d == n % d && (n + k * d) / d == n / d + k
  {
    var q, r := n / d, n % d;
    assert n == q * d + r;
    assert n + k * d == (q + k) * d + r;
    QuotientRemainder(q + k, r, d);
  }
}
