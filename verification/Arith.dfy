/** Facts about quotients and powers of two used by several modules. */
module Arith {

  function Pow2(k: nat): (r: nat)
    ensures r >= 1
  {
    if k == 0 then 1 else 2 * Pow2(k - 1)
  }

  /** A non-zero multiple of `m` is at least `m` away from zero. */
  lemma MultipleIsFar(k: int, m: int)
    requires m > 0
    ensures k >= 1 ==> k * m >= m
    ensures k <= -1 ==> k * m <= -m
  {
  }

  lemma Distribute(a: int, b: int, m: int)
    ensures (a - b) * m == a * m - b * m
  {
  }

  /** Quotient and remainder are unique. */
  lemma Quotient(i: int, m: int, q: int, r: int)
    requires m > 0 && 0 <= r < m && i == q * m + r
    ensures i / m == q && i % m == r
  {
    var d, e := i / m, i % m;
    assert i == d * m + e;
    Distribute(d, q, m);
    MultipleIsFar(d - q, m);
  }

  lemma QuotientGrows(a: int, b: int, m: int)
    requires m > 0 && a <= b
    ensures a / m <= b / m
  {
    var d, e := a / m, b / m;
    assert a == d * m + a % m && b == e * m + b % m;
    Distribute(d, e, m);
    MultipleIsFar(d - e, m);
  }

  lemma HalveDivide(b: nat, q: nat)
    requires q >= 1
    ensures b / 2 / q == b / (2 * q)
  {
    var h := b / 2;
    var d, r := h / q, h % q;
    assert h == d * q + r;
    assert d * (2 * q) == 2 * (d * q);
    Quotient(b, 2 * q, d, 2 * r + b % 2);
  }

  lemma DoubleRemainder(h: nat, e: nat, p: nat)
    requires p > 0 && e < 2
    ensures (2 * h + e) % (2 * p) == 2 * (h % p) + e
  {
    var q, r := h / p, h % p;
    assert h == q * p + r;
    assert q * (2 * p) == 2 * (q * p);
    Quotient(2 * h + e, 2 * p, q, 2 * r + e);
  }

  /** Two indices closer than `m` have different remainders. */
  lemma DistinctRemainders(i: nat, j: nat, m: nat)
    requires m > 0 && i < j < i + m
    ensures i % m != j % m
  {
    var d, e := i / m, j / m;
    assert i == d * m + i % m && j == e * m + j % m;
    Distribute(e, d, m);
    MultipleIsFar(e - d, m);
  }
}
