/** Powers of two and division by them. */
module Arithmetic {

  function Pow2(n: nat): (p: nat)
    ensures p >= 1
  {
    if n == 0 then 1 else 2 * Pow2(n - 1)
  }

  lemma OutOfRange(k: int, d: nat)
    requires d > 0
    ensures k >= 1 ==> k * d >= d
    ensures k <= -1 ==> k * d + d <= 0
  {
  }

  lemma DivUnique(x: nat, d: nat, q: nat, r: nat)
    requires 0 <= r < d && x == q * d + r
    ensures x / d == q && x % d == r
  {
    var q', r' := x / d, x % d;
    assert x == q' * d + r';
    assert (q - q') * d == r' - r;
    OutOfRange(q - q', d);
  }

  lemma Halve(x: nat, d: nat)
    requires d > 0
    ensures x / (2 * d) == (x / d) / 2
  {
    DivTwice(x, d, 2);
  }

  lemma Scale(a: nat, b: nat, d: nat)
    requires a <= b
    ensures a * d <= b * d
  {
  }

  lemma Regroup(k: nat, e: nat, b: nat, d: nat)
    ensures (k * e + b) * d == k * (e * d) + b * d
  {
    assert (k * e + b) * d == (k * e) * d + b * d;
    assert (k * e) * d == k * (e * d);
  }

  lemma DivTwice(x: nat, d: nat, e: nat)
    requires d > 0 && e > 0
    ensures e * d > 0 && x / (e * d) == (x / d) / e
  {
    var q, r := x / d, x % d;
    var k, b := q / e, q % e;
    Regroup(k, e, b, d);
    Scale(b, e - 1, d);
    Scale(1, e, d);
    assert (e - 1) * d == e * d - d;
    DivUnique(x, e * d, k, b * d + r);
  }

  lemma {:induction false} Pow2Adds(m: nat, n: nat)
    ensures Pow2(m + n) == Pow2(m) * Pow2(n)
  {
    if m > 0 {
      Pow2Adds(m - 1, n);
      assert 2 * (Pow2(m - 1) * Pow2(n)) == (2 * Pow2(m - 1)) * Pow2(n);
    }
  }
}
