/** Facts about multiples and remainders. */
module Arithmetic {

  lemma Multiples(m: nat, d: int)
    ensures d >= 1 ==> m * d >= m
    ensures d <= -1 ==> m * d + m <= 0
  {
  }

  lemma Scale(k: nat, a: int, b: int)
    requires a <= b
    ensures k * a <= k * b
  {
  }

  lemma Distribute(k: int, i: int)
    ensures k * (i + 1) == k * i + k && (i + 1) * k == i * k + k
    ensures k * 0 == 0 && k * 1 == k
  {
  }

  /** A quotient and a remainder in range are the only ones. */
  lemma {:induction false} DivModUnique(a: int, q: int, r: int, m: nat)
    requires 0 <= r < m && a == m * q + r
    ensures a % m == r && a / m == q
  {
    var d := a / m - q;
    assert a == m * (a / m) + a % m;
    assert m * d == m * (a / m) - m * q;
    Multiples(m, d);
  }
}
