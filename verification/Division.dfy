/** Products and quotients of integers, for the numberings of several modules. */
module Division {

  lemma Scaled(a: int, b: int, d: int)
    requires a <= b && d >= 0
    ensures a * d <= b * d
  {
  }

  lemma Multiples(e: int, d: int)
    requires d > 0
    ensures e >= 1 ==> e * d >= d
    ensures e <= -1 ==> e * d <= -d
    ensures e == 0 <==> e * d == 0
  {
    Scaled(1, if e >= 1 then e else 1, d);
    Scaled(if e <= -1 then e else -1, -1, d);
  }

  /** Quotient and remainder are unique. */
  lemma QuotientIs(x: int, d: int, q: int, r: int)
    requires d > 0 && x == q * d + r && 0 <= r < d
    ensures x / d == q && x % d == r
  {
    Multiples(x / d - q, d);
    assert x == (x / d) * d + x % d;
    assert (x / d - q) * d == r - x % d;
  }
}
