/** Division by a number that is not a constant. */
module Arithmetic {

  lemma DivisionIsUnique(x: int, d: nat, q: int, r: int)
    requires d > 0 && x == q * d + r && 0 <= r < d
    ensures x / d == q && x % d == r
  {
    var q' := x / d;
    assert x == q' * d + x % d;
    assert q' * d == q * d + (q' - q) * d;
    assert q * d == q' * d + (q - q') * d;
    if q < q' { AtLeastOnce(q' - q, d); }
    if q' < q { AtLeastOnce(q - q', d); }
  }

  lemma AtLeastOnce(n: int, d: nat)
    requires n >= 1
    ensures n * d >= d
  {
    assert n * d == (n - 1) * d + d;
  }
}
