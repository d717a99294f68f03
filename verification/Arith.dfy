/** The few facts about multiplication and division that block addressing needs. */
module Arith {

  lemma MulMonotone(a: int, b: int, c: int)
    requires a <= b && 0 <= c
    ensures a * c <= b * c
  {
  }

  lemma QuotientSmall(p: nat, d: nat)
    requires d > 0
    ensures p == (p / d) * d + p % d && 0 <= p / d <= p
  {
    MulMonotone(1, d, p / d);
  }

  lemma QuotientUnique(d: nat, q: nat, r: nat)
    requires r < d
    ensures (q * d + r) / d == q && (q * d + r) % d == r
  {
    var x := q * d + r;
    var y, z := x / d, x % d;
    assert x == y * d + z;
    if y < q {
      MulMonotone(y + 1, q, d);
    } else if y > q {
      MulMonotone(q + 1, y, d);
    }
  }

  /** Quotients are monotone, and `p` lies in the block its quotient names. */
  lemma QuotientMonotone(p: nat, q: nat, d: nat)
    requires d > 0 && p <= q
    ensures p / d <= q / d
    ensures (q / d) * d <= q < (q / d) * d + d
  {
    var a, b := p / d, q / d;
    assert p == a * d + p % d && q == b * d + q % d;
    if b < a {
      MulMonotone(b + 1, a, d);
    }
  }
}
