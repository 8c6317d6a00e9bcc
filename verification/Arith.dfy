/** Division by a divisor that is not a constant. */
module Arith {

  lemma {:induction false} MulMono(a: nat, b: nat, c: nat)
    requires a <= b
    ensures a * c <= b * c
  {
  }

  /** Quotient and remainder are unique. */
  lemma {:induction false} SameQuotient(u: nat, d: nat, q: nat, m: nat, r: nat)
    requires d < r && m < r && u * r + d == q * r + m
    ensures u == q && d == m
  {
    if u < q {
      MulMono(u + 1, q, r);
    } else if q < u {
      MulMono(q + 1, u, r);
    }
  }

  lemma {:induction false} DivMod(u: nat, d: nat, r: nat)
    requires d < r
    ensures (u * r + d) / r == u && (u * r + d) % r == d
  {
    var v := u * r + d;
    assert v == v / r * r + v % r;
    SameQuotient(u, d, v / r, v % r, r);
  }

  /** Counting on by one goes round after r - 1. */
  lemma {:induction false} NextRemainder(k: nat, r: nat)
    requires r >= 1
    ensures (k + 1) % r == if k % r + 1 == r then 0 else k % r + 1
  {
    var q, d := k / r, k % r;
    assert k == q * r + d;
    if d + 1 == r {
      assert k + 1 == (q + 1) * r + 0;
      DivMod(q + 1, 0, r);
    } else {
      assert k + 1 == q * r + (d + 1);
      DivMod(q, d + 1, r);
    }
  }
}
