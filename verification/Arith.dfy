/** Facts about quotients and remainders. */
module Arith {
  /** How many parts fit in a whole. */
  function Fit(whole: nat, part: nat): nat
    requires part > 0
  {
    whole / part
  }

  lemma {:induction false} Unique(x: nat, d: nat, q: nat, r: nat)
    requires x == q * d + r && r < d
    ensures x / d == q && x % d == r
  {
    var k, r' := x / d - q, x % d;
    assert k * d == r - r' by {
      assert x == x / d * d + r';
      assert k * d == x / d * d - q * d;
    }
    if k >= 1 {
      AtLeast(k, d);
    } else if k <= -1 {
      AtLeast(-k, d);
    }
  }

  lemma AtLeast(k: int, d: nat)
    requires k >= 1
    ensures k * d >= d
  {
    assert (k - 1) * d >= 0;
  }

  lemma {:induction false} Quotient(a: nat, b: nat)
    requires 0 < b <= a
    ensures a / b >= 1 && a / b * b <= a
  {
    assert a == a / b * b + a % b;
  }
}
