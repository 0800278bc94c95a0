/** Nonlinear integer facts, one step at a time. */
module Arithmetic {
  function Mul(a: nat, b: nat): nat {
    a * b
  }

  lemma MulMonotone(a: nat, b: nat, c: nat)
    requires a <= b
    ensures a * c <= b * c
  {}

  lemma CancelMul(a: nat, b: nat, c: nat)
    requires c > 0 && a * c <= b * c
    ensures a <= b
  {
    if b < a { MulMonotone(b + 1, a, c); }
  }

  lemma DivMonotone(a: nat, b: nat, d: nat)
    requires a <= b && d > 0
    ensures a / d <= b / d
  {
    if b / d < a / d {
      MulMonotone(b / d + 1, a / d, d);
    }
  }

  lemma DivAntitone(n: nat, d: nat, e: nat)
    requires 0 < d <= e
    ensures n / e <= n / d
  {
    if n / d < n / e {
      MulMonotone(n / d + 1, n / e, d);
      assert (n / e) * d <= (n / e) * e by { MulMonotone(d, e, n / e); }
    }
  }

  lemma DivShrinks(a: nat, b: nat)
    requires b > 0
    ensures 0 <= a / b <= a
  {
    if a / b > a {
      MulMonotone(a + 1, a / b, b);
      MulMonotone(1, b, a + 1);
    }
  }

  function Div(a: nat, b: nat): nat
    requires b > 0
  {
    DivShrinks(a, b);
    a / b
  }

  lemma ProductMonotone(a: nat, b: nat, c: nat, d: nat)
    requires a <= b && c <= d
    ensures Mul(a, c) <= Mul(b, d)
  {
    MulMonotone(a, b, c);
    MulMonotone(c, d, b);
  }

  lemma QuotientMonotone(a: nat, b: nat, d: nat)
    requires a <= b && d > 0
    ensures Div(a, d) <= Div(b, d)
  {
    DivMonotone(a, b, d);
  }

  lemma QuotientTimes(a: nat, b: nat)
    requires b > 0
    ensures a / b * b <= a
  {}

  lemma QuotientIs(n: nat, q: nat, r: nat, d: nat)
    requires n == q * d + r && r < d
    ensures n / d == q
  {
    if n / d < q { MulMonotone(n / d + 1, q, d); }
    if q < n / d { MulMonotone(q + 1, n / d, d); }
  }

  lemma QuotientBelow(a: nat, b: nat, d: nat)
    requires d > 0 && a + d <= b
    ensures Div(a, d) < Div(b, d)
  {
    QuotientIs(a + d, a / d + 1, a % d, d);
    DivMonotone(a + d, b, d);
  }

  lemma CancelQuotient(n: nat, q1: nat, q2: nat, r: nat, d: nat)
    requires d > 0 && n == q1 * d + q2 * d + r && r < 2 * d
    ensures q1 + q2 <= Div(n, d) <= q1 + q2 + 1
  {
    var q := q1 + q2;
    assert q * d == q1 * d + q2 * d;
    if r < d {
      QuotientIs(n, q, r, d);
    } else {
      assert (q + 1) * d == q * d + d;
      QuotientIs(n, q + 1, r - d, d);
    }
  }

  lemma DivAdd(a: nat, b: nat, d: nat)
    requires d > 0
    ensures Div(a, d) + Div(b, d) <= Div(a + b, d) <= Div(a, d) + Div(b, d) + 1
  {
    CancelQuotient(a + b, a / d, b / d, a % d + b % d, d);
  }

  lemma MulDistributes(a: nat, b: nat, c: nat)
    ensures Mul(a, b + c) == Mul(a, b) + Mul(a, c)
  {}

  /** Multiples of d split the numbers into windows of d. */
  lemma WindowOf(n: nat, q: nat, d: nat)
    requires d > 0 && Mul(q, d) <= n < Mul(q + 1, d)
    ensures n / d == q && n % d == n - Mul(q, d)
  {
    MulDistributes(d, q, 1);
    QuotientIs(n, q, n - Mul(q, d), d);
  }
}
