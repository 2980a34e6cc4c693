/** Facts about multiplication and division of naturals that the solver does not find unaided. */
module Arith {

  lemma MulMonotone(x: int, y: int, d: nat)
    requires x <= y
    ensures x * d <= y * d
  {
    assert y * d - x * d == (y - x) * d;
  }

  lemma MulCancel(x: int, y: int, d: int)
    requires d > 0 && x * d < y * d
    ensures x < y
  {
    assert (y - x) * d > 0;
  }

  /** The quotient times the divisor is at most the dividend, and one more is past it. */
  lemma DivBounds(a: nat, b: nat)
    requires b > 0
    ensures (a / b) * b <= a < (a / b + 1) * b
    ensures 0 <= a / b <= a
  {
    var q, r := a / b, a % b;
    assert a == q * b + r && 0 <= r < b;
    assert (q + 1) * b == q * b + b;
    MulMonotone(1, b, q);
  }

  lemma DivMonotone(a: nat, b: nat, d: int)
    requires a <= b && d > 0
    ensures a / d <= b / d
  {
    var qa, qb := a / d, b / d;
    assert qa * d + a % d == a && qb * d + b % d == b;
    assert qa * d < (qb + 1) * d;
    MulCancel(qa, qb + 1, d);
  }

  /** Division is determined by quotient and remainder. */
  lemma DivUnique(n: nat, d: nat, q: nat, r: nat)
    requires d > 0 && r < d && n == q * d + r
    ensures n / d == q
  {
    var q', r' := n / d, n % d;
    assert q' * d + r' == q * d + r;
    assert q' * d < (q + 1) * d;
    assert q * d < (q' + 1) * d;
    MulCancel(q', q + 1, d);
    MulCancel(q, q' + 1, d);
  }

  lemma MulDistributes(x: int, y: int, z: int)
    ensures (x + y) * z == x * z + y * z
  {
  }

  lemma MulAssociates(x: int, y: int, z: int)
    ensures (x * y) * z == x * (z * y)
  {
  }

  lemma MulSign(x: nat, y: nat)
    ensures x * y >= 0 && (x > 0 && y > 0 ==> x * y > 0)
  {
  }

  /** Euclidean division of naturals, bounded by its defining inequalities. */
  function Quotient(a: nat, b: nat): (m: nat)
    requires b > 0
    ensures m * b <= a < (m + 1) * b && m <= a
  {
    DivBounds(a, b);
    a / b
  }

  /** Quotient and remainder by `a`, then by `b`, give a quotient and remainder by `a * b`. */
  lemma TwoStepDivision(n: nat, a: nat, b: nat, q: nat, r: nat, q2: nat, r2: nat)
    requires a > 0 && b > 0 && n == q * a + r && r < a && q == q2 * b + r2 && r2 < b
    ensures n == q2 * (a * b) + (r2 * a + r) && r2 * a + r < a * b
  {
    MulDistributes(q2 * b, r2, a);
    MulAssociates(q2, b, a);
    MulMonotone(r2, b - 1, a);
    MulDistributes(b, -1, a);
  }

  /** Dividing twice is dividing by the product. */
  lemma DivDiv(n: nat, a: nat, b: nat)
    requires a > 0 && b > 0
    ensures n / a / b == n / (a * b)
  {
    var q, r := n / a, n % a;
    var q2, r2 := q / b, q % b;
    TwoStepDivision(n, a, b, q, r, q2, r2);
    MulSign(r2, a);
    MulSign(a, b);
    DivUnique(n, a * b, q2, r2 * a + r);
  }

  /** A multiple divided by its factor gives the other factor back. */
  lemma MulDiv(x: nat, d: int)
    requires d > 0
    ensures (x * d) / d == x
  {
    DivUnique(x * d, d, x, 0);
  }
}
