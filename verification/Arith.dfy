/** Facts about products and Euclidean quotients used throughout. */
module Arith {

  lemma {:induction false} MulMono(a: int, b: int, k: int)
    requires a <= b && 0 <= k
    ensures a * k <= b * k
  {}

  lemma {:induction false} MulCancel(a: int, b: int, k: int)
    requires 0 < k && a * k < b * k
    ensures a < b
  {
    if b <= a { MulMono(b, a, k); }
  }

  lemma {:induction false} Distribute(a: int, b: int, k: int)
    ensures (a + b) * k == a * k + b * k
  {}

  lemma {:induction false} DivBounds(x: int, d: int)
    requires d > 0
    ensures (x / d) * d <= x < (x / d + 1) * d
    ensures x == (x / d) * d + x % d
  {
    Distribute(x / d, 1, d);
  }

  /** A quotient is determined by its defining inequality. */
  lemma {:induction false} DivUnique(x: int, d: int, q: int, r: int)
    requires d > 0 && x == q * d + r && 0 <= r < d
    ensures x / d == q && x % d == r
  {
    DivBounds(x, d);
    Distribute(q, 1, d);
    MulCancel(q, x / d + 1, d);
    MulCancel(x / d, q + 1, d);
  }

  lemma {:induction false} DivAtLeast(x: int, d: int, q: int)
    requires d > 0 && q * d <= x
    ensures q <= x / d
  {
    DivBounds(x, d);
    MulCancel(q, x / d + 1, d);
  }

  lemma {:induction false} DivLess(x: int, d: int, q: int)
    requires d > 0 && x < q * d
    ensures x / d < q
  {
    DivBounds(x, d);
    MulCancel(x / d, q, d);
  }

  lemma {:induction false} DivMonotone(x: int, y: int, d: int)
    requires x <= y && d > 0
    ensures x / d <= y / d
  {
    DivBounds(x, d);
    DivAtLeast(y, d, x / d);
  }

  lemma {:induction false} DivDiv(x: int, a: int, b: int)
    requires a > 0 && b > 0
    ensures a * b > 0 && (x / a) / b == x / (a * b)
  {
    var q, r := x / a, x % a;
    var q2, r2 := q / b, q % b;
    DivBounds(x, a);
    DivBounds(q, b);
    MulMono(1, a, b);
    Distribute(q2 * b, r2, a);
    MulMono(r2, b - 1, a);
    Distribute(b, -1, a);
    MulMono(0, r2, a);
    assert (q2 * b) * a == q2 * (a * b);
    DivUnique(x, a * b, q2, r2 * a + r);
  }
}
