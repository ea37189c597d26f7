/**
 * Facts about multiplication and division of non-negative integers that
 * the solver does not find on its own, proved from the definitions.
 */
module Arith {
  lemma {:induction false} MulMonotone(a: nat, b: nat, c: nat)
    requires a <= b
    ensures a * c <= b * c
  {
    if c > 0 {
      MulMonotone(a, b, c - 1);
      assert a * c == a * (c - 1) + a;
      assert b * c == b * (c - 1) + b;
    }
  }

  lemma MulSucc(m: nat, t: nat)
    ensures (m + 1) * t == m * t + t
  {
  }

  lemma MulAtLeast(n: nat, m: nat)
    requires m >= 1
    ensures n * m >= n
  {
    MulMonotone(1, m, n);
  }

  /** Multiplying by a positive factor preserves and reflects the order. */
  lemma MulCancel(x: nat, y: nat, d: nat)
    requires d > 0
    ensures d * x < d * y ==> x < y
    ensures d * x <= d * y ==> x <= y
  {
    if x >= y {
      MulMonotone(y, x, d);
    }
    if x > y {
      MulMonotone(y + 1, x, d);
      assert (y + 1) * d == y * d + d;
    }
  }

  lemma DivMonotone(a: nat, b: nat, d: nat)
    requires a <= b && d > 0
    ensures a / d <= b / d
  {
    var qa, qb := a / d, b / d;
    assert d * qa <= a;
    assert b < d * (qb + 1) by {
      assert b == d * qb + b % d;
      assert d * (qb + 1) == d * qb + d;
    }
    MulCancel(qa, qb + 1, d);
  }

  lemma DivBelow(x: nat, d: nat, n: nat)
    requires d > 0 && x < d * n
    ensures x / d < n
  {
    var q := x / d;
    assert d * q <= x;
    MulCancel(q, n, d);
  }

  lemma DivAtMost(x: nat, d: nat)
    requires d > 0
    ensures 0 <= x / d <= x
  {
    var q := x / d;
    assert x == d * q + x % d;
    if q > 0 {
      MulAtLeast(q, d);
    }
  }

  lemma DivOfMultiple(n: nat, k: nat)
    requires n > 0
    ensures (n * k) / n == k
  {
    var q := (n * k) / n;
    assert n * q <= n * k;
    assert n * k < n * (q + 1) by {
      assert n * k == n * q + (n * k) % n;
      assert n * (q + 1) == n * q + n;
    }
    MulCancel(q, k, n);
    MulCancel(k, q + 1, n);
  }

  /** Quotient and remainder are the only ones: any split h = d*q + r with r < d is h / d and h % d. */
  lemma DivModUnique(h: nat, d: nat, q: nat, r: nat)
    requires d > 0 && r < d && h == d * q + r
    ensures h / d == q && h % d == r
  {
    var q0, r0 := h / d, h % d;
    assert h == d * q0 + r0;
    if q0 < q {
      MulMonotone(q0 + 1, q, d);
    } else if q < q0 {
      MulMonotone(q + 1, q0, d);
    }
  }

  /** Reducing the left summand first does not change the remainder of a sum. */
  lemma ModAddLeft(a: nat, b: nat, m: nat)
    requires m > 0
    ensures (a % m + b) % m == (a + b) % m
  {
    var q1, r1 := a / m, a % m;
    var q2, r2 := (r1 + b) / m, (r1 + b) % m;
    assert a == m * q1 + r1;
    assert r1 + b == m * q2 + r2;
    assert a + b == m * (q1 + q2) + r2 by {
      assert m * (q1 + q2) == m * q1 + m * q2;
    }
    DivModUnique(a + b, m, q1 + q2, r2);
  }
}
