/** Facts about quotients and remainders of numbers whose divisor is not a constant. */
module Arith {

  lemma MulMonotone(a: int, b: int, c: nat)
    requires a <= b
    ensures a * c <= b * c
  {
    assert (b - a) * c >= 0;
    assert (b - a) * c == b * c - a * c;
  }

  lemma DivModUnique(v: int, m: nat, q: int, r: int)
    requires m > 0 && v == q * m + r && 0 <= r < m
    ensures v / m == q && v % m == r
  {
    var e, s := v / m, v % m;
    assert v == e * m + s && 0 <= s < m;
    if e < q {
      assert (e + 1) * m == e * m + m;
      MulMonotone(e + 1, q, m);
      assert false;
    }
    if q < e {
      assert (q + 1) * m == q * m + m;
      MulMonotone(q + 1, e, m);
      assert false;
    }
  }

  lemma ProductModulo(x: nat, y: nat, m: nat)
    requires m > 0
    ensures x % m * y % m == x * y % m
  {
    var q, r := x / m, x % m;
    var e, s := r * y / m, r * y % m;
    assert x == q * m + r && r * y == e * m + s;
    assert x * y == (q * m) * y + r * y;
    assert (q * m) * y == (q * y) * m;
    assert x * y == (q * y + e) * m + s by {
      assert (q * y + e) * m == (q * y) * m + e * m;
    }
    DivModUnique(x * y, m, q * y + e, s);
  }

  /** Truncating twice is truncating once. */
  lemma DivDiv(v: nat, a: nat, b: nat)
    requires a > 0 && b > 0
    ensures a * b > 0
    ensures v / a / b == v / (a * b)
  {
    var q, r := v / a, v % a;
    var e, s := q / b, q % b;
    assert v == q * a + r && q == e * b + s;
    assert a * b > 0 by { MulMonotone(1, a, b); }
    assert v == e * (a * b) + (s * a + r) by {
      assert q * a == (e * b) * a + s * a;
      assert (e * b) * a == e * (a * b);
    }
    assert s * a + r < a * b by {
      assert (s + 1) * a == s * a + a;
      assert b * a == a * b;
      MulMonotone(s + 1, b, a);
    }
    MulMonotone(0, s, a);
    DivModUnique(v, a * b, e, s * a + r);
  }

  /** The quotient is the largest number whose product with the divisor does not exceed the dividend. */
  lemma QuotientIsLargest(v: nat, m: nat, q: nat)
    requires m > 0
    ensures q <= v / m <==> q * m <= v
  {
    var e, s := v / m, v % m;
    assert v == e * m + s && 0 <= s < m;
    if q <= e {
      MulMonotone(q, e, m);
    } else {
      MulMonotone(e + 1, q, m);
      assert (e + 1) * m == e * m + m;
    }
  }

  lemma ShrinkingQuotient(v: nat, d: nat)
    requires d > 0
    ensures 0 <= v / d <= v
  {
    QuotientIsLargest(v, d, v / d);
    MulMonotone(1, d, v / d);
  }
}
