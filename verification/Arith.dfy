/** Facts of integer arithmetic the solver does not find by itself: products, and division with
    remainder. */
module Arith {

  lemma MulNonneg(a: int, b: int)
    requires a >= 0 && b >= 0
    ensures a * b >= 0
  {
  }

  lemma MulAtLeast(d: int, k: int)
    requires d > 0 && k >= 1
    ensures d * k >= d
  {
  }

  lemma TwoDigits(a: int, b: int, h: int, l: int, r: int)
    requires 0 <= r < a && 0 <= l < b
    ensures a * (b * h + l) + r == a * b * h + (a * l + r)
    ensures 0 <= a * l + r < a * b && a * b == b * a
  {
    MulNonneg(a, b - 1 - l);
    assert a * (b - 1 - l) == a * b - a - a * l;
    MulNonneg(a, l);
  }

  lemma DivModUnique(x: int, d: int, q: int, r: int)
    requires d > 0 && 0 <= r < d && x == d * q + r
    ensures x / d == q && x % d == r
  {
    var q' := x / d;
    assert x == d * q' + x % d;
    if q > q' {
      MulAtLeast(d, q - q');
      assert false;
    } else if q < q' {
      MulAtLeast(d, q' - q);
      assert false;
    }
  }

  /** Shifting twice, and taking low bits twice. */
  lemma DivTwice(x: int, a: int, b: int)
    requires a > 0 && b > 0
    ensures a * b > 0 && x / (b * a) == x / (a * b) == x / a / b && x % (a * b) % a == x % a
  {
    var q, r := x / a, x % a;
    var h, l := q / b, q % b;
    TwoDigits(a, b, h, l, r);
    DivModUnique(x, a * b, h, a * l + r);
    DivModUnique(a * l + r, a, l, r);
  }

  lemma ProductBound(a: int, b: int, m: int, n: int)
    requires -m <= a <= m && -n <= b <= n
    ensures -(m * n) <= a * b <= m * n
  {
    assert (m - a) * (n - b) >= 0 && (m + a) * (n + b) >= 0;
    assert (m - a) * (n + b) >= 0 && (m + a) * (n - b) >= 0;
  }

  lemma MulLess(a: int, b: int, c: int)
    requires a > 0 && 0 <= b < c
    ensures 0 <= a * b < a * c
  {
  }

  lemma Between(a: int, lo: int, hi: int, c: int)
    requires lo <= a <= hi && 0 <= c
    ensures lo * c <= a * c <= hi * c
  {
    MulNonneg(a - lo, c);
    MulNonneg(hi - a, c);
    assert (a - lo) * c == a * c - lo * c && (hi - a) * c == hi * c - a * c;
  }

  lemma Squeeze(p: int, lo: int, m: int, hi: int)
    requires p > 0 && lo <= m < hi
    ensures lo * p <= m * p < hi * p
  {
    MulNonneg(p, m - lo);
    MulLess(p, 0, hi - m);
    assert p * (m - lo) == m * p - lo * p && p * (hi - m) == hi * p - m * p;
  }

  lemma SquareNonneg(d: int)
    ensures d * d >= 0
    ensures d != 0 ==> d * d > 0
  {
  }

  lemma SquareMono(d: int, m: int)
    requires -m <= d <= m
    ensures 0 <= d * d <= m * m
  {
    MulNonneg(m - d, m + d);
    assert (m - d) * (m + d) == m * m - d * d;
    SquareNonneg(d);
  }
}
