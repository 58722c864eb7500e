/** Monotonicity of products and bounds of quotients, the nonlinear facts the models rest on. */
module Products {
  lemma ProductGrows(a: int, b: int, c: int)
    requires a <= b && c >= 0
    ensures a * c <= b * c
  {
    assert (b - a) * c >= 0;
  }

  lemma SmallerProduct(a: nat, b: nat, c: nat, d: nat)
    requires a <= b && c <= d
    ensures a * c <= b * d
  {
    ProductGrows(a, b, c);
    ProductGrows(c, d, b);
  }

  lemma QuotientSpan(x: int, n: int)
    requires n > 0
    ensures x / n * n <= x < x / n * n + n
  {
    assert x == x / n * n + x % n;
  }

  /** A quotient lies between any two bounds its dividend is a multiple between. */
  lemma QuotientBetween(x: int, n: int, low: int, high: int)
    requires n > 0 && low * n <= x <= high * n
    ensures low <= x / n <= high
  {
    QuotientSpan(x, n);
    var q := x / n;
    assert (q + 1) * n == q * n + n && (high + 1) * n == high * n + n;
    if q < low { ProductGrows(q + 1, low, n); }
    if q > high { ProductGrows(high + 1, q, n); }
  }

  lemma QuotientGrows(x: int, y: int, n: int)
    requires n > 0 && x <= y
    ensures x / n <= y / n
  {
    QuotientSpan(x, n);
    QuotientSpan(y, n);
    var q, r := x / n, y / n;
    assert (r + 1) * n == r * n + n;
    if r < q { ProductGrows(r + 1, q, n); }
  }

  lemma NestedQuotient(x: nat, a: nat, b: nat)
    requires a > 0 && b > 0
    ensures a * b > 0 && x / a / b == x / (a * b)
  {
    var q := x / a / b;
    QuotientSpan(x, a);
    QuotientSpan(x / a, b);
    ProductGrows(1, b, a);
    ProductGrows(q * b, x / a, a);
    ProductGrows(x / a + 1, q * b + b, a);
    assert q * b * a == q * (a * b) && (q * b + b) * a == q * (a * b) + a * b;
    assert (x / a + 1) * a == x / a * a + a;
    QuotientIs(x, a * b, q);
  }

  lemma QuotientIs(x: int, n: int, q: int)
    requires n > 0 && q * n <= x < q * n + n
    ensures x / n == q
  {
    QuotientSpan(x, n);
    var r := x / n;
    assert (r + 1) * n == r * n + n && (q + 1) * n == q * n + n;
    if r < q { ProductGrows(r + 1, q, n); }
    if q < r { ProductGrows(q + 1, r, n); }
  }
}
