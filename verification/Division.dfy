/** Facts about division that the solver does not find by itself. */
module Division {

  lemma MulMono(a: int, b: int, c: int)
    requires a <= b && c > 0
    ensures a * c <= b * c
  {
    assert (b - a) * c >= 0;
  }

  /** Quotient and remainder are unique. */
  lemma DivIs(x: int, q: int, r: int, b: int)
    requires b > 0 && x == q * b + r && 0 <= r < b
    ensures x / b == q && x % b == r
  {
    var p, t := x / b, x % b;
    assert x == b * p + t;
    if p > q {
      MulMono(q + 1, p, b);
    } else if p < q {
      MulMono(p + 1, q, b);
    }
  }

  lemma Distribute(h: int, n: int, d: int, q: int)
    ensures (h * n + d) * q == h * (n * q) + d * q
  {
  }

  /** Taking the top digit off a remainder. */
  lemma ModSplit(x: nat, n: nat, q: nat)
    requires n > 0 && q > 0
    ensures n * q > 0 && x % (n * q) == (x / q % n) * q + x % q
  {
    var d, h, t := x / q % n, x / q / n, x % q;
    MulMono(1, n, q);
    assert x == q * (x / q) + t && x / q == n * h + d;
    Distribute(h, n, d, q);
    MulMono(d, n - 1, q);
    assert (n - 1) * q + q == n * q;
    DivIs(x, h, d * q + t, n * q);
  }

  /** Dividing twice is dividing by the product. */
  lemma DivDiv(x: nat, a: nat, b: nat)
    requires a > 0 && b > 0
    ensures a * b > 0 && x / (a * b) == x / a / b
  {
    var q, r := x / a, x % a;
    var p, t := q / b, q % b;
    MulMono(1, a, b);
    Distribute(p, b, t, a);
    MulMono(t, b - 1, a);
    assert (b - 1) * a + a == b * a;
    assert x == p * (b * a) + (t * a + r);
    DivIs(x, p, t * a + r, b * a);
  }
}
