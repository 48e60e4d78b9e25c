/** Quotients and remainders of natural numbers by a variable divisor. */
module Division {

  lemma {:induction false} Grows(k: int, n: int)
    requires k >= 1 && n >= 0
    ensures k * n >= n
  {
  }

  lemma {:induction false} Scales(a: nat, b: nat, d: nat)
    requires a <= b
    ensures a * d <= b * d
  {
    assert (b - a) * d >= 0;
    assert (b - a) * d == b * d - a * d;
  }

  lemma {:induction false} OneMultiple(k: int, n: int, r: int)
    requires k * n == r && -n < r < n
    ensures k == 0
  {
    if k >= 1 {
      Grows(k, n);
    } else if k <= -1 {
      Grows(-k, n);
    }
  }

  lemma {:induction false} DivModUnique(x: nat, q: int, r: nat, n: nat)
    requires r < n && x == q * n + r
    ensures x / n == q && x % n == r
  {
    var k := x / n - q;
    assert x == (x / n) * n + x % n;
    assert k * n == (x / n) * n - q * n;
    OneMultiple(k, n, r - x % n);
  }

  /** Steps of less than `n` reach every remainder, each once. */
  lemma {:induction false} ModStep(x: nat, d: nat, n: nat)
    requires d < n
    ensures (x + d) % n == if x % n + d < n then x % n + d else x % n + d - n
  {
    var q, m := x / n, x % n;
    assert x == q * n + m;
    if m + d < n {
      DivModUnique(x + d, q, m + d, n);
    } else {
      assert (q + 1) * n == q * n + n;
      DivModUnique(x + d, q + 1, m + d - n, n);
    }
  }

  lemma {:induction false} DivDiv(n: nat, c: nat, p: nat)
    requires c > 0 && p > 0
    ensures c * p > 0 && n / (c * p) == n / c / p
  {
    var h := n / c;
    var q, s := h / p, h % p;
    Product(c, s, n % c, p);
    assert h == q * p + s && n == h * c + n % c;
    assert h * c == q * (c * p) + s * c by {
      assert (q * p + s) * c == q * p * c + s * c;
      assert q * (c * p) == q * p * c;
    }
    DivModUnique(n, q, s * c + n % c, c * p);
  }

  lemma {:induction false} Product(c: nat, s: nat, r: nat, p: nat)
    requires s < p && r < c
    ensures 0 <= s * c + r < c * p
  {
    Scales(0, s, c);
    Scales(s + 1, p, c);
    assert (s + 1) * c == s * c + c;
  }

  /** A quotient is the greatest factor that fits. */
  lemma {:induction false} QuotientExact(x: nat, d: nat, q: nat)
    requires d >= 1
    ensures q <= x / d <==> q * d <= x
  {
    var k := x / d;
    assert x == k * d + x % d;
    if q <= k {
      Scales(q, k, d);
    } else {
      Scales(k + 1, q, d);
      assert (k + 1) * d == k * d + d;
    }
  }
}
