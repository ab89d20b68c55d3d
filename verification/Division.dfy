/**
  Division by a variable divisor, in the small steps the solver can take.
 */
module Division {

  lemma {:induction false} MulStep(a: nat, b: nat, d: nat)
    requires a < b
    ensures a * d + d <= b * d
    decreases b
  {
    if b > a + 1 {
      MulStep(a, b - 1, d);
    }
    assert (b - 1) * d + d == b * d;
  }

  lemma Euclid(n: nat, d: nat)
    requires d > 0
    ensures n == (n / d) * d + n % d && n % d < d
  {
  }

  /** Quotient and remainder are the only way to split a number at a divisor. */
  lemma DivUnique(n: nat, d: nat, q: nat, r: nat)
    requires d > 0 && n == q * d + r && r < d
    ensures n / d == q && n % d == r
  {
    Euclid(n, d);
    if n / d < q {
      MulStep(n / d, q, d);
    } else if n / d > q {
      MulStep(q, n / d, d);
    }
  }

  /** A quotient is below k exactly when the number is below k times the divisor. */
  lemma DivBound(n: nat, d: nat, k: nat)
    requires d > 0
    ensures n < k * d <==> n / d < k
  {
    Euclid(n, d);
    if n / d < k {
      MulStep(n / d, k, d);
    } else if n / d > k {
      MulStep(k, n / d, d);
    }
  }

  lemma ProductPositive(h: nat, s: nat)
    requires h > 0 && s > 0
    ensures h * s > 0
  {
    MulStep(0, h, s);
  }

  /** Dividing by s and then by h is dividing by their product. */
  lemma DivDiv(n: nat, s: nat, h: nat)
    requires s > 0 && h > 0
    ensures h * s > 0 && n / (h * s) == (n / s) / h
  {
    ProductPositive(h, s);
    Euclid(n, s);
    Euclid(n / s, h);
    Regroup(n, n / s, n % s, (n / s) / h, (n / s) % h, s, h);
    Below((n / s) % h, n % s, s, h);
    DivUnique(n, h * s, (n / s) / h, (n / s) % h * s + n % s);
  }

  lemma Regroup(n: nat, t: nat, r: nat, c: nat, x: nat, s: nat, h: nat)
    requires n == t * s + r && t == c * h + x
    ensures n == c * (h * s) + (x * s + r)
  {
    assert (c * h + x) * s == c * h * s + x * s;
    assert c * h * s == c * (h * s);
  }

  lemma Below(x: nat, r: nat, s: nat, h: nat)
    requires x < h && r < s
    ensures x * s + r < h * s
  {
    MulStep(x, h, s);
  }

  lemma NextMultiple(q: nat, d: nat)
    ensures (q + 1) * d == q * d + d
  {
  }

  /** Counting on by one either stays on the track or starts the next. */
  lemma DivNext(n: nat, d: nat)
    requires d > 0
    ensures if n % d + 1 < d then (n + 1) / d == n / d && (n + 1) % d == n % d + 1
            else (n + 1) / d == n / d + 1 && (n + 1) % d == 0
  {
    var q, r := n / d, n % d;
    Euclid(n, d);
    if r + 1 < d {
      DivUnique(n + 1, d, q, r + 1);
    } else {
      NextMultiple(q, d);
      DivUnique(n + 1, d, q + 1, 0);
    }
  }
}
