/** Small facts of integer arithmetic that the solver does not find on its own (products and quotients with a variable operand). */
module Arith {
  lemma MulSucc(k: int, m: int)
    ensures (1 + k) * m == m + k * m
  {
  }

  lemma MulMonotone(q: nat, p: nat, b: nat)
    ensures q >= p ==> q * b >= p * b
  {
    if q >= p {
      assert q * b == p * b + (q - p) * b;
    }
  }

  /** Window `i` of `n` windows of `r` elements lies inside the `n * r` elements. */
  lemma WindowInside(i: nat, n: nat, r: nat)
    requires i < n
    ensures 0 <= i * r && i * r + r <= n * r
  {
    MulSucc(i, r);
    MulMonotone(n, i + 1, r);
  }

  lemma MulBounds(x: int, r: int)
    requires r >= 0
    ensures x >= 1 ==> x * r >= r
    ensures x <= -1 ==> x * r <= -r
  {
    if x >= 1 {
      assert x * r == r + (x - 1) * r;
    } else if x <= -1 {
      assert x * r == -r + (x + 1) * r;
    }
  }

  /** Dividing a multiple of `r` by `r` is exact. */
  lemma MulDivExact(n: nat, r: nat)
    requires r > 0
    ensures (n * r) / r == n && (n * r) % r == 0
  {
    var q, m := (n * r) / r, (n * r) % r;
    assert n * r == q * r + m;
    assert (n - q) * r == m;
    MulBounds(n - q, r);
  }

  /** `q` is the floor of `n / d` when `n` lies in `[q * d, q * d + d)`. */
  lemma DivBracket(n: nat, d: nat, q: nat)
    requires d > 0 && q * d <= n < q * d + d
    ensures n / d == q && n % d == n - q * d
  {
    var q', m := n / d, n % d;
    assert n == q' * d + m;
    assert (q - q') * d == m - (n - q * d);
    MulBounds(q - q', d);
  }

  /** Taking `d` off a dividend of at least `d` takes one off the quotient. */
  lemma DivSucc(n: nat, d: nat)
    requires d > 0 && n >= d
    ensures n / d == (n - d) / d + 1
  {
    var q := (n - d) / d;
    DivBracket(n - d, d, q);
    MulSucc(q, d);
    DivBracket(n, d, q + 1);
  }

  lemma DivSmall(n: nat, d: nat)
    requires n < d
    ensures n / d == 0
  {
  }

  /** A quotient of at least one needs a dividend of at least the divisor. */
  lemma DivPositive(n: nat, d: nat)
    requires d > 0 && n / d >= 1
    ensures n >= d
  {
    assert n == (n / d) * d + n % d;
    MulBounds(n / d, d);
  }

  lemma DivStep(n: nat, base: nat)
    requires 2 <= base && n >= base
    ensures 1 <= n / base < n && n % base < base
    ensures n == (n / base) * base + n % base
  {
    var q, r := n / base, n % base;
    assert n == q * base + r && 0 <= r < base;
    MulBounds(q, base);
    assert q >= 1;
    MulMonotone(base, 2, q);
    assert base * q >= 2 * q;
  }
}
