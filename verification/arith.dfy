/** Facts about natural-number multiplication and division that the solver does not find unaided. */
module Arith {

  lemma MulLe(a: nat, b: nat, n: nat)
    requires a <= b
    ensures a * n <= b * n
  {
  }

  lemma DigitBound(r: nat, p: nat, k: nat, n: nat)
    requires r < p && k < n
    ensures r * n + k < p * n
  {
    MulLe(r + 1, p, n);
    assert (r + 1) * n == r * n + n;
  }

  /** Dividing a natural number by a positive one gives a natural quotient no larger than it. */
  lemma {:induction false} DivNat(a: int, n: int)
    requires 0 <= a && 0 < n
    ensures 0 <= a / n <= a && 0 <= a % n < n
    decreases a
  {
    if a < n {
      DivModSmall(a, n);
    } else {
      DivNat(a - n, n);
      DivModNext(a, n);
    }
  }

  lemma DivModSplit(a: nat, n: nat)
    requires 0 < n
    ensures a == (a / n) * n + a % n
  {
  }

  lemma MulPositive(a: nat, n: nat)
    requires 0 < a * n
    ensures 0 < n
  {
  }

  lemma DivModUnique(a: nat, n: nat, q: nat, r: nat)
    requires 0 <= r < n
    requires a == q * n + r
    ensures a / n == q && a % n == r
  {
    var q', r' := a / n, a % n;
    assert a == q' * n + r';
    if q < q' {
      MulLe(q + 1, q', n);
      assert false;
    } else if q' < q {
      MulLe(q' + 1, q, n);
      assert false;
    }
  }

  lemma DivMonotone(x: nat, y: nat, d: nat)
    requires x <= y && 0 < d
    ensures x / d <= y / d
  {
    if y / d < x / d {
      DivModSplit(x, d);
      DivModSplit(y, d);
      MulLe(y / d + 1, x / d, d);
      assert false;
    }
  }

  lemma MulDivCancel(a: nat, d: nat)
    requires 0 < d
    ensures (a * d) / d == a
  {
    DivModUnique(a * d, d, a, 0);
  }

  /** Stepping from `m - 1` to `m` raises `m / d` exactly when `d` divides `m`. */
  lemma DivStep(m: nat, d: nat)
    requires 0 < m && 0 < d
    ensures m / d == (m - 1) / d + (if m % d == 0 then 1 else 0)
  {
    var q, r := (m - 1) / d, (m - 1) % d;
    DivModSplit(m - 1, d);
    if r + 1 < d {
      DivModUnique(m, d, q, r + 1);
    } else {
      assert m == (q + 1) * d + 0;
      DivModUnique(m, d, q + 1, 0);
    }
  }

  /** Below the divisor, the quotient is zero and the remainder is the number itself. */
  lemma DivModSmall(i: nat, n: nat)
    requires i < n
    ensures i / n == 0 && i % n == i
  {
    DivModUnique(i, n, 0, i);
  }

  /** Taking one divisor off lowers the quotient by one and keeps the remainder. */
  lemma DivModNext(i: nat, n: nat)
    requires 0 < n <= i
    ensures i / n == (i - n) / n + 1 && i % n == (i - n) % n
  {
    var q, k := (i - n) / n, (i - n) % n;
    DivModSplit(i - n, n);
    assert (q + 1) * n == q * n + n;
    DivModUnique(i, n, q + 1, k);
  }

  /** `m * n` peeled by one factor. */
  lemma MulPred(m: nat, n: nat)
    requires 0 < m
    ensures m * n == n + (m - 1) * n
  {
  }
}
