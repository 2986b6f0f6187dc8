/** Powers and the few nonlinear facts the word-level proofs rest on. */
module Arith {

  function Pow(b: nat, e: nat): nat {
    if e == 0 then 1 else b * Pow(b, e - 1)
  }

  lemma {:induction false} PowPositive(b: nat, e: nat)
    requires b > 0
    ensures Pow(b, e) > 0
  {
    if e > 0 {
      PowPositive(b, e - 1);
      MulPositive(b, Pow(b, e - 1));
    }
  }

  lemma PowNext(b: nat, e: nat)
    ensures Pow(b, 0) == 1 && Pow(b, e + 1) == b * Pow(b, e)
  {}

  lemma {:induction false} PowAdd(b: nat, m: nat, n: nat)
    ensures Pow(b, m + n) == Pow(b, m) * Pow(b, n)
  {
    if m > 0 {
      PowAdd(b, m - 1, n);
      MulAssoc(b, Pow(b, m - 1), Pow(b, n));
    }
  }

  lemma {:induction false} PowBaseMul(a: nat, b: nat, e: nat)
    ensures Pow(a * b, e) == Pow(a, e) * Pow(b, e)
  {
    if e > 0 {
      PowBaseMul(a, b, e - 1);
      MulSwap(a, b, Pow(a, e - 1), Pow(b, e - 1));
    }
  }

  lemma {:induction false} PowMonotone(b: nat, m: nat, n: nat)
    requires b >= 1 && m <= n
    ensures Pow(b, m) <= Pow(b, n)
    decreases n
  {
    if m < n {
      PowMonotone(b, m, n - 1);
      MulGrows(b, Pow(b, n - 1));
    }
  }

  /** Strict monotonicity, in the form used to bound exponents. */
  lemma {:induction false} PowStrict(b: nat, m: nat, n: nat)
    requires b >= 2 && m < n
    ensures Pow(b, m) < Pow(b, n)
  {
    PowMonotone(b, m, n - 1);
    PowPositive(b, n - 1);
    MulMonotone(2, b, Pow(b, n - 1));
  }

  lemma {:induction false} FiveOdd(k: nat)
    ensures Pow(5, k) % 2 == 1
  {
    if k > 0 { FiveOdd(k - 1); }
  }

  lemma MulPositive(a: nat, b: nat)
    requires a > 0 && b > 0
    ensures a * b > 0
  {}

  lemma MulGrows(a: nat, b: nat)
    requires a >= 1
    ensures b <= a * b
  {}

  lemma MulMonotone(a: nat, b: nat, c: nat)
    requires a <= b
    ensures a * c <= b * c
  {}

  lemma MulStrict(a: nat, b: nat, c: nat)
    requires a < b && c > 0
    ensures a * c < b * c
  {}

  lemma MulCancelLess(a: nat, b: nat, c: nat)
    requires a * c < b * c
    ensures a < b
  {
    if a >= b {
      MulMonotone(b, a, c);
    }
  }

  lemma MulAssoc(a: int, b: int, c: int)
    ensures (a * b) * c == a * (b * c)
  {}

  lemma MulSwap(a: int, b: int, c: int, d: int)
    ensures (a * b) * (c * d) == (a * c) * (b * d)
  {}

  lemma MulDistrib(a: int, b: int, c: int)
    ensures (a + b) * c == a * c + b * c
  {}

  lemma MulDistribSub(a: int, b: int, c: int)
    ensures (a - b) * c == a * c - b * c
  {}

  /** x * v kept folded, so that loops over words are verified without nonlinear reasoning. */
  ghost function Times(x: int, v: nat): int {
    if v == 0 then 0 else x + Times(x, v - 1)
  }

  lemma {:induction false} TimesIsMul(x: int, v: nat)
    ensures Times(x, v) == x * v
  {
    if v > 0 { TimesIsMul(x, v - 1); }
  }

  lemma TimesNext(x: int, v: nat)
    ensures Times(x, 0) == 0 && Times(x, v + 1) == Times(x, v) + x
  {}

  /** Quotient and remainder are unique. */
  lemma DivModUnique(x: int, d: int, q: int, r: int)
    requires d > 0 && 0 <= r < d && x == q * d + r
    ensures q == x / d && r == x % d
  {
    var q', r' := x / d, x % d;
    assert x == q' * d + r';
    MulDistribSub(q, q', d);
    assert (q - q') * d == r' - r;
    if q > q' {
      MulMonotone(1, q - q', d);
    } else if q < q' {
      MulDistribSub(q', q, d);
      MulMonotone(1, q' - q, d);
    }
  }

  lemma DivAtMost(n: nat, d: nat)
    requires d > 0
    ensures 0 <= n / d <= n
  {
    MulMonotone(1, d, n / d);
  }

  /** A right shift. */
  function Shr(x: nat, s: nat): nat {
    PowPositive(2, s);
    DivAtMost(x, Pow(2, s));
    x / Pow(2, s)
  }
}
