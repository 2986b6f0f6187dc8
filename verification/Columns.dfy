/** Squaring by column sums: the columns of the product table add up to the square. */
module Columns {
  import opened Arith
  import opened Limbs

  /** The terms n[i] * n[k - i] of column k that lie in rows i < r. */
  ghost function Column(n: seq<bigit>, k: nat, r: nat): nat
    requires r <= |n|
  {
    if r == 0 then 0 else Column(n, k, r - 1) + Cell(n, r - 1, k)
  }

  function Product(a: int, b: int): nat
    requires 0 <= a < BASE && 0 <= b < BASE
  {
    a * b
  }

  ghost function Cell(n: seq<bigit>, i: nat, k: nat): nat
    requires i < |n|
  {
    if i <= k && k - i < |n| then Product(n[i], n[k - i]) else 0
  }

  /** The first k columns, restricted to rows below r, each at its weight. */
  ghost function Columns(n: seq<bigit>, k: nat, r: nat): int
    requires r <= |n|
  {
    if k == 0 then 0 else Columns(n, k - 1, r) + Up(Column(n, k - 1, r), k - 1)
  }

  lemma CellBound(a: bigit, b: bigit)
    ensures Product(a, b) <= (BASE - 1) * (BASE - 1)
  {
    MulMonotone(a, BASE - 1, b);
    MulMonotone(b, BASE - 1, BASE - 1);
  }

  lemma {:induction false} ColumnBound(n: seq<bigit>, k: nat, r: nat)
    requires r <= |n|
    ensures Column(n, k, r) <= r * ((BASE - 1) * (BASE - 1))
  {
    if r > 0 {
      ColumnBound(n, k, r - 1);
      if r - 1 <= k && k - (r - 1) < |n| {
        CellBound(n[r - 1], n[k - (r - 1)]);
      }
    }
  }

  lemma {:induction false} ColumnRange(n: seq<bigit>, k: nat, lo: nat, hi: nat)
    requires lo <= hi <= |n|
    ensures 0 <= Column(n, k, hi) - Column(n, k, lo) <= hi * ((BASE - 1) * (BASE - 1))
    decreases hi
  {
    if lo < hi {
      ColumnRange(n, k, lo, hi - 1);
      if hi - 1 <= k && k - (hi - 1) < |n| {
        CellBound(n[hi - 1], n[k - (hi - 1)]);
      }
    }
  }

  /** The inner loop's range covers all of the column. */
  lemma ColumnEnds(n: seq<bigit>, k: nat, lo: nat, hi: nat)
    requires k < 2 * |n|
    requires lo == (if k < |n| then 0 else k - |n| + 1) && hi == (if k < |n| then k + 1 else |n|)
    ensures Column(n, k, hi) - Column(n, k, lo) == Column(n, k, |n|)
  {
    if k < |n| {
      ColumnTail(n, k, |n|);
    } else {
      ColumnHead(n, k, lo);
    }
  }

  /** In the lower half the rows past the column index contribute nothing. */
  lemma {:induction false} ColumnTail(n: seq<bigit>, k: nat, r: nat)
    requires k < r <= |n|
    ensures Column(n, k, r) == Column(n, k, k + 1)
    decreases r
  {
    if r > k + 1 { ColumnTail(n, k, r - 1); }
  }

  /** In the upper half the first rows contribute nothing. */
  lemma {:induction false} ColumnHead(n: seq<bigit>, k: nat, r: nat)
    requires r <= |n| && r + |n| <= k + 1
    ensures Column(n, k, r) == 0
  {
    if r > 0 { ColumnHead(n, k, r - 1); }
  }

  /** How many bigits of n row r meets within the first k columns. */
  function Reach(n: seq<bigit>, k: nat, r: nat): (c: nat)
    ensures c <= |n|
  {
    if k <= r then 0 else if k - r < |n| then k - r else |n|
  }

  /** One more row adds that bigit times the part of n it meets. */
  lemma {:induction false} RowAdds(n: seq<bigit>, k: nat, r: nat)
    requires r < |n|
    ensures Columns(n, k, r + 1) == Columns(n, k, r) + Up(n[r] * Val(n[..Reach(n, k, r)]), r)
  {
    hide Val, Up;
    UpZero(r);
    assert Val(n[..0]) == 0 by { ValZero(n[..0]); }
    if k > 0 {
      RowAdds(n, k - 1, r);
      UpAdd(Column(n, k - 1, r), Cell(n, r, k - 1), k - 1);
      UpZero(k - 1);
      if r <= k - 1 && k - 1 - r < |n| {
        var j := k - 1 - r;
        ValNext(n, j);
        RowCell(n[r], Val(n[..j]), n[j], j, r);
      }
    }
  }

  lemma RowCell(b: int, v: int, x: int, j: nat, r: nat)
    ensures Up(b * (v + Up(x, j)), r) == Up(b * v, r) + Up(b * x, j + r)
  {
    hide Val, Up;
    UpScale(x, b, j);
    assert b * (v + Up(x, j)) == b * v + Up(x, j) * b;
    assert x * b == b * x;
    UpAdd(b * v, Up(b * x, j), r);
    UpUp(b * x, j, r);
  }

  /** All columns together are the square. */
  lemma {:induction false} ColumnsAreProduct(n: seq<bigit>, r: nat)
    requires r <= |n|
    ensures Columns(n, 2 * |n|, r) == Val(n[..r]) * Val(n)
  {
    if r == 0 {
      NoRows(n, 2 * |n|);
    } else {
      ColumnsAreProduct(n, r - 1);
      RowAdds(n, 2 * |n|, r - 1);
      assert n[..|n|] == n;
      ValNext(n, r - 1);
      UpScale(n[r - 1], Val(n), r - 1);
      MulDistrib(Val(n[..r - 1]), Up(n[r - 1], r - 1), Val(n));
    }
  }

  lemma {:induction false} NoRows(n: seq<bigit>, k: nat)
    ensures Columns(n, k, 0) == 0
  {
    if k > 0 {
      NoRows(n, k - 1);
      UpZero(k - 1);
    }
  }

  /** Loop invariant of squaring: k result bigits written, the carry owed to bigit k. */
  ghost predicate Squared(result: seq<bigit>, k: nat, carry: nat, n: seq<bigit>) {
    && k <= |result| == 2 * |n|
    && carry <= |n| * BASE
    && Val(result[..k]) + Up(carry, k) == Columns(n, k, |n|)
  }

  lemma SquaredStart(result: seq<bigit>, n: seq<bigit>)
    requires |result| == 2 * |n|
    ensures Squared(result, 0, 0, n)
  {}

  lemma SquaredStep(result: seq<bigit>, k: nat, carry: nat, n: seq<bigit>, total: nat)
    requires Squared(result, k, carry, n) && k < |result|
    requires total == carry + Column(n, k, |n|)
    ensures Squared(result[k := total % BASE], k + 1, total / BASE, n)
  {
    hide Val, Up;
    var next := result[k := total % BASE];
    assert next[..k] == result[..k];
    ValNext(next, k);
    UpAdd(carry, Column(n, k, |n|), k);
    UpJoin(total % BASE, total / BASE, k);
    ColumnBound(n, k, |n|);
  }

  lemma SquaredDone(result: seq<bigit>, carry: nat, n: seq<bigit>)
    requires Squared(result, |result|, carry, n)
    ensures Val(result) == Val(n) * Val(n)
  {
    hide Val, Up;
    var m := |n|;
    ColumnsAreProduct(n, m);
    assert n[..m] == n && result[..2 * m] == result;
    ValBound(n);
    SquareBound(Val(n), m);
    UpMonotone(0, carry, 2 * m);
    UpZero(2 * m);
    if carry > 0 { UpMonotone(1, carry, 2 * m); }
  }

  lemma SquareBound(v: nat, m: nat)
    requires v < Up(1, m)
    ensures v * v < Up(1, 2 * m)
  {
    hide Val, Up;
    UpScale(1, Up(1, m), m);
    UpUp(1, m, m);
    MulMonotone(v, Up(1, m), v);
    MulStrict(v, Up(1, m), Up(1, m));
  }

  lemma SquareScaled(v: int, e: nat)
    ensures Up(v * v, 2 * e) == Up(v, e) * Up(v, e)
  {
    hide Val, Up;
    UpScale(v, v, e);
    UpUp(v * v, e, e);
    assert Up(v, e) * v == v * Up(v, e);
    UpScale(v, Up(v, e), e);
  }

  // ---- Powers of five by their binary digits ----

  /** e is n without its lowest t binary digits. */
  ghost predicate Prefix(n: nat, t: nat, e: nat) {
    Pow(2, t) > 0 && e == n / Pow(2, t)
  }

  lemma PrefixTop(n: nat, t: nat)
    requires Pow(2, t) <= n < 2 * Pow(2, t)
    ensures Prefix(n, t, 1)
  {
    PowPositive(2, t);
    DivModUnique(n, Pow(2, t), 1, n - Pow(2, t));
  }

  /** Dropping one binary digit fewer: the next prefix of the exponent. */
  lemma PrefixStep(n: nat, t: nat, e: nat, bitmask: nat)
    requires t > 0 && Prefix(n, t, e) && bitmask == Pow(2, t - 1)
    ensures bitmask > 0 && Prefix(n, t - 1, 2 * e + (n / bitmask) % 2)
    ensures e <= n
  {
    PowPositive(2, t - 1);
    HalveStep(n, bitmask, n / bitmask);
    DivAtMost(n, Pow(2, t));
  }

  lemma PrefixAll(n: nat, e: nat)
    requires Prefix(n, 0, e)
    ensures e == n
  {}

  lemma HalveStep(n: nat, p: nat, a: nat)
    requires p > 0 && a == n / p
    ensures a / 2 == n / (2 * p)
  {
    var r, q, b := n % p, a / 2, a % 2;
    assert n == a * p + r;
    assert a * p == q * (2 * p) + b * p by {
      MulDistrib(2 * q, b, p);
    }
    MulMonotone(b, 1, p);
    DivModUnique(n, 2 * p, q, b * p + r);
  }

  /** A power of five below 8^e has at most 3e binary digits. */
  lemma PowerLength(s: seq<bigit>, e: nat)
    requires Normalized(s) && Val(s) == Pow(5, e)
    ensures 32 * (|s| - 1) <= 3 * e
  {
    PowPositive(5, e);
    NormalizedZero(s);
    ValTop(s);
    UpIsPow2(1, |s| - 1);
    EightPower(e);
    if 3 * e < 32 * (|s| - 1) {
      PowStrict(2, 3 * e, 32 * (|s| - 1));
    }
  }

  lemma {:induction false} EightPower(e: nat)
    ensures Pow(5, e) <= Pow(2, 3 * e)
  {
    if e > 0 {
      EightPower(e - 1);
      assert Pow(2, 3 * e) == 2 * Pow(2, 3 * e - 1) == 4 * Pow(2, 3 * e - 2) == 8 * Pow(2, 3 * (e - 1));
    }
  }
}
