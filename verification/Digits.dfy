/** Decimal digit strings, their value, and rounding. */
module Digits {
  import opened Arith

  /** The digit a character stands for. Intermediate results may hold ':' for ten. */
  function DigitOf(c: char): int { c as int - '0' as int }

  predicate IsDigit(c: char) { '0' <= c <= '9' }

  predicate AllDigits(s: seq<char>) { forall k :: 0 <= k < |s| ==> IsDigit(s[k]) }

  /** The number a digit string denotes, most significant digit first. */
  ghost function Denotes(s: seq<char>): int {
    if |s| == 0 then 0 else 10 * Denotes(s[..|s| - 1]) + DigitOf(s[|s| - 1])
  }

  lemma DenotesPush(s: seq<char>, c: char)
    ensures Denotes(s + [c]) == 10 * Denotes(s) + DigitOf(c)
  {
    assert (s + [c])[..|s|] == s;
  }

  lemma {:induction false} DenotesAppend(s: seq<char>, t: seq<char>)
    ensures Denotes(s + t) == Denotes(s) * Pow(10, |t|) + Denotes(t)
  {
    if |t| == 0 {
      assert s + t == s;
    } else {
      var n := |t| - 1;
      assert s + t == (s + t[..n]) + [t[n]];
      DenotesPush(s + t[..n], t[n]);
      DenotesAppend(s, t[..n]);
      assert 10 * (Denotes(s) * Pow(10, n)) == Denotes(s) * (10 * Pow(10, n));
    }
  }

  lemma {:induction false} DenotesBound(s: seq<char>)
    requires AllDigits(s)
    ensures 0 <= Denotes(s) < Pow(10, |s|)
  {
    if |s| > 0 { DenotesBound(s[..|s| - 1]); }
  }

  lemma {:induction false} DenotesZeros(s: seq<char>)
    requires forall k :: 0 <= k < |s| ==> s[k] == '0'
    ensures Denotes(s) == 0
  {
    if |s| > 0 { DenotesZeros(s[..|s| - 1]); }
  }

  lemma {:induction false} DenotesUpdate(s: seq<char>, i: nat, c: char)
    requires i < |s|
    ensures Denotes(s[i := c]) == Denotes(s) + (DigitOf(c) - DigitOf(s[i])) * Pow(10, |s| - 1 - i)
  {
    var n := |s| - 1;
    if i == n {
      assert s[i := c][..n] == s[..n];
    } else {
      assert s[i := c][..n] == s[..n][i := c];
      DenotesUpdate(s[..n], i, c);
      assert 10 * ((DigitOf(c) - DigitOf(s[i])) * Pow(10, n - 1 - i))
          == (DigitOf(c) - DigitOf(s[i])) * (10 * Pow(10, n - 1 - i));
    }
  }

  // ---- Rounding to nearest, ties to even ----

  ghost function Abs(x: int): nat { if x < 0 then -x else x }

  /** d is num / den rounded to the nearest integer, a tie going to the even one. */
  ghost predicate RoundsHalfEven(d: int, num: int, den: int) {
    var gap := Abs(d * den - num);
    2 * gap <= den && (2 * gap == den ==> d % 2 == 0)
  }

  lemma RoundedUnique(d: int, d': int, num: int, den: int)
    requires den > 0 && RoundsHalfEven(d, num, den) && RoundsHalfEven(d', num, den)
    ensures d == d'
  {
    if d > d' {
      AtMostOneApart(d', d, den);
    } else if d < d' {
      AtMostOneApart(d, d', den);
    }
  }

  lemma AtMostOneApart(d: int, d': int, den: nat)
    requires d < d' && den > 0
    ensures d' * den >= d * den + den
    ensures d' * den <= d * den + den ==> d' == d + 1
  {
    MulDistrib(d, d' - d, den);
    MulMonotone(1, d' - d, den);
    if d' - d >= 2 { MulMonotone(2, d' - d, den); }
  }

  /** A common factor does not change the rounding. */
  lemma RoundedScale(d: int, num: int, den: int, k: nat)
    requires k > 0 && den > 0
    ensures RoundsHalfEven(d, num, den) <==> RoundsHalfEven(d, num * k, den * k)
  {
    var gap := d * den - num;
    assert d * (den * k) - num * k == gap * k by {
      MulDistribSub(d * den, num, k);
      MulAssoc(d, den, k);
    }
    AbsScale(gap, k);
    ScaleCompare(2 * Abs(gap), den, k);
    MulAssoc(2, Abs(gap), k);
  }

  lemma AbsScale(x: int, k: nat)
    ensures Abs(x * k) == Abs(x) * k
  {
    assert (-x) * k == -(x * k);
    if x < 0 { MulMonotone(0, -x, k); } else { MulMonotone(0, x, k); }
  }

  lemma ScaleCompare(a: nat, b: nat, k: nat)
    requires k > 0
    ensures a * k <= b * k <==> a <= b
    ensures a * k == b * k <==> a == b
  {
    if a < b { MulStrict(a, b, k); }
    if b < a { MulStrict(b, a, k); }
  }

  /** Quotient, remainder and the test 2r > den or tie with odd quotient make the rounding. */
  lemma RoundByRemainder(q: int, r: int, num: int, den: int)
    requires den > 0 && num == q * den + r && 0 <= r < den
    ensures RoundsHalfEven(if 2 * r > den || (2 * r == den && q % 2 != 0) then q + 1 else q, num, den)
  {
    MulDistrib(q, 1, den);
  }

  /** What the last digit becomes when nine is rounded up. */
  const OVERFLOW: char := ':'

  // ---- Carry out of an all-nines tail ----

  /** A carry stands at index i; everything after it has become zero. */
  ghost predicate CarryAt(s: seq<char>, i: nat, value: int) {
    && i < |s|
    && (forall k :: 0 <= k < |s| && k != i ==> IsDigit(s[k]))
    && (IsDigit(s[i]) || s[i] == OVERFLOW)
    && (forall k :: i < k < |s| ==> s[k] == '0')
    && Denotes(s) == value
  }

  lemma CarryMoves(s: seq<char>, i: nat, value: int)
    requires CarryAt(s, i, value) && i > 0 && s[i] == OVERFLOW
    ensures CarryAt(s[i := '0'][i - 1 := s[i - 1] + 1 as char], i - 1, value)
  {
    var t := s[i := '0'];
    DenotesUpdate(s, i, '0');
    DenotesUpdate(t, i - 1, s[i - 1] + 1 as char);
    assert Pow(10, |s| - 1 - (i - 1)) == 10 * Pow(10, |s| - 1 - i);
  }

  lemma CarryOut(s: seq<char>, value: int)
    requires CarryAt(s, 0, value) && s[0] == OVERFLOW
    ensures AllDigits(s[0 := '1']) && forall k :: 0 < k < |s| ==> s[k] == '0'
    ensures value == 10 * Denotes(s[0 := '1'])
  {
    DenotesUpdate(s, 0, '1');
    DenotesAppend([s[0]], s[1..]);
    assert s == [s[0]] + s[1..];
    DenotesZeros(s[1..]);
    DenotesPush([], s[0]);
    assert [] + [s[0]] == [s[0]];
  }

  /** A digit at the carry's place: the carry is used up. */
  lemma CarrySettled(s: seq<char>, i: nat, value: int)
    requires CarryAt(s, i, value)
    ensures s[i] <= OVERFLOW && (s[i] > '9' ==> s[i] == OVERFLOW) && (i > 0 ==> IsDigit(s[i - 1]))
    ensures s[i] <= '9' ==> AllDigits(s) && Denotes(s) == value
  {
    hide Denotes;
  }

  predicate AllNines(s: seq<char>) { forall k :: 0 <= k < |s| ==> s[k] == '9' }

  /** One, then only zeros. */
  predicate IsPowerOfTen(s: seq<char>) { |s| > 0 && s[0] == '1' && forall k :: 0 < k < |s| ==> s[k] == '0' }

  /** The text t with one added to its last digit, the carry having come to i: nines have become zeros behind
      it, and nothing has changed in front of it. */
  ghost predicate CarriedTo(t: seq<char>, s: seq<char>, i: nat) {
    && i < |s| == |t| && AllDigits(t)
    && (forall k :: 0 <= k < i ==> s[k] == t[k])
    && s[i] as int == t[i] as int + 1
    && (forall k :: i < k < |s| ==> t[k] == '9' && s[k] == '0')
  }

  lemma CarriedStart(t: seq<char>)
    requires |t| > 0 && AllDigits(t)
    ensures CarriedTo(t, t[|t| - 1 := t[|t| - 1] + 1 as char], |t| - 1)
  {}

  lemma CarriedOn(t: seq<char>, s: seq<char>, i: nat)
    requires CarriedTo(t, s, i) && i > 0 && s[i] > '9'
    ensures IsDigit(s[i - 1]) && CarriedTo(t, s[i := '0'][i - 1 := s[i - 1] + 1 as char], i - 1)
  {}

  /** Where the carry ends: it leaves the first digit exactly if all were nines, and no leading zero appears. */
  lemma CarriedOut(t: seq<char>, s: seq<char>, i: nat)
    requires CarriedTo(t, s, i) && (i == 0 || s[i] <= '9')
    ensures s[0] > '9' <==> AllNines(t)
    ensures s[0] > '9' ==> s[0] == OVERFLOW && i == 0 && IsPowerOfTen(s[0 := '1'])
    ensures t[0] != '0' ==> s[0] != '0'
  {
    assert i > 0 ==> t[i] != '9';
  }

  /** What is at least k rounds to at least k. */
  lemma RoundsAtLeast(d: int, num: int, den: int, k: int)
    requires den > 0 && RoundsHalfEven(d, num, den) && num >= k * den
    ensures d >= k
  {
    var gap := k - d;
    MulDistrib(d, gap, den);
    if gap >= 1 { MulMonotone(1, gap, den); }
  }

  /** A first digit of zero keeps the number below its power of ten. */
  lemma LeadingZero(s: seq<char>)
    requires |s| > 0 && AllDigits(s) && s[0] == '0'
    ensures Denotes(s) < Pow(10, |s| - 1)
  {
    DenotesAppend([s[0]], s[1..]);
    assert s == [s[0]] + s[1..];
    DenotesZeros([s[0]]);
    DenotesBound(s[1..]);
  }
}
