/** What one step of each bigint loop does to the number it works on. */
module BigintLemmas {
  import opened Arith
  import opened Limbs

  function Sign(x: int): (s: int) {
    if x < 0 then -1 else if x == 0 then 0 else 1
  }

  // ---- Scaling: one bigit of a multiplication or a shift ----

  /** The loop invariant: bigits below i hold the scaled number, short of the carry into bigit i. */
  ghost predicate ScaledTo(now: seq<bigit>, i: nat, carry: int, before: seq<bigit>, v: nat) {
    && i <= |now| == |before|
    && now[i..] == before[i..]
    && Val(now[..i]) + Up(carry, i) == Times(Val(before[..i]), v)
  }

  lemma ScaledStart(s: seq<bigit>, v: nat)
    ensures ScaledTo(s, 0, 0, s, v)
  {
    TimesIsMul(Val(s[..0]), v);
  }

  lemma ScaledStep(now: seq<bigit>, i: nat, c: int, before: seq<bigit>, v: nat, r: bigit, c': int)
    requires ScaledTo(now, i, c, before, v) && i < |now|
    requires r + BASE * c' == before[i] * v + c
    ensures ScaledTo(now[i := r], i + 1, c', before, v)
  {
    hide Val, Up, Times;
    var next := now[i := r];
    assert next[..i] == now[..i];
    assert forall k :: i + 1 <= k < |now| ==> now[k] == now[i..][k - i] && before[k] == before[i..][k - i];
    assert next[i + 1..] == before[i + 1..];
    ValNext(next, i);
    ValNext(before, i);
    ScaleWeights(Val(now[..i]), Val(before[..i]), i, c, v, before[i], r, c');
  }

  lemma ScaleWeights(done: int, orig: int, i: nat, c: int, v: nat, b: int, r: int, c': int)
    requires done + Up(c, i) == Times(orig, v)
    requires r + BASE * c' == b * v + c
    ensures (done + Up(r, i)) + Up(c', i + 1) == Times(orig + Up(b, i), v)
  {
    TimesIsMul(orig, v);
    TimesIsMul(orig + Up(b, i), v);
    UpJoin(r, c', i);
    UpAdd(b * v, c, i);
    UpScale(b, v, i);
    MulDistrib(orig, Up(b, i), v);
  }

  /** The loop done and no carry left: normal form is kept. */
  lemma ScaledDone(now: seq<bigit>, carry: nat, before: seq<bigit>, v: nat)
    requires ScaledTo(now, |now|, carry, before, v) && Normalized(before) && v > 0
    ensures carry == 0 ==> Val(now) == Times(Val(before), v) && Normalized(now)
    ensures 0 < carry < BASE ==>
              Val(now + [carry]) == Times(Val(before), v) && Normalized(now + [carry])
  {
    hide Val, Up, Times;
    assert now[..|now|] == now && before[..|now|] == before;
    TimesIsMul(Val(before), v);
    UpZero(|now|);
    if carry == 0 {
      MulGrows(v, Val(before));
      KeepsNormal(before, now);
    } else if carry < BASE {
      ValPush(now, carry);
    }
  }

  lemma NumValScale(before: seq<bigit>, after: seq<bigit>, e: nat, v: nat)
    requires Val(after) == Times(Val(before), v)
    ensures NumVal(after, e) == NumVal(before, e) * v
  {
    TimesIsMul(Val(before), v);
    UpScale(Val(before), v, e);
  }

  /** Shifting a bigit left: the part pushed out and the part kept. */
  lemma ShiftBigit(b: bigit, p: nat, q: nat, carry: nat)
    requires p > 0 && q > 0 && p * q == BASE && carry < p
    ensures 0 <= b / q < p
    ensures (b * p) % BASE + carry < BASE
    ensures (b * p) % BASE + carry + BASE * (b / q) == b * p + carry
  {
    var c, m := b / q, b % q;
    assert b == q * c + m;
    assert b * p == c * BASE + m * p by {
      MulDistrib(q * c, m, p);
      assert (q * c) * p == c * (p * q);
    }
    MulMonotone(m, q - 1, p);
    MulDistribSub(q, 1, p);
    DivModUnique(b * p, BASE, c, m * p);
    if c >= p {
      MulMonotone(p, c, q);
    }
  }

  /** A 32 by 32 bit product. */
  lemma LimbProduct(a: bigit, b: bigit)
    ensures 0 <= a * b <= (BASE - 1) * (BASE - 1)
  {
    MulMonotone(0, a, b);
    MulMonotone(a, BASE - 1, b);
    MulMonotone(b, BASE - 1, BASE - 1);
  }

  lemma KeepsNormal(before: seq<bigit>, after: seq<bigit>)
    requires Normalized(before) && |after| == |before|
    requires Val(after) >= Val(before)
    ensures Normalized(after)
  {
    if |before| > 1 {
      ValTop(before);
      TopNonzero(after);
    }
  }

  lemma NoWrap(x: int)
    requires 0 <= x < BASE * BASE
    ensures x % (BASE * BASE) == x
  {}

  /** The 64-bit expression of the narrow multiplication. */
  lemma NarrowStep(b: bigit, v: bigit, carry: bigit)
    ensures 0 <= b * v + carry < BASE * BASE
  {
    LimbProduct(b, v);
  }

  /** Pushing the low bigit of a carry. */
  lemma CarrySplit(s: seq<bigit>, carry: nat, low: bigit, high: nat)
    requires carry == low + BASE * high
    ensures Val(s + [low]) + Up(high, |s| + 1) == Val(s) + Up(carry, |s|)
  {
    ValPush(s, low);
    UpJoin(low, high, |s|);
  }

  lemma ShiftParts(s: nat)
    requires 0 < s < 32
    ensures Pow(2, s) * Pow(2, 32 - s) == BASE
    ensures 0 < Pow(2, s) < BASE && 0 < Pow(2, 32 - s)
  {
    PowPositive(2, s);
    PowPositive(2, 32 - s);
    PowAdd(2, s, 32 - s);
    Pow2Word();
    PowStrict(2, s, 32);
  }

  lemma WordValue(low: bigit, high: bigit)
    ensures Val([low, high]) == low + BASE * high
    ensures Val([low]) == low
  {
    assert [high][1..] == [] && Val([high]) == high;
    assert [low][1..] == [];
    assert [low, high][1..] == [high];
  }

  /** The two 64-bit expressions of the wide multiplication never wrap, and together are b * value + carry. */
  lemma WideStep(b: bigit, value: nat, carry: nat, result: nat, next: nat)
    requires value < BASE * BASE && carry < BASE * BASE
    requires result == b * (value % BASE) + carry % BASE
    requires next == b * (value / BASE) + result / BASE + carry / BASE
    ensures result < BASE * BASE && next < BASE * BASE
    ensures result % BASE + BASE * next == b * value + carry
  {
    var lower, upper := value % BASE, value / BASE;
    LimbProduct(b, lower);
    LimbProduct(b, upper);
    assert b * value == b * lower + BASE * (b * upper) by {
      assert value == lower + BASE * upper;
    }
  }

  /** A shift by whole bigits goes to the exponent, the rest to the bigits. */
  lemma ShiftValue(x: int, e: nat, shift: nat)
    ensures Up(Times(x, Pow(2, shift % 32)), e + shift / 32) == Up(x, e) * Pow(2, shift)
  {
    TimesIsMul(x, Pow(2, shift % 32));
    var s, k := shift % 32, shift / 32;
    PowAdd(2, s, 32 * k);
    UpScale(x, Pow(2, s), e + k);
    UpUp(x, e, k);
    UpIsPow2(Up(x, e), k);
    assert Up(x, e + k) * Pow(2, s) == (Up(x, e) * Pow(2, 32 * k)) * Pow(2, s);
    MulAssoc(Up(x, e), Pow(2, 32 * k), Pow(2, s));
    assert Pow(2, 32 * k) * Pow(2, s) == Pow(2, s) * Pow(2, 32 * k);
  }

  // ---- Comparison ----

  /** The value cut at index i: below, at and above. */
  lemma NumValAt(s: seq<bigit>, e: nat, i: nat)
    requires i < |s|
    ensures NumVal(s, e) == NumVal(s[..i], e) + Up(s[i], i + e) + Up(Val(s[i + 1..]), i + 1 + e)
    ensures NumVal(s[..i], e) < Up(1, i + e)
  {
    ValSplit(s, i + 1);
    ValNext(s, i);
    UpAdd(Val(s[..i + 1]), Up(Val(s[i + 1..]), i + 1), e);
    UpAdd(Val(s[..i]), Up(s[i], i), e);
    UpUp(s[i], i, e);
    UpUp(Val(s[i + 1..]), i + 1, e);
    ValBound(s[..i]);
    UpStrict(Val(s[..i]), Up(1, i), e);
    UpUp(1, i, e);
  }

  /** The first differing bigit from the top decides. */
  lemma FirstDifferenceDecides(l: seq<bigit>, el: nat, i: nat, r: seq<bigit>, er: nat, j: nat)
    requires i < |l| && j < |r| && i + el == j + er
    requires l[i + 1..] == r[j + 1..] && l[i] > r[j]
    ensures NumVal(l, el) > NumVal(r, er)
  {
    NumValAt(l, el, i);
    NumValAt(r, er, j);
    NumValZero(l[..i], el);
    UpAdd(r[j], 1, i + el);
    UpMonotone(r[j] + 1, l[i], i + el);
  }

  /** When every bigit of the shorter operand matches, the extra low bigits are the difference. */
  lemma CommonPrefix(l: seq<bigit>, el: nat, r: seq<bigit>, er: nat)
    requires |l| >= |r| && |l| + el == |r| + er && l[|l| - |r|..] == r
    ensures NumVal(l, el) == NumVal(r, er) + NumVal(l[..|l| - |r|], el)
  {
    var d := |l| - |r|;
    ValSplit(l, d);
    UpAdd(Val(l[..d]), Up(Val(r), d), el);
    UpUp(Val(r), d, el);
  }

  /** What a caller can check before trusting compare: no zero operand whose exponent outranks the
      other operand, and no operand that merely pads the other with zero low bigits. */
  predicate Comparable(l: seq<bigit>, el: nat, r: seq<bigit>, er: nat) {
    && (|l| + el > |r| + er ==> l != [0])
    && (|l| + el < |r| + er ==> r != [0])
    && (|l| + el == |r| + er ==> !PadsWithZeros(l, r) && !PadsWithZeros(r, l))
  }

  predicate PadsWithZeros(long: seq<bigit>, short: seq<bigit>) {
    |long| > |short| && long[|long| - |short|..] == short && AllZero(long[..|long| - |short|])
  }

  /** The three-way result the code computes, said about values. */
  ghost predicate CompareResult(c: int, l: seq<bigit>, el: nat, r: seq<bigit>, er: nat) {
    if |l| + el != |r| + er then
      c == Sign((|l| + el) - (|r| + er))
    else if NumVal(l, el) == NumVal(r, er) then
      c == Sign(|l| - |r|)
    else
      c == Sign(NumVal(l, el) - NumVal(r, er))
  }

  /** The bigits above i and those above j are the same. */
  ghost predicate SameAbove(l: seq<bigit>, i: int, r: seq<bigit>, j: int) {
    -1 <= i < |l| && -1 <= j < |r| && l[i + 1..] == r[j + 1..]
  }

  lemma SameAtTop(l: seq<bigit>, r: seq<bigit>)
    ensures SameAbove(l, |l| - 1, r, |r| - 1)
  {}

  lemma SameStep(l: seq<bigit>, i: nat, r: seq<bigit>, j: nat)
    requires SameAbove(l, i, r, j) && l[i] == r[j]
    ensures SameAbove(l, i - 1, r, j - 1)
  {
    assert l[i..] == [l[i]] + l[i + 1..] && r[j..] == [r[j]] + r[j + 1..];
  }

  lemma CountsDiffer(l: seq<bigit>, el: nat, r: seq<bigit>, er: nat)
    requires |l| + el != |r| + er
    ensures CompareResult(if |l| + el > |r| + er then 1 else -1, l, el, r, er)
  {}

  lemma FirstDifference(l: seq<bigit>, el: nat, i: nat, r: seq<bigit>, er: nat, j: nat)
    requires i < |l| && j < |r| && i + el == j + er && |l| + el == |r| + er
    requires SameAbove(l, i, r, j) && l[i] != r[j]
    ensures CompareResult(if l[i] > r[j] then 1 else -1, l, el, r, er)
  {
    if l[i] > r[j] {
      FirstDifferenceDecides(l, el, i, r, er, j);
    } else {
      FirstDifferenceDecides(r, er, j, l, el, i);
    }
  }

  /** The loop has run out of the shorter operand. */
  lemma AllCommon(l: seq<bigit>, el: nat, i: int, r: seq<bigit>, er: nat, j: int)
    requires |l| + el == |r| + er && i - j == |l| - |r| && i == (if i >= j then i - j else 0) - 1
    requires SameAbove(l, i, r, j)
    ensures CompareResult(if i != j then if i > j then 1 else -1 else 0, l, el, r, er)
  {
    assert l[0..] == l && r[0..] == r;
    if |l| >= |r| {
      CommonPrefix(l, el, r, er);
      NumValZero(l[..|l| - |r|], el);
    } else {
      CommonPrefix(r, er, l, el);
      NumValZero(r[..|r| - |l|], er);
    }
  }

  /** A larger bigit count decides unless the operand is zero. */
  lemma BigitCountDecides(l: seq<bigit>, el: nat, r: seq<bigit>, er: nat)
    requires Normalized(l) && Normalized(r) && |l| + el > |r| + er
    ensures l != [0] ==> NumVal(l, el) > NumVal(r, er)
    ensures l == [0] ==> NumVal(l, el) <= NumVal(r, er)
  {
    NormalizedZero(l);
    NumValBounds(r, er);
    NumValZero(l, el);
    NumValZero(r, er);
    if l != [0] {
      NumValBounds(l, el);
      UpOneMonotone(|r| + er, |l| - 1 + el);
    }
  }

  /** compare gives the sign of the difference exactly on comparable operands. */
  lemma CompareExactIff(c: int, l: seq<bigit>, el: nat, r: seq<bigit>, er: nat)
    requires Normalized(l) && Normalized(r) && CompareResult(c, l, el, r, er)
    ensures c == Sign(NumVal(l, el) - NumVal(r, er)) <==> Comparable(l, el, r, er)
  {
    if |l| + el > |r| + er {
      BigitCountDecides(l, el, r, er);
    } else if |l| + el < |r| + er {
      BigitCountDecides(r, er, l, el);
    } else if |l| > |r| {
      EqualCountTie(l, el, r, er);
    } else if |l| < |r| {
      EqualCountTie(r, er, l, el);
    }
  }

  /** With equal counts, equal values and a longer left operand mean zero padding, and conversely. */
  lemma EqualCountTie(l: seq<bigit>, el: nat, r: seq<bigit>, er: nat)
    requires |l| + el == |r| + er && |l| >= |r|
    ensures NumVal(l, el) == NumVal(r, er) <==> l == r || PadsWithZeros(l, r)
  {
    var d := |l| - |r|;
    if l[d..] == r {
      CommonPrefix(l, el, r, er);
      NumValZero(l[..d], el);
    } else {
      var k := TopDifference(l[d..], r);
      assert l[d + k] == l[d..][k];
      assert l[d + k + 1..] == l[d..][k + 1..];
      if l[d + k] > r[k] {
        FirstDifferenceDecides(l, el, d + k, r, er, k);
      } else {
        FirstDifferenceDecides(r, er, k, l, el, d + k);
      }
    }
  }

  lemma {:induction false} TopDifference(a: seq<bigit>, b: seq<bigit>) returns (k: nat)
    requires |a| == |b| && a != b
    ensures k < |a| && a[k] != b[k] && a[k + 1..] == b[k + 1..]
    decreases |a|
  {
    var n := |a| - 1;
    if a[n] != b[n] {
      k := n;
    } else {
      assert a == a[..n] + [a[n]];
      assert b == b[..n] + [b[n]];
      k := TopDifference(a[..n], b[..n]);
      assert a[k + 1..] == a[..n][k + 1..] + [a[n]];
      assert b[k + 1..] == b[..n][k + 1..] + [b[n]];
    }
  }

  // ---- Aligned subtraction ----

  lemma {:induction false} ValUpdate(s: seq<bigit>, i: nat, x: bigit)
    requires i < |s|
    ensures Val(s[i := x]) == Val(s) + Up(x, i) - Up(s[i], i)
  {
    if i > 0 {
      ValUpdate(s[1..], i - 1, x);
      assert s[i := x][1..] == s[1..][i - 1 := x];
    } else {
      assert s[i := x][1..] == s[1..];
    }
  }

  /** The subtraction reaches the bigit above the subtrahend only if that bigit can lend. */
  ghost predicate BorrowFits(s: seq<bigit>, d: nat, other: seq<bigit>) {
    var i := d + |other|;
    i < |s| && Val(s[d..i]) < Val(other) ==> s[i] != 0
  }

  /** Loop invariant: j bigits of the subtrahend taken off, a borrow owed by bigit d + j. */
  ghost predicate TakenOff(now: seq<bigit>, d: nat, j: nat, borrow: int, before: seq<bigit>, other: seq<bigit>) {
    && j <= |other| && d + |other| <= |now| == |before|
    && now[..d] == before[..d]
    && now[d + j..] == before[d + j..]
    && Val(now) - Up(borrow, d + j) == Val(before) - Up(Val(other[..j]), d)
  }

  lemma TakenOffStart(s: seq<bigit>, d: nat, other: seq<bigit>)
    requires d + |other| <= |s|
    ensures TakenOff(s, d, 0, 0, s, other)
  {
    UpZero(d);
  }

  lemma TakenOffStep(now: seq<bigit>, d: nat, j: nat, borrow: int, before: seq<bigit>, other: seq<bigit>,
                     r: bigit, borrow': int)
    requires TakenOff(now, d, j, borrow, before, other) && j < |other|
    requires r - BASE * borrow' == now[d + j] - other[j] - borrow
    ensures TakenOff(now[d + j := r], d, j + 1, borrow', before, other)
  {
    hide Val, Up, Times;
    var i := d + j;
    var next := now[i := r];
    assert next[..d] == now[..d];
    assert forall k :: i + 1 <= k < |now| ==> now[k] == now[i..][k - i] && before[k] == before[i..][k - i];
    assert next[i + 1..] == before[i + 1..];
    ValUpdate(now, i, r);
    ValNext(other, j);
    UpAdd(Val(other[..j]), Up(other[j], j), d);
    UpUp(other[j], j, d);
    UpJoin(r, -borrow', i);
    var a: int, b: int := now[i], other[j];
    UpSub(a - b, borrow, i);
    UpSub(a, b, i);
    UpSub(0, borrow', i + 1);
    UpZero(i + 1);
  }

  /** A borrow is left over exactly when the window under the subtrahend was smaller than it. */
  lemma LeftoverBorrow(now: seq<bigit>, d: nat, borrow: int, before: seq<bigit>, other: seq<bigit>)
    requires TakenOff(now, d, |other|, borrow, before, other) && 0 <= borrow <= 1
    requires Val(before) >= Up(Val(other), d)
    ensures borrow == 1 <==> Val(before[d..d + |other|]) < Val(other)
    ensures borrow == 1 ==> d + |other| < |now|
  {
    hide Val, Up, Times;
    var n := |other|;
    assert other[..n] == other;
    Window(now, d, n);
    Window(before, d, n);
    var a, b := Val(now[d..d + n]), Val(before[d..d + n]);
    UpUp(borrow, n, d);
    UpSub(a, Up(borrow, n), d);
    UpSub(b, Val(other), d);
    UpReflects(a - Up(borrow, n), b - Val(other), d);
    ValBound(now[d..d + n]);
    UpZero(n);
    if borrow == 1 && d + n == |now| {
      ValBound(now);
    }
  }

  lemma Window(s: seq<bigit>, d: nat, n: nat)
    requires d + n <= |s|
    ensures Val(s) == Val(s[..d]) + Up(Val(s[d..d + n]), d) + Up(Val(s[d + n..]), d + n)
  {
    ValSplit(s, d + n);
    ValSplit(s[..d + n], d);
    assert s[..d + n][..d] == s[..d];
    assert s[..d + n][d..] == s[d..d + n];
  }

  /** Where the borrow loop ends, and when that is the true difference. */
  lemma BorrowLoopResult(mid: seq<bigit>, i: nat, last: seq<bigit>)
    requires i < |mid|
    requires last == mid[i := if mid[i] >= 1 then mid[i] - 1 else BASE - 2]
    ensures Val(last) == Val(mid) - Up(1, i) <==> mid[i] != 0
  {
    hide Val, Up;
    var b := mid[i];
    var x := if b >= 1 then b - 1 else BASE - 2;
    ValUpdate(mid, i, x);
    LentDifference(b, x, i);
  }

  lemma LentDifference(b: bigit, x: bigit, i: nat)
    ensures Up(x, i) - Up(b, i) == -Up(1, i) <==> x == b - 1
  {
    hide Up;
    UpSub(x, b, i);
    UpSub(0, 1, i);
    UpZero(i);
    UpReflects(x - b, -1, i);
  }

  /** Where the borrow loop ends: one iteration if the bigit above can lend, else two. */
  function Lent(mid: seq<bigit>, i: nat, borrow: int): seq<bigit>
    requires borrow == 1 ==> i < |mid|
  {
    if borrow == 1 then mid[i := if mid[i] >= 1 then mid[i] - 1 else BASE - 2] else mid
  }

  /** The finished subtraction: exact exactly when the borrow fits. */
  lemma SubtractionResult(mid: seq<bigit>, d: nat, borrow: int, before: seq<bigit>, other: seq<bigit>)
    requires TakenOff(mid, d, |other|, borrow, before, other) && 0 <= borrow <= 1
    requires borrow == 1 ==> d + |other| < |mid|
    requires borrow == 1 <==> Val(before[d..d + |other|]) < Val(other)
    ensures Val(Lent(mid, d + |other|, borrow)) == Val(before) - Up(Val(other), d) <==> BorrowFits(before, d, other)
  {
    hide Val, Up, Times;
    var i := d + |other|;
    assert other[..|other|] == other;
    if borrow == 1 {
      BorrowLoopResult(mid, i, Lent(mid, i, borrow));
      assert mid[i] == mid[i..][0] && before[i] == before[i..][0];
    } else {
      UpZero(i);
    }
  }

  /** At most one bigit above the subtrahend: the borrow always fits. */
  lemma OneExtraBigitFits(s: seq<bigit>, d: nat, other: seq<bigit>)
    requires Normalized(s) && |other| >= 1 && |s| <= d + |other| + 1
    ensures BorrowFits(s, d, other)
  {}

  /** Two extra bigits break it: 2^64 - 1 comes out as another number. */
  lemma BorrowNeedsFit()
    ensures !BorrowFits([0, 0, 1], 0, [1])
    ensures Normalized([0, 0, 1])
  {
    var s: seq<bigit> := [0, 0, 1];
    assert s[0..1] == [0];
    assert [0][1..] == [] && [1][1..] == [];
    assert Val([0]) == 0 && Val([1]) == 1;
  }

  /** Ten times the divisor leaves at most one extra bigit. */
  lemma TenTimesBound(l: seq<bigit>, el: nat, r: seq<bigit>, er: nat)
    requires Normalized(l) && Normalized(r)
    requires 0 < NumVal(l, el) < 10 * NumVal(r, er)
    ensures |l| + el <= |r| + er + 1
  {
    NumValZero(l, el);
    NormalizedZero(l);
    ValZero(l);
    NumValBounds(l, el);
    NumValBounds(r, er);
    if |l| - 1 + el >= |r| + er + 1 {
      UpOneMonotone(|r| + er + 1, |l| - 1 + el);
      assert Up(1, |r| + er + 1) == BASE * Up(1, |r| + er);
    }
  }

  lemma AlignedDifference(s: seq<bigit>, e: nat, other: seq<bigit>, eo: nat)
    requires eo >= e
    ensures NumVal(other, eo) == Up(Up(Val(other), eo - e), e)
    ensures NumVal(s, e) >= NumVal(other, eo) <==> Val(s) >= Up(Val(other), eo - e)
  {
    UpUp(Val(other), eo - e, e);
    UpReflects(Val(s), Up(Val(other), eo - e), e);
  }

  lemma DifferenceOfValues(a: int, b: int, x: int, e: nat, d: nat)
    ensures Up(a, e) == Up(b, e) - Up(x, e + d) <==> a == b - Up(x, d)
  {
    UpUp(x, d, e);
    UpDifference(a, b, Up(x, d), e);
  }

  lemma UpDifference(a: int, b: int, x: int, e: nat)
    ensures Up(a, e) == Up(b, e) - Up(x, e) <==> a == b - x
  {
    UpSub(b, x, e);
    UpReflects(a, b - x, e);
  }

  /** Zero bigits below and a smaller exponent denote the same number. */
  lemma AlignedValue(before: seq<bigit>, e: nat, after: seq<bigit>, diff: nat)
    requires |after| == |before| + diff && diff <= e
    requires forall k :: 0 <= k < diff ==> after[k] == 0
    requires forall k :: 0 <= k < |before| ==> after[k + diff] == before[k]
    ensures NumVal(after, e - diff) == NumVal(before, e)
    ensures after[diff..] == before && AllZero(after[..diff])
  {
    assert forall k :: 0 <= k < |before| ==> after[diff..][k] == after[k + diff];
    assert after[diff..] == before;
    assert after == after[..diff] + before;
    ValPad(after[..diff], before);
    UpUp(Val(before), diff, e - diff);
  }

  // ---- Division by repeated subtraction ----

  /** What the division's test of compare means. */
  lemma AtLeast(c: int, l: seq<bigit>, el: nat, r: seq<bigit>, er: nat)
    requires Normalized(l) && Normalized(r) && CompareResult(c, l, el, r, er)
    requires NumVal(r, er) > 0
    requires NumVal(l, el) == 0 ==> |l| + el <= |r| + er
    ensures c >= 0 <==> NumVal(l, el) >= NumVal(r, er) && !(|l| + el == |r| + er && PadsWithZeros(r, l))
    ensures |l| + el == |r| + er && PadsWithZeros(r, l) ==> NumVal(l, el) == NumVal(r, er)
    ensures NumVal(l, el) >= NumVal(r, er) ==> |l| + el >= |r| + er
  {
    NumValZero(l, el);
    NumValZero(r, er);
    if |l| + el > |r| + er {
      BigitCountDecides(l, el, r, er);
    } else if |l| + el < |r| + er {
      BigitCountDecides(r, er, l, el);
    } else if |l| <= |r| {
      EqualCountTie(r, er, l, el);
    }
  }

  lemma AlignedNormal(before: seq<bigit>, after: seq<bigit>, e: nat)
    requires Normalized(before) && NumVal(before, e) > 0
    requires |after| >= |before| && after[|after| - |before|..] == before
    ensures Normalized(after)
  {
    NumValZero(before, e);
    ValZero(before);
    NormalizedZero(before);
    assert after[|after| - 1] == after[|after| - |before|..][|before| - 1];
  }

  /** With at most one bigit more than the divisor and not below it, the subtraction is exact. */
  lemma ReadyToSubtract(l: seq<bigit>, el: nat, r: seq<bigit>, er: nat)
    requires Normalized(l) && Normalized(r) && el <= er
    requires 0 < NumVal(r, er) <= NumVal(l, el) && |l| + el <= |r| + er + 1
    ensures |l| + el >= |r| + er
    ensures BorrowFits(l, er - el, r)
  {
    NumValZero(r, er);
    if |l| + el < |r| + er { BigitCountDecides(r, er, l, el); }
    OneExtraBigitFits(l, er - el, r);
  }

  lemma QuotientSmall(q: nat, d: int, v: int)
    requires d > 0 && 0 <= Times(d, q) <= v < 10 * d
    ensures q < 10 && q * d == Times(d, q)
  {
    TimesIsMul(d, q);
    assert d * q == q * d;
    MulCancelLess(q, 10, d);
  }

  lemma ZeroCount(l: seq<bigit>, el: nat, r: seq<bigit>, er: nat)
    requires Normalized(l) && Normalized(r) && el <= er
    ensures NumVal(l, el) == 0 ==> |l| + el <= |r| + er
  {
    NumValZero(l, el);
    ValZero(l);
    NormalizedZero(l);
  }

  // ---- Three-way comparison of a sum ----

  function GetBigit(s: seq<bigit>, e: nat, i: nat): bigit {
    if e <= i < |s| + e then s[i - e] else 0
  }

  /** The number cut off below index i. */
  ghost function Part(s: seq<bigit>, e: nat, i: nat): nat {
    if i <= e then PartWhole(s, e - i)
    else if i - e < |s| then Val(s[i - e..]) else 0
  }

  ghost function PartWhole(s: seq<bigit>, k: nat): nat {
    NumValZero(s, k);
    NumVal(s, k)
  }

  lemma PartStep(s: seq<bigit>, e: nat, i: nat)
    ensures Part(s, e, i) == GetBigit(s, e, i) + BASE * Part(s, e, i + 1)
  {
    if i >= e && i - e < |s| {
      var k := i - e;
      assert s[k..][1..] == s[k + 1..];
      assert Val(s[k..]) == s[k] + BASE * Val(s[k + 1..]);
      if k == 0 {
        assert s[0..] == s;
        assert Part(s, e, i) == NumVal(s, 0) == Val(s);
      }
    } else if i == e {
      assert s == [];
      assert Part(s, e, i) == NumVal(s, 0) == Val(s);
    }
  }

  /** What lies below the cut is less than one unit of the cut, and nothing below the exponent. */
  lemma {:induction false} PartLow(s: seq<bigit>, e: nat, i: nat)
    ensures 0 <= NumVal(s, e) - Up(Part(s, e, i), i) < Up(1, i)
    ensures i <= e ==> NumVal(s, e) == Up(Part(s, e, i), i)
  {
    UpOneMonotone(0, i);
    if i <= e {
      UpUp(Val(s), e - i, i);
    } else if i - e < |s| {
      var k := i - e;
      ValSplit(s, k);
      UpAdd(Val(s[..k]), Up(Val(s[k..]), k), e);
      UpUp(Val(s[k..]), k, e);
      ValBound(s[..k]);
      UpStrict(Val(s[..k]), Up(1, k), e);
      UpUp(1, k, e);
      UpZero(e);
      UpMonotone(0, Val(s[..k]), e);
    } else {
      UpZero(i);
      NumValZero(s, e);
      ValBound(s);
      UpStrict(Val(s), Up(1, |s|), e);
      UpUp(1, |s|, e);
      UpOneMonotone(|s| + e, i);
    }
  }

  /** Third operand less the first two, all cut off below index i. */
  ghost function Gap(a: seq<bigit>, ea: nat, b: seq<bigit>, eb: nat, c: seq<bigit>, ec: nat, i: nat): int {
    Part(c, ec, i) - Part(a, ea, i) - Part(b, eb, i)
  }

  /** One more bigit of the gap; it decides the comparison unless it is 0 or 1. */
  lemma GapStep(a: seq<bigit>, ea: nat, b: seq<bigit>, eb: nat, c: seq<bigit>, ec: nat, i: nat, g: int)
    requires g == Gap(a, ea, b, eb, c, ec, i)
    ensures g == GetBigit(c, ec, i) - GetBigit(a, ea, i) - GetBigit(b, eb, i) + BASE * Gap(a, ea, b, eb, c, ec, i + 1)
    ensures g < 0 ==> NumVal(a, ea) + NumVal(b, eb) > NumVal(c, ec)
    ensures g > 1 ==> NumVal(a, ea) + NumVal(b, eb) < NumVal(c, ec)
  {
    hide Val, Up, Part;
    PartStep(a, ea, i);
    PartStep(b, eb, i);
    PartStep(c, ec, i);
    GapDecides(a, ea, b, eb, c, ec, i);
  }

  lemma GapDecides(a: seq<bigit>, ea: nat, b: seq<bigit>, eb: nat, c: seq<bigit>, ec: nat, i: nat)
    ensures var g := Gap(a, ea, b, eb, c, ec, i);
            var sum := NumVal(a, ea) + NumVal(b, eb);
            && (g < 0 ==> sum > NumVal(c, ec))
            && (g > 1 ==> sum < NumVal(c, ec))
            && (i <= ea && i <= eb && i <= ec ==> Sign(sum - NumVal(c, ec)) == -Sign(g))
  {
    hide Val, Up, Part;
    var pa: int, pb: int, pc: int := Part(a, ea, i), Part(b, eb, i), Part(c, ec, i);
    PartLow(a, ea, i);
    PartLow(b, eb, i);
    PartLow(c, ec, i);
    UpAdd(pa, pb, i);
    UpSub(pc, pa + pb, i);
    UpZero(i);
    UpReflects(pc - (pa + pb), 0, i);
    if pc - pa - pb < 0 {
      UpMonotone(pc - (pa + pb), -1, i);
      UpSub(0, 1, i);
    } else if pc - pa - pb > 1 {
      UpMonotone(2, pc - (pa + pb), i);
      UpAdd(1, 1, i);
    }
  }

  /** Above all bigits there is nothing to compare. */
  lemma GapAbove(a: seq<bigit>, ea: nat, b: seq<bigit>, eb: nat, c: seq<bigit>, ec: nat, i: nat)
    requires |a| >= 1 && |b| >= 1 && |c| >= 1
    requires |a| + ea <= i && |b| + eb <= i && |c| + ec <= i
    ensures Gap(a, ea, b, eb, c, ec, i) == 0
  {}

  /** The two exits of add_compare on bigit counts alone. */
  lemma CountsDecide(a: seq<bigit>, ea: nat, b: seq<bigit>, eb: nat, c: seq<bigit>, ec: nat)
    requires Normalized(a) && Normalized(b) && Normalized(c)
    ensures |a| + ea + 1 < |c| + ec && |b| + eb + 1 < |c| + ec && c != [0] ==>
              NumVal(a, ea) + NumVal(b, eb) < NumVal(c, ec)
    ensures |a| + ea > |c| + ec && a != [0] ==> NumVal(a, ea) + NumVal(b, eb) > NumVal(c, ec)
    ensures |b| + eb > |c| + ec && b != [0] ==> NumVal(a, ea) + NumVal(b, eb) > NumVal(c, ec)
  {
    NumValZero(a, ea);
    NumValZero(b, eb);
    if |a| + ea > |c| + ec { BigitCountDecides(a, ea, c, ec); }
    if |b| + eb > |c| + ec { BigitCountDecides(b, eb, c, ec); }
    if |a| + ea + 1 < |c| + ec && |b| + eb + 1 < |c| + ec && c != [0] {
      var top := |c| + ec - 2;
      NormalizedZero(c);
      NumValBounds(a, ea);
      NumValBounds(b, eb);
      NumValBounds(c, ec);
      UpOneMonotone(|a| + ea, top);
      UpOneMonotone(|b| + eb, top);
      assert Up(1, top + 1) == BASE * Up(1, top);
    }
  }

  /** What a caller can check before trusting add_compare: the bigit counts alone never decide for a
      zero operand. */
  predicate AddComparable(a: seq<bigit>, ea: nat, b: seq<bigit>, eb: nat, c: seq<bigit>, ec: nat) {
    var max := if |a| + ea > |b| + eb then |a| + ea else |b| + eb;
    && (max + 1 < |c| + ec ==> c != [0])
    && (max > |c| + ec ==> (a != [0] && |a| + ea > |c| + ec) || (b != [0] && |b| + eb > |c| + ec))
  }

  /** A zero operand alone decides upon its bigit count, yet the other exceeds the third by itself. */
  ghost predicate OtherExceeds(zero: seq<bigit>, ez: nat, b: seq<bigit>, eb: nat, c: seq<bigit>, ec: nat) {
    |zero| + ez > |c| + ec && |b| + eb <= |c| + ec && NumVal(b, eb) > NumVal(c, ec)
  }

  /** When the result of add_compare is the sign: the bigit counts are meaningful, or happen to agree with a
      comparison of the operand that does not outrank the third. */
  ghost predicate AddCompares(a: seq<bigit>, ea: nat, b: seq<bigit>, eb: nat, c: seq<bigit>, ec: nat) {
    || AddComparable(a, ea, b, eb, c, ec)
    || OtherExceeds(a, ea, b, eb, c, ec)
    || OtherExceeds(b, eb, a, ea, c, ec)
  }

  /** The two exits on bigit counts that are not AddComparable, decided by values. */
  lemma ZeroCounts(a: seq<bigit>, ea: nat, b: seq<bigit>, eb: nat, c: seq<bigit>, ec: nat)
    requires Normalized(a) && Normalized(b) && Normalized(c) && !AddComparable(a, ea, b, eb, c, ec)
    ensures var max := if |a| + ea > |b| + eb then |a| + ea else |b| + eb;
            && (max + 1 < |c| + ec || max > |c| + ec)
            && var r := if max + 1 < |c| + ec then -1 else 1;
               (r == Sign(NumVal(a, ea) + NumVal(b, eb) - NumVal(c, ec)) <==> AddCompares(a, ea, b, eb, c, ec))
  {
    hide NumVal, Normalized;
    NumValZero(a, ea);
    NumValZero(b, eb);
    NumValZero(c, ec);
  }

  /** A zero with a large exponent is taken to exceed one. */
  lemma ZeroOutranks()
    ensures Normalized([0]) && Normalized([1])
    ensures !AddCompares([0], 5, [0], 0, [1], 0) && Sign(NumVal([0], 5) + NumVal([0], 0) - NumVal([1], 0)) == -1
    ensures !Comparable([0], 5, [1], 0) && NumVal([0], 5) < NumVal([1], 0)
  {
    assert Up(1, 0) == 1;
    NumValZero([0], 5);
    NumValZero([0], 0);
    NumValZero([1], 0);
  }

  /** Equal numbers judged unequal: 2^32 as two bigits and as one with exponent one. */
  lemma PaddedTie()
    ensures Normalized([0, 1]) && Normalized([1]) && NumVal([0, 1], 0) == NumVal([1], 1)
    ensures !Comparable([0, 1], 0, [1], 1)
    ensures forall c :: CompareResult(c, [0, 1], 0, [1], 1) ==> c == 1
  {
    EqualCountTie([0, 1], 0, [1], 1);
    assert [0, 1][1..] == [1] && [0, 1][..1] == [0];
  }
}
