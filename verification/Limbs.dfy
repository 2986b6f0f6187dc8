/** Little-endian sequences of 32-bit bigits and the number they denote. */
module Limbs {
  import opened Arith

  const BASE: nat := 0x1_0000_0000

  type bigit = x: int | 0 <= x < BASE

  /** x moved up by k bigits, that is x * 2^(32 * k). */
  ghost function Up(x: int, k: nat): int {
    if k == 0 then x else BASE * Up(x, k - 1)
  }

  /** The number a bigit sequence denotes, least significant bigit first. */
  ghost function Val(s: seq<bigit>): nat {
    if |s| == 0 then 0 else s[0] + BASE * Val(s[1..])
  }

  /** The number denoted by a bigit sequence whose lowest bigit has index e. */
  ghost function NumVal(s: seq<bigit>, e: nat): int { Up(Val(s), e) }

  /** At least one bigit, and no leading zero unless the number is a single zero. */
  predicate Normalized(s: seq<bigit>) {
    |s| >= 1 && (|s| > 1 ==> s[|s| - 1] != 0)
  }

  predicate AllZero(s: seq<bigit>) { forall k :: 0 <= k < |s| ==> s[k] == 0 }

  // ---- Up is linear and monotone ----

  lemma {:induction false} UpAdd(x: int, y: int, k: nat)
    ensures Up(x + y, k) == Up(x, k) + Up(y, k)
  {
    if k > 0 { UpAdd(x, y, k - 1); }
  }

  lemma {:induction false} UpSub(x: int, y: int, k: nat)
    ensures Up(x - y, k) == Up(x, k) - Up(y, k)
  {
    if k > 0 { UpSub(x, y, k - 1); }
  }

  lemma {:induction false} UpScale(x: int, v: int, k: nat)
    ensures Up(x * v, k) == Up(x, k) * v
  {
    if k > 0 {
      UpScale(x, v, k - 1);
      MulAssoc(BASE, Up(x, k - 1), v);
    }
  }

  lemma {:induction false} UpUp(x: int, j: nat, k: nat)
    ensures Up(Up(x, j), k) == Up(x, j + k)
  {
    if k > 0 { UpUp(x, j, k - 1); }
  }

  lemma {:induction false} UpJoin(low: int, high: int, k: nat)
    ensures Up(low + BASE * high, k) == Up(low, k) + Up(high, k + 1)
  {
    if k > 0 { UpJoin(low, high, k - 1); }
  }

  lemma {:induction false} UpStrict(x: int, y: int, k: nat)
    requires x < y
    ensures Up(x, k) < Up(y, k)
  {
    if k > 0 { UpStrict(x, y, k - 1); }
  }

  lemma {:induction false} UpZero(k: nat)
    ensures Up(0, k) == 0
  {
    if k > 0 { UpZero(k - 1); }
  }

  lemma UpMonotone(x: int, y: int, k: nat)
    requires x <= y
    ensures Up(x, k) <= Up(y, k)
  {
    if x < y { UpStrict(x, y, k); }
  }

  lemma UpReflects(x: int, y: int, k: nat)
    ensures Up(x, k) < Up(y, k) <==> x < y
    ensures Up(x, k) == Up(y, k) <==> x == y
  {
    if x < y { UpStrict(x, y, k); }
    if y < x { UpStrict(y, x, k); }
  }

  lemma {:induction false} UpOneMonotone(j: nat, k: nat)
    requires j <= k
    ensures 1 <= Up(1, j) <= Up(1, k)
  {
    if j > 0 {
      UpOneMonotone(j - 1, k - 1);
    } else if k > 0 {
      UpOneMonotone(0, k - 1);
    }
  }

  /** Thirty-two binary places are one bigit. */
  lemma {:induction false} UpIsPow2(x: int, k: nat)
    ensures Up(x, k) == x * Pow(2, 32 * k)
  {
    if k > 0 {
      UpIsPow2(x, k - 1);
      PowAdd(2, 32, 32 * (k - 1));
      Pow2Word();
      assert BASE * (x * Pow(2, 32 * (k - 1))) == x * (BASE * Pow(2, 32 * (k - 1)));
    }
  }

  lemma Pow2Word()
    ensures Pow(2, 32) == BASE
  {
    assert Pow(2, 4) == 16;
    PowAdd(2, 4, 4);
    PowAdd(2, 8, 8);
    PowAdd(2, 16, 16);
  }

  // ---- Cutting a sequence ----

  lemma {:induction false} ValSplit(s: seq<bigit>, i: nat)
    requires i <= |s|
    ensures Val(s) == Val(s[..i]) + Up(Val(s[i..]), i)
  {
    if i == 0 {
      assert s[0..] == s;
    } else {
      ValSplit(s[1..], i - 1);
      assert s[1..][..i - 1] == s[..i][1..];
      assert s[1..][i - 1..] == s[i..];
    }
  }

  lemma ValPush(s: seq<bigit>, x: bigit)
    ensures Val(s + [x]) == Val(s) + Up(x, |s|)
  {
    var t := s + [x];
    ValSplit(t, |s|);
    assert t[..|s|] == s && t[|s|..] == [x];
  }

  lemma ValNext(s: seq<bigit>, i: nat)
    requires i < |s|
    ensures Val(s[..i + 1]) == Val(s[..i]) + Up(s[i], i)
  {
    ValPush(s[..i], s[i]);
    assert s[..i + 1] == s[..i] + [s[i]];
  }

  lemma {:induction false} ValBound(s: seq<bigit>)
    ensures Val(s) < Up(1, |s|)
  {
    if |s| > 0 { ValBound(s[1..]); }
  }

  /** A number with a non-zero top bigit is at least its top weight. */
  lemma {:induction false} ValTop(s: seq<bigit>)
    requires |s| >= 1 && s[|s| - 1] != 0
    ensures Val(s) >= Up(1, |s| - 1)
  {
    if |s| > 1 { ValTop(s[1..]); }
  }

  lemma TopNonzero(s: seq<bigit>)
    requires |s| >= 1 && Val(s) >= Up(1, |s| - 1)
    ensures s[|s| - 1] != 0
  {
    var n := |s| - 1;
    ValNext(s, n);
    assert s[..n + 1] == s;
    ValBound(s[..n]);
    UpZero(n);
  }

  lemma {:induction false} ValZero(s: seq<bigit>)
    ensures Val(s) == 0 <==> AllZero(s)
  {
    if |s| > 0 {
      ValZero(s[1..]);
      if AllZero(s[1..]) && s[0] == 0 {
        assert forall k :: 0 < k < |s| ==> s[k] == s[1..][k - 1];
      }
    }
  }

  /** In normal form the top bigit is zero only for the number zero. */
  lemma NormalizedZero(s: seq<bigit>)
    requires Normalized(s)
    ensures Val(s) == 0 <==> s == [0]
    ensures Val(s) != 0 <==> s[|s| - 1] != 0
  {
    ValZero(s);
    if |s| == 1 { assert s == [s[0]]; }
  }

  lemma NumValWhole(s: seq<bigit>)
    ensures NumVal(s, 0) == Val(s)
  {}

  lemma NumValZero(s: seq<bigit>, e: nat)
    ensures NumVal(s, e) >= 0
    ensures NumVal(s, e) == 0 <==> AllZero(s)
  {
    ValZero(s);
    UpZero(e);
    UpReflects(0, Val(s), e);
  }

  lemma NumValBounds(s: seq<bigit>, e: nat)
    requires |s| >= 1
    ensures NumVal(s, e) < Up(1, |s| + e)
    ensures s[|s| - 1] != 0 ==> NumVal(s, e) >= Up(1, |s| - 1 + e)
  {
    ValBound(s);
    UpStrict(Val(s), Up(1, |s|), e);
    UpUp(1, |s|, e);
    if s[|s| - 1] != 0 {
      ValTop(s);
      UpMonotone(Up(1, |s| - 1), Val(s), e);
      UpUp(1, |s| - 1, e);
    }
  }

  /** Prepending zero bigits is moving up. */
  lemma ValPad(zeros: seq<bigit>, s: seq<bigit>)
    requires AllZero(zeros)
    ensures Val(zeros + s) == Up(Val(s), |zeros|)
  {
    var t := zeros + s;
    ValSplit(t, |zeros|);
    assert t[..|zeros|] == zeros && t[|zeros|..] == s;
    ValZero(zeros);
  }

  /** Dropping leading zero bigits keeps the number. */
  lemma ValDropTop(s: seq<bigit>, i: nat)
    requires i <= |s| && AllZero(s[i..])
    ensures Val(s[..i]) == Val(s)
  {
    ValSplit(s, i);
    ValZero(s[i..]);
    UpZero(i);
  }
}
