/** Exact digit generation for a given number of digits, with round half to even. */
module Fallback {
  import opened Arith
  import opened Limbs
  import opened BigintLemmas
  import opened BigintClass
  import opened Digits

  /** The growing character buffer digits are written to. */
  class CharBuffer {
    var data: seq<char>

    constructor ()
      ensures data == []
    {
      data := [];
    }

    method Resize(n: nat)
      modifies this
      ensures |data| == n && forall k :: 0 <= k < n && k < |old(data)| ==> data[k] == old(data)[k]
    {
      data := if n <= |data| then data[..n] else data + seq(n - |data|, _ => '0');
    }
  }

  // ---- Long division, digit by digit ----

  /** i digits have been produced, denoting dv, with rest still to be divided. */
  ghost predicate Produced(i: nat, dv: int, rest: int, num: int, den: int) {
    num * Pow(10, i) == dv * (10 * den) + rest
  }

  /** q is the quotient of num * 10^i by den, r the remainder. */
  ghost predicate Divided(i: nat, q: int, r: int, num: int, den: int) {
    num * Pow(10, i) == q * den + r
  }

  ghost predicate RoundsAt(q: int, i: nat, num: int, den: int) {
    RoundsHalfEven(q, num * Pow(10, i), den)
  }

  /** The rounding step's choice between the quotient and its successor. */
  lemma RoundingChoice(i: nat, dv: int, digit: nat, r: int, result: int, num: int, den: int)
    requires Divided(i, 10 * dv + digit, r, num, den) && 0 <= r < den && result == Sign(r + r - den)
    ensures var up := result > 0 || (result == 0 && digit % 2 != 0);
            RoundsAt(10 * dv + (if up then digit + 1 else digit), i, num, den)
  {
    RoundByRemainder(10 * dv + digit, r, num * Pow(10, i), den);
  }

  lemma ProducedStep(i: nat, dv: int, rest: int, num: int, den: int, q: int, r: int)
    requires Produced(i, dv, rest, num, den) && rest == q * den + r
    ensures Produced(i + 1, 10 * dv + q, 10 * r, num, den)
    ensures Divided(i, 10 * dv + q, r, num, den)
  {
    assert dv * (10 * den) == (10 * dv) * den;
    MulDistrib(10 * dv, q, den);
    assert num * (10 * Pow(10, i)) == 10 * (num * Pow(10, i));
    assert (10 * dv + q) * (10 * den) == 10 * ((10 * dv + q) * den);
  }

  /** As long as no digit but zero has come out, nothing was subtracted. */
  lemma ProducedUntouched(i: nat, num: int, v: int)
    requires v == num * Pow(10, i)
    ensures 10 * v == num * Pow(10, i + 1)
  {
    assert num * (10 * Pow(10, i)) == 10 * (num * Pow(10, i));
  }

  /** compare never mistakes the denominator for a zero-padded numerator. */
  ghost predicate NeverPadded(num: int, numExp: nat, den: seq<bigit>, denExp: nat) {
    || numExp <= denExp
    || (|den| >= 1 && den[0] != 0)
    || (forall k: nat :: num * Pow(10, k) != NumVal(den, denExp))
  }

  lemma NotPadded(num: int, numExp: nat, den: seq<bigit>, denExp: nat, i: nat, bits: seq<bigit>, exp: nat)
    requires NeverPadded(num, numExp, den, denExp)
    requires exp <= denExp || (exp == numExp && NumVal(bits, exp) == num * Pow(10, i))
    requires |bits| + exp == |den| + denExp
    ensures !PadsWithZeros(den, bits)
  {
    if PadsWithZeros(den, bits) {
      EqualCountTie(den, denExp, bits, exp);
    }
  }

  // ---- The digit loop ----

  /** A remainder stays comparable with the denominator, zero included. */
  ghost predicate Sized(numerator: Bigint, denominator: Bigint)
    reads numerator, denominator
  {
    && numerator.Valid() && denominator.Valid() && denominator.Value() > 0
    && 0 <= numerator.Value()
    && (numerator.Value() == 0 ==> numerator.NumBigits() <= denominator.NumBigits())
  }

  /** One digit: the quotient goes out, the remainder stays. */
  method NextDigit(numerator: Bigint, denominator: Bigint, ghost i: nat, ghost dv: int, ghost num: int,
      ghost numExp: nat)
    returns (digit: nat)
    requires numerator != denominator && Sized(numerator, denominator)
    requires numerator.Value() < 10 * denominator.Value()
    requires NeverPadded(num, numExp, denominator.bits, denominator.exp)
    requires Produced(i, dv, numerator.Value(), num, denominator.Value())
    requires numerator.exp <= denominator.exp || (numerator.exp == numExp && numerator.Value() == num * Pow(10, i))
    modifies numerator
    ensures digit < 10 && Sized(numerator, denominator) && numerator.Value() < denominator.Value()
    ensures Divided(i, 10 * dv + digit, numerator.Value(), num, denominator.Value())
    ensures Produced(i + 1, 10 * dv + digit, 10 * numerator.Value(), num, denominator.Value())
    ensures numerator.exp <= denominator.exp || (numerator.exp == numExp && numerator.Value() == num * Pow(10, i))
  {
    hide Val, Up, Pow, Produced, Divided, NeverPadded;
    ghost var v, d := numerator.Value(), denominator.Value();
    if numerator.NumBigits() == denominator.NumBigits() {
      NotPadded(num, numExp, denominator.bits, denominator.exp, i, numerator.bits, numerator.exp);
    }
    if v > 0 { TenTimesBound(numerator.bits, numerator.exp, denominator.bits, denominator.exp); }
    digit := numerator.DivmodAssign(denominator);
    ProducedStep(i, dv, v, num, d, digit, numerator.Value());
  }

  /** Multiplies the remainder by ten for the next digit. */
  method TimesTen(numerator: Bigint, denominator: Bigint)
    requires numerator != denominator && Sized(numerator, denominator) && numerator.Value() < denominator.Value()
    modifies numerator
    ensures Sized(numerator, denominator) && numerator.Value() == 10 * old(numerator.Value())
    ensures numerator.Value() < 10 * denominator.Value() && numerator.exp == old(numerator.exp)
  {
    hide Val, Up;
    ghost var before, e := numerator.bits, numerator.exp;
    numerator.Multiply32(10);
    if numerator.Value() == 0 {
      ZeroBits(before, e);
      ZeroBits(numerator.bits, e);
    }
  }

  lemma ZeroBits(s: seq<bigit>, e: nat)
    requires Normalized(s) && NumVal(s, e) == 0
    ensures s == [0]
  {
    NumValZero(s, e);
    ValZero(s);
    NormalizedZero(s);
  }

  // ---- The given number of digits ----

  /** The digits of num / den * 10^(n-1), or num / den / 10 when n is 0, rounded half to even; when the
      rounding carries out of the first digit the text is one and zeros and the exponent is one more instead. */
  ghost predicate Rounded(s: seq<char>, n: nat, carried: int, num: int, den: int) {
    && AllDigits(s) && (carried == 0 || carried == 1)
    && if n == 0 then
         |s| == 1 && carried == 0 && RoundsHalfEven(Denotes(s), num, 10 * den)
       else
         && |s| == n && RoundsHalfEven(if carried == 1 then 10 * Denotes(s) else Denotes(s), num * Pow(10, n - 1), den)
         && (carried == 1 ==> IsPowerOfTen(s)) && (num >= den ==> s[0] != '0')
  }

  /** What holds before digit i: the digits so far and the rest still to be divided. */
  ghost predicate DigitLoop(i: nat, dv: int, s: seq<char>, numerator: Bigint, denominator: Bigint,
                            num: int, numExp: nat, den: int)
    reads numerator, denominator
  {
    && i <= |s| && AllDigits(s[..i]) && Denotes(s[..i]) == dv
    && Sized(numerator, denominator) && denominator.Value() == den && numerator.Value() < 10 * den
    && NeverPadded(num, numExp, denominator.bits, denominator.exp)
    && Produced(i, dv, numerator.Value(), num, den)
    && (numerator.exp <= denominator.exp || (numerator.exp == numExp && numerator.Value() == num * Pow(10, i)))
  }

  /** Divide, write the digit, scale the remainder. */
  method EmitDigit(numerator: Bigint, denominator: Bigint, buf: CharBuffer, i: nat,
                   ghost dv: int, ghost num: int, ghost numExp: nat, ghost den: int)
    returns (ghost dv': int)
    requires numerator != denominator && i < |buf.data|
    requires DigitLoop(i, dv, buf.data, numerator, denominator, num, numExp, den)
    modifies numerator, buf
    ensures |buf.data| == |old(buf.data)|
    ensures DigitLoop(i + 1, dv', buf.data, numerator, denominator, num, numExp, den)
  {
    hide Val, Up, Pow, Denotes, NeverPadded, Produced;
    var digit := NextDigit(numerator, denominator, i, dv, num, numExp);
    ghost var v, e := numerator.Value(), numerator.exp;
    PutDigit(buf, i, digit, dv);
    dv' := 10 * dv + digit;
    TimesTen(numerator, denominator);
    if e > denominator.exp {
      ProducedUntouched(i, num, v);
    }
  }

  /** The last digit, rounded by comparing twice the remainder with the denominator. */
  method LastDigit(numerator: Bigint, denominator: Bigint, buf: CharBuffer, n: nat,
                   ghost dv: int, ghost num: int, ghost numExp: nat, ghost den: int)
    returns (carried: int)
    requires numerator != denominator && 0 < n == |buf.data|
    requires DigitLoop(n - 1, dv, buf.data, numerator, denominator, num, numExp, den)
    modifies numerator, buf
    ensures Rounded(buf.data, n, carried, num, den)
  {
    hide Val, Up, NumVal, Pow, Denotes, NeverPadded, Produced, Divided, RoundsAt, Rounded, Sign;
    var digit := NextDigit(numerator, denominator, n - 1, dv, num, numExp);
    RemainderComparable(numerator, denominator);
    var result := AddCompare(numerator, numerator, denominator);
    RoundingChoice(n - 1, dv, digit, numerator.Value(), result, num, den);
    carried := 0;
    if result > 0 || (result == 0 && digit % 2 != 0) {
      if digit == 9 {
        carried := PropagateCarry(buf, dv);
        RoundedCarried(buf.data, n, carried, 10 * dv + 10, num, den);
        return;
      }
      digit := digit + 1;
    }
    PutDigit(buf, n - 1, digit, dv);
    assert buf.data[..n] == buf.data;
    RoundedCarried(buf.data, n, 0, 10 * dv + digit, num, den);
  }

  /** No digits asked for: a single 0 or 1, the value rounded one place further up. */
  method NoDigits(numerator: Bigint, denominator: Bigint, buf: CharBuffer)
    requires numerator != denominator && Sized(numerator, denominator)
    requires 0 < numerator.Value() < 10 * denominator.Value()
    modifies denominator, buf
    ensures Rounded(buf.data, 0, 0, old(numerator.Value()), old(denominator.Value()))
  {
    hide Val, Up, RoundsHalfEven;
    ghost var num, den := numerator.Value(), denominator.Value();
    buf.Resize(1);
    denominator.Multiply32(10);
    RemainderComparable(numerator, denominator);
    var c := AddCompare(numerator, numerator, denominator);
    buf.data := buf.data[0 := if c > 0 then '1' else '0'];
    RoundByRemainder(0, num, num, 10 * den);
    SingleDigit(buf.data);
  }

  /** Writes the digits; exp10 comes back as the decimal exponent of the last one. */
  method GenerateDigits(numerator: Bigint, denominator: Bigint, n: nat, exp10: int, buf: CharBuffer)
    returns (exp10': int)
    requires numerator != denominator && Sized(numerator, denominator)
    requires 0 < numerator.Value() < 10 * denominator.Value()
    requires NeverPadded(numerator.Value(), numerator.exp, denominator.bits, denominator.exp)
    modifies numerator, denominator, buf
    ensures Rounded(buf.data, n, exp10' - (exp10 - (n - 1)), old(numerator.Value()), old(denominator.Value()))
  {
    hide Val, Up, Pow, Denotes, NeverPadded, Produced, Rounded;
    ghost var num, den, numExp := numerator.Value(), denominator.Value(), numerator.exp;
    exp10' := exp10 - (n - 1);
    if n == 0 {
      NoDigits(numerator, denominator, buf);
      return;
    }
    buf.Resize(n);
    ProducedStart(num, den);
    DenotesNothing();
    assert buf.data[..0] == [];
    ghost var dv := 0;
    var i := 0;
    while i < n - 1
      invariant 0 <= i <= n - 1 && |buf.data| == n
      invariant DigitLoop(i, dv, buf.data, numerator, denominator, num, numExp, den)
    {
      dv := EmitDigit(numerator, denominator, buf, i, dv, num, numExp, den);
      i := i + 1;
    }
    var carried := LastDigit(numerator, denominator, buf, n, dv, num, numExp, den);
    exp10' := exp10' + carried;
  }

  method PutDigit(buf: CharBuffer, i: nat, digit: nat, ghost dv: int)
    requires i < |buf.data| && digit < 10 && AllDigits(buf.data[..i]) && Denotes(buf.data[..i]) == dv
    modifies buf
    ensures |buf.data| == |old(buf.data)| && AllDigits(buf.data[..i + 1])
    ensures Denotes(buf.data[..i + 1]) == 10 * dv + digit
  {
    hide Denotes;
    var c := ('0' as int + digit) as char;
    buf.data := buf.data[i := c];
    DenotesPush(old(buf.data)[..i], c);
    assert buf.data[..i + 1] == old(buf.data)[..i] + [c];
  }

  /** Nine rounded up: the last digit becomes ten and the carry runs to the front. */
  method PropagateCarry(buf: CharBuffer, ghost dv: int) returns (carried: int)
    requires |buf.data| >= 1
    requires AllDigits(buf.data[..|buf.data| - 1]) && Denotes(buf.data[..|buf.data| - 1]) == dv
    modifies buf
    ensures |buf.data| == |old(buf.data)| && AllDigits(buf.data) && 0 <= carried <= 1
    ensures (if carried == 1 then 10 * Denotes(buf.data) else Denotes(buf.data)) == 10 * dv + 10
    ensures carried == 1 <==> AllNines(old(buf.data)[..|old(buf.data)| - 1])
    ensures carried == 1 ==> IsPowerOfTen(buf.data)
  {
    hide Denotes, CarryAt, CarriedTo;
    var n := |buf.data|;
    ghost var before := buf.data[..n - 1];
    ghost var nine := before + ['9'];
    buf.data := buf.data[n - 1 := OVERFLOW];
    CarryStart(before, dv);
    CarriedStart(nine);
    assert buf.data == before + [OVERFLOW] == nine[n - 1 := '9' + 1 as char];
    var i := n - 1;
    CarrySettled(buf.data, i, 10 * dv + 10);
    while i > 0 && buf.data[i] == OVERFLOW
      invariant 0 <= i < n == |buf.data|
      invariant CarryAt(buf.data, i, 10 * dv + 10) && CarriedTo(nine, buf.data, i)
      invariant buf.data[i] > '9' ==> buf.data[i] == OVERFLOW
      invariant buf.data[i] <= '9' ==> AllDigits(buf.data) && Denotes(buf.data) == 10 * dv + 10
    {
      CarryMoves(buf.data, i, 10 * dv + 10);
      CarriedOn(nine, buf.data, i);
      buf.data := buf.data[i := '0'];
      buf.data := buf.data[i - 1 := buf.data[i - 1] + 1 as char];
      i := i - 1;
      CarrySettled(buf.data, i, 10 * dv + 10);
    }
    CarriedOut(nine, buf.data, i);
    NinesBefore(before);
    carried := 0;
    if buf.data[0] == OVERFLOW {
      CarryOut(buf.data, 10 * dv + 10);
      buf.data := buf.data[0 := '1'];
      carried := 1;
    }
  }

  lemma CarryStart(before: seq<char>, dv: int)
    requires AllDigits(before) && Denotes(before) == dv
    ensures CarryAt(before + [OVERFLOW], |before|, 10 * dv + 10)
  {
    hide Denotes;
    DenotesPush(before, OVERFLOW);
  }

  lemma NinesBefore(before: seq<char>)
    ensures AllNines(before + ['9']) <==> AllNines(before)
  {
    if AllNines(before + ['9']) {
      assert forall k :: 0 <= k < |before| ==> before[k] == (before + ['9'])[k];
    }
  }

  lemma RoundedCarried(s: seq<char>, n: nat, carried: int, q: int, num: int, den: int)
    requires n > 0 && |s| == n && AllDigits(s) && 0 <= carried <= 1 && den > 0
    requires (if carried == 1 then 10 * Denotes(s) else Denotes(s)) == q && RoundsAt(q, n - 1, num, den)
    requires carried == 1 ==> IsPowerOfTen(s)
    ensures Rounded(s, n, carried, num, den)
  {
    hide Denotes, Pow, RoundsHalfEven;
    if num >= den && s[0] == '0' {
      LeadingZero(s);
      PowPositive(10, n - 1);
      MulMonotone(den, num, Pow(10, n - 1));
      assert Pow(10, n - 1) * den == den * Pow(10, n - 1);
      RoundsAtLeast(q, num * Pow(10, n - 1), den, Pow(10, n - 1));
    }
  }

  lemma ProducedStart(num: int, den: int)
    ensures Produced(0, 0, num, num, den)
    ensures num * Pow(10, 0) == num
  {}

  lemma DenotesNothing()
    ensures Denotes([]) == 0
  {}

  lemma SingleDigit(s: seq<char>)
    requires |s| == 1
    ensures Denotes(s) == DigitOf(s[0])
  {
    assert Denotes(s[..0]) == 0;
  }

  lemma NonzeroBits(s: seq<bigit>, e: nat)
    requires NumVal(s, e) > 0
    ensures s != [0]
  {
    NumValZero(s, e);
  }

  /** The remainder doubled may be compared with the denominator. */
  lemma RemainderComparable(numerator: Bigint, denominator: Bigint)
    requires Sized(numerator, denominator)
    ensures AddComparable(numerator.bits, numerator.exp, numerator.bits, numerator.exp,
                          denominator.bits, denominator.exp)
  {
    NonzeroBits(denominator.bits, denominator.exp);
    NumValZero(numerator.bits, numerator.exp);
  }

  // ---- Setting up the fraction ----

  /** value / 10^x as a fraction: the numerator for value = f * 2^e. */
  ghost function ScaledNum(f: nat, e: int, x: int): nat {
    f * (if e >= 0 then Pow(2, e) else 1) * (if x < 0 then Pow(10, -x) else 1)
  }

  ghost function ScaledDen(e: int, x: int): nat {
    (if e < 0 then Pow(2, -e) else 1) * (if x >= 0 then Pow(10, x) else 1)
  }

  lemma Pow5Big()
    ensures Pow(5, 32) > 0x20_0000_0000_0000
  {
    assert Pow(5, 4) == 625;
    PowAdd(5, 4, 4);
    PowAdd(5, 8, 8);
    PowAdd(5, 16, 16);
  }

  /** A 53-bit significand with a large binary exponent is no power of ten. */
  lemma NoPowerOfTen(f: nat, e: nat, j: nat)
    requires 0 < f < 0x20_0000_0000_0000 && e >= 32
    ensures f * Pow(2, e) != Pow(10, j)
  {
    hide Pow;
    if f * Pow(2, e) == Pow(10, j) {
      PowBaseMul(5, 2, j);
      if j < e {
        PowAdd(2, e - j, j);
        PowPositive(2, j);
        EvenOdd(f, e - j, Pow(2, j), j);
      } else {
        PowAdd(2, j - e, e);
        SplitPowers(f, e, j);
      }
    }
  }

  lemma SplitPowers(f: nat, e: nat, j: nat)
    requires 32 <= e <= j && f * Pow(2, e) == Pow(5, j) * (Pow(2, j - e) * Pow(2, e))
    ensures f >= 0x20_0000_0000_0000
  {
    hide Pow;
    PowPositive(2, e);
    PowPositive(2, j - e);
    CancelRight(f, Pow(5, j) * Pow(2, j - e), Pow(2, e));
    PowMonotone(5, 32, j);
    Pow5Big();
    MulMonotone(1, Pow(2, j - e), Pow(5, j));
  }

  lemma CancelRight(a: nat, b: nat, c: nat)
    requires c > 0 && (a * c == b * c || a * c == Swapped(b, c))
    ensures a == b
  {
    ScaleCompare(a, b, c);
  }

  ghost function Swapped(b: nat, c: nat): nat { c * b }

  /** An even number is no power of five. */
  lemma EvenOdd(f: nat, d: nat, p: nat, j: nat)
    requires d > 0 && p > 0
    ensures f * (Pow(2, d) * p) != Pow(5, j) * p
  {
    MulAssoc(f, Pow(2, d), p);
    ScaleCompare(f * Pow(2, d), Pow(5, j), p);
    FiveOdd(j);
    EvenMultiple(f, Pow(2, d - 1));
  }

  lemma EvenMultiple(f: nat, h: nat)
    ensures (f * (2 * h)) % 2 == 0
  {
    assert f * (2 * h) == 2 * (f * h);
  }

  /** Every scaled power: num * 10^k == den would make the value a power of ten. */
  lemma ScaledNeverEqual(f: nat, e: nat, x: nat, p: nat, k: nat)
    requires 0 < f < 0x20_0000_0000_0000 && e >= 32 && p > 0
    ensures ((f * p) * Pow(2, e)) * Pow(10, k) != Pow(10, x) * p
  {
    hide Pow;
    if ((f * p) * Pow(2, e)) * Pow(10, k) == Pow(10, x) * p {
      assert ((f * p) * Pow(2, e)) * Pow(10, k) == ((f * Pow(2, e)) * Pow(10, k)) * p by {
        Regroup(f, p, Pow(2, e), Pow(10, k));
      }
      ScaleCompare((f * Pow(2, e)) * Pow(10, k), Pow(10, x), p);
      PowPositive(10, k);
      PowPositive(2, e);
      MulPositive(f, Pow(2, e));
      if k > x {
        PowStrict(10, x, k);
        MulMonotone(1, f * Pow(2, e), Pow(10, k));
      } else {
        PowAdd(10, x - k, k);
        ScaleCompare(f * Pow(2, e), Pow(10, x - k), Pow(10, k));
        NoPowerOfTen(f, e, x - k);
      }
    }
  }

  lemma Regroup(f: nat, p: nat, a: nat, b: nat)
    ensures ((f * p) * a) * b == ((f * a) * b) * p
  {
    assert (f * p) * a == (f * a) * p by { MulSwap(f, p, a, 1); }
    MulSwap(f * a, p, b, 1);
  }

  /** The three ways the source sets up the fraction: both sides carry the factor 2^shift. */
  method SetUp(f: nat, e: int, shift: nat, x: int, numerator: Bigint, denominator: Bigint)
    requires numerator != denominator && 0 < f < 0x20_0000_0000_0000 && 1 <= shift <= 2
    requires e >= 0 ==> x >= 0
    requires -0x4000_0000 < x < 0x4000_0000
    modifies numerator, denominator
    ensures numerator.Valid() && denominator.Valid()
    ensures numerator.Value() == ScaledNum(f, e, x) * Pow(2, shift)
    ensures denominator.Value() == ScaledDen(e, x) * Pow(2, shift)
    ensures NeverPadded(numerator.Value(), numerator.exp, denominator.bits, denominator.exp)
  {
    hide Val, Up, Times, Pow, NeverPadded;
    ghost var p := Pow(2, shift);
    ShiftSmall(f, shift);
    var significand := (f * Pow(2, shift)) % TWO64;
    assert significand == f * p;
    if e >= 0 {
      numerator.Assign(significand);
      numerator.Shl(e);
      denominator.AssignPow10(x);
      denominator.Shl(shift);
      MulSwap(f, p, Pow(2, e), 1);
      if e >= 32 {
        NeverPaddedBig(f, e, x, p, numerator.Value(), numerator.exp, denominator.bits, denominator.exp);
      } else {
        NeverPaddedAligned(numerator.Value(), denominator.bits, denominator.exp);
      }
    } else if x < 0 {
      numerator.AssignPow10(-x);
      MulPositive(f, p);
      numerator.Multiply64(significand);
      denominator.Assign(1);
      NumValWhole(denominator.bits);
      denominator.Shl(shift - e);
      PowAdd(2, -e, shift);
      TimesIsMul(1, Pow(2, (shift - e) % 32));
      assert Pow(10, -x) * (f * p) == (f * Pow(10, -x)) * p by { MulSwap(Pow(10, -x), 1, f, p); }
      OneBigit(denominator.bits, (shift - e) % 32);
      NeverPaddedLow(numerator.Value(), numerator.exp, denominator.bits, denominator.exp);
    } else {
      numerator.Assign(significand);
      denominator.AssignPow10(x);
      denominator.Shl(shift - e);
      PowAdd(2, -e, shift);
      MulAssoc(Pow(10, x), Pow(2, -e), p);
      NeverPaddedAligned(numerator.Value(), denominator.bits, denominator.exp);
    }
  }

  lemma ShiftSmall(f: nat, shift: nat)
    requires 0 < f < 0x20_0000_0000_0000 && 1 <= shift <= 2
    ensures 0 < Pow(2, shift) && 0 < f * Pow(2, shift) < TWO64
  {
    assert Pow(2, 1) == 2 && Pow(2, 2) == 4;
  }

  lemma NeverPaddedBig(f: nat, e: nat, x: nat, p: nat, num: int, numExp: nat, den: seq<bigit>, denExp: nat)
    requires 0 < f < 0x20_0000_0000_0000 && e >= 32 && p > 0
    requires num == (f * p) * Pow(2, e) && NumVal(den, denExp) == Pow(10, x) * p
    ensures NeverPadded(num, numExp, den, denExp)
  {
    hide Pow;
    forall k: nat
      ensures num * Pow(10, k) != NumVal(den, denExp)
    {
      ScaledNeverEqual(f, e, x, p, k);
    }
  }

  lemma NeverPaddedAligned(num: int, den: seq<bigit>, denExp: nat)
    ensures NeverPadded(num, 0, den, denExp)
  {}

  lemma NeverPaddedLow(num: int, numExp: nat, den: seq<bigit>, denExp: nat)
    requires |den| >= 1 && den[0] != 0
    ensures NeverPadded(num, numExp, den, denExp)
  {}

  /** A power of two below 2^32 fills one bigit. */
  lemma OneBigit(s: seq<bigit>, k: nat)
    requires Normalized(s) && Val(s) == Pow(2, k) && k < 32
    ensures s[0] != 0
  {
    PowPositive(2, k);
    PowStrict(2, k, 32);
    Pow2Word();
    NormalizedZero(s);
    ValTop(s);
    assert Up(1, 1) == BASE * Up(1, 0);
    if |s| > 1 {
      UpOneMonotone(1, |s| - 1);
    }
  }

  /** The whole fixed-digit path, for a positive double f * 2^e and the decimal exponent x of its
      first digit: the digits written are the value over 10^(x - n + 1), rounded half to even. */
  method FallbackFormat(f: nat, e: int, predecessorCloser: bool, n: nat, x: int, buf: CharBuffer)
    returns (exp10: int)
    requires 0 < f < 0x20_0000_0000_0000
    requires e >= 0 ==> x >= 0
    requires -0x4000_0000 < x < 0x4000_0000
    requires ScaledNum(f, e, x) < 10 * ScaledDen(e, x)
    modifies buf
    ensures Rounded(buf.data, n, exp10 - (x - (n - 1)), ScaledNum(f, e, x), ScaledDen(e, x))
    ensures var last := x - (n - 1);
            RoundsHalfEven(if exp10 > last then 10 * Denotes(buf.data) else Denotes(buf.data),
                           f * Pow(2, Above(e)) * Pow(10, Above(-last)), Pow(2, Above(-e)) * Pow(10, Above(last)))
  {
    hide Val, Up, Times, Pow, NeverPadded, Rounded, ScaledNum, ScaledDen, RoundsHalfEven, Denotes, Above;
    var numerator := new Bigint();
    var denominator := new Bigint();
    var shift := if predecessorCloser then 2 else 1;
    SetUp(f, e, shift, x, numerator, denominator);
    ghost var num, den, p := ScaledNum(f, e, x), ScaledDen(e, x), Pow(2, shift);
    ScaledPositive(f, e, x);
    PowPositive(2, shift);
    MulPositive(num, p);
    MulPositive(den, p);
    MulStrict(num, 10 * den, p);
    MulAssoc(10, den, p);
    exp10 := GenerateDigits(numerator, denominator, n, x, buf);
    RoundedUnscale(buf.data, n, exp10 - (x - (n - 1)), num, den, p);
    RoundedValue(buf.data, n, exp10 - (x - (n - 1)), f, e, x);
  }

  /** An exponent, or zero if it is negative. */
  function Above(k: int): nat { if k > 0 then k else 0 }

  /** Rounding the scaled fraction is rounding f * 2^e at the place the digits end. */
  lemma RoundedValue(s: seq<char>, n: nat, carried: int, f: nat, e: int, x: int)
    requires Rounded(s, n, carried, ScaledNum(f, e, x), ScaledDen(e, x)) && ScaledDen(e, x) > 0
    ensures var last := x - (n - 1);
            RoundsHalfEven(if carried > 0 then 10 * Denotes(s) else Denotes(s),
                           f * Pow(2, Above(e)) * Pow(10, Above(-last)), Pow(2, Above(-e)) * Pow(10, Above(last)))
  {
    hide Pow, Denotes, RoundsHalfEven, ScaledNum, ScaledDen;
    var a, b := f * Pow(2, Above(e)), Pow(2, Above(-e));
    var q := if carried > 0 then 10 * Denotes(s) else Denotes(s);
    var up, down := Above(x), Above(-x);
    ScaledParts(f, e, x);
    PowPositive(2, Above(-e));
    if n == 0 {
      TenMore(b, up);
      Rescale(q, a, b, 0, 1, x);
    } else {
      MulAssoc(a, Pow(10, down), Pow(10, n - 1));
      PowAdd(10, down, n - 1);
      Rescale(q, a, b, n - 1, 0, x);
    }
  }

  lemma TenMore(b: nat, k: nat)
    ensures 10 * (b * Pow(10, k)) == b * Pow(10, k + 1)
  {
    PowNext(10, k);
    assert 10 * (b * Pow(10, k)) == b * (10 * Pow(10, k));
  }

  /** Powers of ten common to both sides do not matter. */
  lemma Rescale(q: int, a: nat, b: nat, i: nat, j: nat, x: int)
    requires RoundsHalfEven(q, a * Pow(10, Above(-x) + i), b * Pow(10, Above(x) + j)) && b > 0
    ensures var last := x - i + j;
            RoundsHalfEven(q, a * Pow(10, Above(-last)), b * Pow(10, Above(last)))
  {
    hide Pow, RoundsHalfEven;
    var last := x - i + j;
    var m := Above(x) + j - Above(last);
    assert m >= 0 && Above(-x) + i == Above(-last) + m;
    PowAdd(10, Above(-last), m);
    PowAdd(10, Above(last), m);
    PowPositive(10, m);
    PowPositive(10, Above(last));
    MulPositive(b, Pow(10, Above(last)));
    MulAssoc(a, Pow(10, Above(-last)), Pow(10, m));
    MulAssoc(b, Pow(10, Above(last)), Pow(10, m));
    RoundedScale(q, a * Pow(10, Above(-last)), b * Pow(10, Above(last)), Pow(10, m));
  }

  lemma ScaledParts(f: nat, e: int, x: int)
    ensures ScaledNum(f, e, x) == f * Pow(2, Above(e)) * Pow(10, Above(-x))
    ensures ScaledDen(e, x) == Pow(2, Above(-e)) * Pow(10, Above(x))
  {
    PowNext(2, 0);
    PowNext(10, 0);
  }

  lemma ScaledPositive(f: nat, e: int, x: int)
    requires f > 0
    ensures ScaledNum(f, e, x) > 0 && ScaledDen(e, x) > 0
  {
    var a := if e >= 0 then Pow(2, e) else 1;
    var b := if x < 0 then Pow(10, -x) else 1;
    var c := if e < 0 then Pow(2, -e) else 1;
    var d := if x >= 0 then Pow(10, x) else 1;
    if e >= 0 { PowPositive(2, e); } else { PowPositive(2, -e); }
    if x >= 0 { PowPositive(10, x); } else { PowPositive(10, -x); }
    MulPositive(f, a);
    MulPositive(f * a, b);
    MulPositive(c, d);
  }

  lemma RoundedUnscale(s: seq<char>, n: nat, carried: int, num: nat, den: nat, p: nat)
    requires p > 0 && den > 0 && Rounded(s, n, carried, num * p, den * p)
    ensures Rounded(s, n, carried, num, den)
  {
    hide Pow, Denotes, RoundsHalfEven;
    if n == 0 {
      MulAssoc(10, den, p);
      RoundedScale(Denotes(s), num, 10 * den, p);
    } else {
      assert (num * p) * Pow(10, n - 1) == (num * Pow(10, n - 1)) * p by { MulSwap(num, p, Pow(10, n - 1), 1); }
      RoundedScale(if carried == 1 then 10 * Denotes(s) else Denotes(s), num * Pow(10, n - 1), den, p);
    }
  }
}
