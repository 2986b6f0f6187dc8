/** The multi-word integer that exact decimal conversion works on. */
module BigintClass {
  import opened Arith
  import opened Limbs
  import opened BigintLemmas
  import opened Columns

  const TWO63: nat := 0x8000_0000_0000_0000
  const TWO64: nat := 0x1_0000_0000_0000_0000

  type uint32 = x: int | 0 <= x < BASE
  type uint64 = x: int | 0 <= x < TWO64

  /** A 128-bit sum in two words, for compilers without a 128-bit integer. */
  class Accumulator {
    var lower: uint64
    var upper: uint64

    function Value(): nat
      reads this
    {
      lower + TWO64 * upper
    }

    constructor ()
      ensures Value() == 0
    {
      lower, upper := 0, 0;
    }

    method Add(n: uint64)
      requires Value() + n < TWO64 * TWO64
      modifies this
      ensures Value() == old(Value()) + n
    {
      lower := (lower + n) % TWO64;
      if lower < n {
        upper := (upper + 1) % TWO64;
      }
    }

    function Low(): bigit
      reads this
    {
      lower % BASE
    }

    /** Drops the low bigit. */
    method ShiftBigit()
      modifies this
      ensures Value() == old(Value()) / BASE && old(Low()) == old(Value()) % BASE
    {
      lower := upper % BASE * BASE + lower / BASE;
      upper := upper / BASE;
    }
  }

  /** An array of bigits, least significant first, scaled by 2^(32 * exp). */
  class Bigint {
    var bits: seq<bigit>
    var exp: nat

    ghost function Value(): int
      reads this
    {
      NumVal(bits, exp)
    }

    predicate Valid()
      reads this
    {
      Normalized(bits)
    }

    function NumBigits(): nat
      reads this
    {
      |bits| + exp
    }

    constructor ()
      ensures bits == [] && exp == 0
    {
      bits, exp := [], 0;
    }

    method AssignFrom(other: Bigint)
      modifies this
      ensures bits == old(other.bits) && exp == old(other.exp)
    {
      bits := other.bits;
      exp := other.exp;
    }

    method Assign(value: uint64)
      modifies this
      ensures Valid() && exp == 0 && Value() == value
      ensures value > 0 && value < BASE ==> bits == [value]
    {
      var n := value;
      bits := [n % BASE];
      n := n / BASE;
      if n != 0 {
        bits := bits + [n % BASE];
        n := n / BASE;
      }
      exp := 0;
      WordValue(value % BASE, value / BASE);
    }

    method Multiply32(value: uint32)
      requires Valid() && value > 0
      modifies this
      ensures Valid() && exp == old(exp)
      ensures Value() == old(Value()) * value
      ensures |old(bits)| <= |bits| <= |old(bits)| + 1
    {
      hide Val, Up, Times;
      ghost var before := bits;
      var carry: bigit := 0;
      var i, n := 0, |bits|;
      ScaledStart(before, value);
      while i < n
        invariant 0 <= i <= n == |bits| && exp == old(exp)
        invariant ScaledTo(bits, i, carry, before, value)
      {
        NarrowStep(bits[i], value, carry);
        var result := (bits[i] * value + carry) % TWO64;
        ScaledStep(bits, i, carry, before, value, result % BASE, result / BASE);
        bits := bits[i := result % BASE];
        carry := result / BASE;
        i := i + 1;
      }
      ScaledDone(bits, carry, before, value);
      if carry != 0 {
        bits := bits + [carry];
      }
      NumValScale(before, bits, exp, value);
    }

    /** One bigit of the wide multiplication; the two 64-bit expressions do not wrap. */
    method WideBigit(i: nat, lower: bigit, upper: bigit, carry: uint64, ghost value: uint64) returns (carry': uint64)
      requires i < |bits| && lower == value % BASE && upper == value / BASE
      modifies `bits
      ensures |bits| == |old(bits)| && bits == old(bits)[i := bits[i]]
      ensures bits[i] + BASE * carry' == old(bits)[i] * value + carry
    {
      ghost var exact := bits[i] * lower + carry % BASE;
      ghost var next := bits[i] * upper + exact / BASE + carry / BASE;
      WideStep(bits[i], value, carry, exact, next);
      NoWrap(exact);
      NoWrap(next);
      var result := (bits[i] * lower + carry % BASE) % TWO64;
      carry' := (bits[i] * upper + result / BASE + carry / BASE) % TWO64;
      bits := bits[i := result % BASE];
    }

    method Multiply64(value: uint64)
      requires Valid() && value > 0
      modifies this
      ensures Valid() && exp == old(exp)
      ensures Value() == old(Value()) * value
      ensures |old(bits)| <= |bits| <= |old(bits)| + 2
    {
      hide Val, Up, Times;
      ghost var before := bits;
      var lower, upper := value % BASE, value / BASE;
      var carry: uint64 := 0;
      var i, n := 0, |bits|;
      ScaledStart(before, value);
      while i < n
        invariant 0 <= i <= n == |bits| && exp == old(exp)
        invariant ScaledTo(bits, i, carry, before, value)
      {
        ghost var now, c := bits, carry;
        carry := WideBigit(i, lower, upper, carry, value);
        ScaledStep(now, i, c, before, value, bits[i], carry);
        i := i + 1;
      }
      ScaledDone(bits, carry, before, value);
      assert bits[..n] == bits && before[..n] == before;
      while carry != 0
        invariant n <= |bits| <= n + 2 && exp == old(exp) && 0 <= carry < TWO64
        invariant carry == 0 ==> Valid()
        invariant carry != 0 ==> |bits| == n || (|bits| == n + 1 && carry < BASE)
        invariant Val(bits) + Up(carry, |bits|) == Times(Val(before), value)
        decreases carry
      {
        CarrySplit(bits, carry, carry % BASE, carry / BASE);
        bits := bits + [carry % BASE];
        carry := carry / BASE;
      }
      UpZero(|bits|);
      NumValScale(before, bits, exp, value);
    }

    method Shl(shift: nat)
      requires Valid()
      modifies this
      ensures Valid()
      ensures Value() == old(Value()) * Pow(2, shift)
      ensures exp == old(exp) + shift / 32 && |old(bits)| <= |bits| <= |old(bits)| + 1
      ensures Val(bits) == Times(old(Val(bits)), Pow(2, shift % 32))
    {
      hide Val, Up, Times;
      ghost var before := bits;
      exp := exp + shift / 32;
      var s := shift % 32;
      ShiftValue(Val(before), old(exp), shift);
      if s == 0 {
        TimesIsMul(Val(before), 1);
        return;
      }
      ShiftParts(s);
      var p, q := Pow(2, s), Pow(2, 32 - s);
      var carry: nat := 0;
      var i, n := 0, |bits|;
      ScaledStart(before, p);
      while i < n
        invariant 0 <= i <= n == |bits| && exp == old(exp) + shift / 32
        invariant carry < p
        invariant ScaledTo(bits, i, carry, before, p)
      {
        ShiftBigit(bits[i], p, q, carry);
        var c := bits[i] / q;
        ScaledStep(bits, i, carry, before, p, (bits[i] * p) % BASE + carry, c);
        bits := bits[i := (bits[i] * p) % BASE + carry];
        carry := c;
        i := i + 1;
      }
      ScaledDone(bits, carry, before, p);
      if carry != 0 {
        bits := bits + [carry];
      }
    }

    /** The cross products n[i] * n[k - i] with lo <= i < hi, added to the running sum. */
    static method AddTerms(n: seq<bigit>, k: nat, lo: nat, hi: nat, sum: Accumulator)
      requires lo <= hi <= |n| <= 0x4000_0000 && hi <= k + 1 && k - lo < |n|
      requires sum.Value() < 0x4000_0000 * TWO64
      modifies sum
      ensures sum.Value() == old(sum.Value()) + Column(n, k, hi) - Column(n, k, lo)
    {
      var i, j := lo, k - lo;
      ColumnRange(n, k, lo, lo);
      while i < hi
        invariant lo <= i <= hi && j == k - i
        invariant sum.Value() == old(sum.Value()) + Column(n, k, i) - Column(n, k, lo)
      {
        ColumnRange(n, k, lo, i);
        CellBound(n[i], n[j]);
        sum.Add(Product(n[i], n[j]));
        i, j := i + 1, j - 1;
      }
    }

    /** Column k of the square: its bigit goes into place, the rest of the sum is carried on. */
    method SquareColumn(n: seq<bigit>, k: nat, lo: nat, hi: nat, sum: Accumulator)
      requires |n| <= 0x4000_0000 && Squared(bits, k, sum.Value(), n) && k < 2 * |n|
      requires lo == (if k < |n| then 0 else k - |n| + 1) && hi == (if k < |n| then k + 1 else |n|)
      modifies this`bits, sum
      ensures Squared(bits, k + 1, sum.Value(), n)
    {
      ghost var carry := sum.Value();
      AddTerms(n, k, lo, hi, sum);
      ColumnEnds(n, k, lo, hi);
      SquaredStep(bits, k, carry, n, sum.Value());
      bits := bits[k := sum.Low()];
      sum.ShiftBigit();
    }

    /** Squares by column sums, lower half then upper half. */
    method Square()
      requires Valid() && |bits| <= 0x4000_0000
      modifies this
      ensures Valid() && exp == 2 * old(exp)
      ensures Val(bits) == old(Val(bits)) * old(Val(bits)) && Value() == old(Value()) * old(Value())
    {
      hide Val, Up, Times;
      var n := bits;
      var num := |bits|;
      bits := seq(2 * num, _ => 0);
      var sum := new Accumulator();
      var k := 0;
      SquaredStart(bits, n);
      while k < num
        invariant 0 <= k <= num && exp == old(exp) && fresh(sum)
        invariant Squared(bits, k, sum.Value(), n)
      {
        SquareColumn(n, k, 0, k + 1, sum);
        k := k + 1;
      }
      while k < 2 * num
        invariant num <= k <= 2 * num && exp == old(exp) && fresh(sum)
        invariant Squared(bits, k, sum.Value(), n)
      {
        SquareColumn(n, k, k - num + 1, num, sum);
        k := k + 1;
      }
      SquaredDone(bits, sum.Value(), n);
      RemoveLeadingZeros();
      SquareScaled(Val(n), exp);
      exp := exp * 2;
    }

    /** Square-and-multiply on 5 from the top bit of the exponent, then a shift. */
    method AssignPow10(n: nat)
      requires n < 0x4000_0000
      modifies this
      ensures Valid() && exp == n / 32 && Value() == Pow(10, n)
      ensures Val(bits) == Times(Pow(5, n), Pow(2, n % 32))
    {
      hide Val, Up, Times, Prefix;
      if n == 0 {
        Assign(1);
        NumValWhole(bits);
        TimesIsMul(1, 1);
        return;
      }
      var bitmask := 1;
      ghost var t: nat := 0;
      while n >= bitmask
        invariant bitmask == Pow(2, t) && (t > 0 ==> Pow(2, t - 1) <= n)
        decreases 2 * n - bitmask
      {
        bitmask := bitmask * 2;
        t := t + 1;
      }
      bitmask := bitmask / 2;
      t := t - 1;
      PrefixTop(n, t);
      Assign(5);
      NumValWhole(bits);
      bitmask := bitmask / 2;
      FiveByDigits(n, bitmask, t);
      NumValWhole(bits);
      Shl(n);
      PowBaseMul(5, 2, n);
    }

    /** The squaring loop of AssignPow10: one binary digit of n a round. */
    method FiveByDigits(n: nat, mask: nat, ghost top: nat)
      requires Valid() && exp == 0 && n < 0x4000_0000
      requires mask == (if top == 0 then 0 else Pow(2, top - 1)) && Prefix(n, top, 1) && Val(bits) == 5
      modifies this
      ensures Valid() && exp == 0 && Val(bits) == Pow(5, n)
    {
      hide Val, Up, Times, Prefix;
      var bitmask := mask;
      ghost var t: nat, e: nat := top, 1;
      while bitmask != 0
        invariant Valid() && exp == 0
        invariant bitmask == if t == 0 then 0 else Pow(2, t - 1)
        invariant Prefix(n, t, e) && Val(bits) == Pow(5, e)
        decreases t
      {
        PrefixStep(n, t, e, bitmask);
        PowerLength(bits, e);
        Square();
        PowAdd(5, e, e);
        e := 2 * e;
        if (n / bitmask) % 2 != 0 {
          NumValWhole(bits);
          Multiply32(5);
          NumValWhole(bits);
          e := e + 1;
        }
        bitmask := bitmask / 2;
        t := t - 1;
      }
      if t > 0 {
        PowPositive(2, t - 1);
      }
      PrefixAll(n, e);
    }

    /** One bigit of a subtraction with its borrow taken from bit 63 of the wrapped 64-bit difference. */
    method SubtractBigits(index: nat, other: bigit, borrow: bigit) returns (borrow': bigit)
      requires index < |bits| && borrow <= 1
      modifies this`bits
      ensures borrow' <= 1
      ensures |bits| == |old(bits)| && bits == old(bits)[index := bits[index]]
      ensures bits[index] - BASE * borrow' == old(bits)[index] - other - borrow
    {
      var result := (bits[index] - other - borrow) % TWO64;
      bits := bits[index := result % BASE];
      borrow' := result / TWO63;
    }

    method RemoveLeadingZeros()
      requires |bits| >= 1
      modifies this`bits
      ensures Valid() && Val(bits) == old(Val(bits)) && |bits| <= |old(bits)|
    {
      hide Val, Up, Times;
      var num := |bits| - 1;
      while num > 0 && bits[num] == 0
        invariant 0 <= num < |bits| && bits == old(bits)
        invariant AllZero(bits[num + 1..])
      {
        num := num - 1;
      }
      ValDropTop(bits, num + 1);
      bits := bits[..num + 1];
    }

    /** Subtracts an aligned smaller number. The borrow loop does not advance, so the result is the
        difference exactly when the bigit above the subtrahend can lend (BorrowFits). */
    method SubtractAligned(other: Bigint)
      requires this != other && |other.bits| >= 1
      requires other.exp >= exp && NumBigits() >= other.NumBigits() && Value() >= other.Value()
      modifies this`bits
      ensures Valid() && |bits| <= |old(bits)|
      ensures Value() == old(Value()) - other.Value() <==> BorrowFits(old(bits), other.exp - exp, other.bits)
    {
      hide Val, Up, Times;
      ghost var before, d := bits, other.exp - exp;
      var borrow: bigit := 0;
      var i, j, n := other.exp - exp, 0, |other.bits|;
      TakenOffStart(bits, d, other.bits);
      while j != n
        invariant 0 <= j <= n && i == d + j && borrow <= 1
        invariant TakenOff(bits, d, j, borrow, before, other.bits)
      {
        ghost var now, owed := bits, borrow;
        borrow := SubtractBigits(i, other.bits[j], borrow);
        TakenOffStep(now, d, j, owed, before, other.bits, bits[i], borrow);
        i, j := i + 1, j + 1;
      }
      AlignedDifference(before, exp, other.bits, other.exp);
      LeftoverBorrow(bits, d, borrow, before, other.bits);
      ghost var mid, owed := bits, borrow;
      while borrow > 0
        invariant owed == 1 ==> i < |mid|
        invariant borrow == 0 || borrow == owed == 1
        invariant borrow > 0 ==> bits == mid || (mid[i] == 0 && bits == mid[i := BASE - 1])
        invariant borrow == 0 ==> bits == Lent(mid, i, owed)
        decreases if borrow == 0 then 0 else if bits[i] == 0 then 2 else 1
      {
        borrow := SubtractBigits(i, 0, borrow);
      }
      SubtractionResult(mid, d, owed, before, other.bits);
      DifferenceOfValues(Val(bits), Val(before), Val(other.bits), exp, d);
      RemoveLeadingZeros();
    }

    /** Gives this number the other's exponent, if larger, by adding low zero bigits. */
    method Align(other: Bigint)
      requires this != other && |bits| >= 1
      modifies this
      ensures Value() == old(Value()) && NumBigits() == old(NumBigits())
      ensures exp == if old(exp) > other.exp then other.exp else old(exp)
      ensures |bits| >= |old(bits)| && bits[|bits| - |old(bits)|..] == old(bits)
      ensures AllZero(bits[..|bits| - |old(bits)|])
    {
      hide Val, Up, Times;
      if exp <= other.exp {
        return;
      }
      ghost var before := bits;
      var diff := exp - other.exp;
      var num := |bits|;
      bits := bits + seq(diff, _ => 0);
      var i := num - 1;
      while i >= 0
        invariant -1 <= i < num && |bits| == num + diff && exp == old(exp)
        invariant forall k :: 0 <= k <= i ==> bits[k] == before[k]
        invariant forall k :: i < k < num ==> bits[k + diff] == before[k]
      {
        bits := bits[i + diff := bits[i]];
        i := i - 1;
      }
      i := 0;
      while i < diff
        invariant 0 <= i <= diff && |bits| == num + diff && exp == old(exp)
        invariant forall k :: 0 <= k < i ==> bits[k] == 0
        invariant forall k :: 0 <= k < num ==> bits[k + diff] == before[k]
      {
        bits := bits[i := 0];
        i := i + 1;
      }
      AlignedValue(before, exp, bits, diff);
      exp := exp - diff;
    }

    /** One round of the division loop: subtract, then compare again. */
    method DivisionRound(divisor: Bigint) returns (c: int)
      requires this != divisor && Valid() && divisor.Valid() && exp <= divisor.exp
      requires 0 < divisor.Value() <= Value() && NumBigits() <= divisor.NumBigits() + 1
      modifies this`bits
      ensures Valid() && Value() == old(Value()) - divisor.Value() && NumBigits() <= divisor.NumBigits() + 1
      ensures c >= 0 <==> Value() >= divisor.Value()
      ensures Value() == 0 ==> NumBigits() <= divisor.NumBigits()
    {
      hide Val, Up, Times;
      ReadyToSubtract(bits, exp, divisor.bits, divisor.exp);
      SubtractAligned(divisor);
      c := Compare(this, divisor);
      ZeroCount(bits, exp, divisor.bits, divisor.exp);
      AtLeast(c, bits, exp, divisor.bits, divisor.exp);
    }

    /** Quotient and remainder by repeated subtraction. The remainder is below the divisor exactly when
        the divisor is not this number padded with zero bigits, which compare reports as larger. */
    method DivmodAssign(divisor: Bigint) returns (quotient: nat)
      requires this != divisor && Valid() && divisor.Valid() && divisor.Value() > 0
      requires NumBigits() <= divisor.NumBigits() + 1
      requires Value() == 0 ==> NumBigits() <= divisor.NumBigits()
      modifies this
      ensures Valid() && (old(Value()) < 10 * divisor.Value() ==> quotient < 10)
      ensures old(Value()) == quotient * divisor.Value() + Value() && 0 <= Value() <= divisor.Value()
      ensures Value() < divisor.Value() <==>
                !(old(NumBigits()) == divisor.NumBigits() && PadsWithZeros(divisor.bits, old(bits)))
      ensures if quotient == 0 then exp == old(exp) && bits == old(bits) else exp <= divisor.exp
      ensures Value() == 0 ==> NumBigits() <= divisor.NumBigits()
    {
      hide Val, Up, CompareResult, NumVal, Times, PadsWithZeros;
      ghost var v, dv := Value(), divisor.Value();
      NumValZero(bits, exp);
      var c := Compare(this, divisor);
      AtLeast(c, bits, exp, divisor.bits, divisor.exp);
      if c < 0 {
        return 0;
      }
      Align(divisor);
      AlignedNormal(old(bits), bits, old(exp));
      quotient := 0;
      TimesNext(dv, 0);
      while true
        invariant Valid() && exp <= divisor.exp
        invariant Times(dv, quotient) + Value() == v && dv == divisor.Value() && Value() >= dv
        invariant NumBigits() <= divisor.NumBigits() + 1
        decreases Value()
      {
        c := DivisionRound(divisor);
        quotient := quotient + 1;
        NumValZero(bits, exp);
        TimesNext(dv, quotient - 1);
        TimesIsMul(dv, quotient);
        if v < 10 * dv { QuotientSmall(quotient, dv, v); }
        if c < 0 {
          break;
        }
      }
    }
  }

  /** Three-way comparison from the top bigit down. */
  method Compare(lhs: Bigint, rhs: Bigint) returns (c: int)
    requires lhs.Valid() && rhs.Valid()
    ensures CompareResult(c, lhs.bits, lhs.exp, rhs.bits, rhs.exp)
    ensures c == Sign(lhs.Value() - rhs.Value()) <==> Comparable(lhs.bits, lhs.exp, rhs.bits, rhs.exp)
  {
    c := CompareLoop(lhs, rhs);
    CompareExactIff(c, lhs.bits, lhs.exp, rhs.bits, rhs.exp);
  }

  method CompareLoop(lhs: Bigint, rhs: Bigint) returns (c: int)
    requires lhs.Valid() && rhs.Valid()
    ensures CompareResult(c, lhs.bits, lhs.exp, rhs.bits, rhs.exp)
  {
    hide NumVal, CompareResult, SameAbove;
    if lhs.NumBigits() != rhs.NumBigits() {
      CountsDiffer(lhs.bits, lhs.exp, rhs.bits, rhs.exp);
      return if lhs.NumBigits() > rhs.NumBigits() then 1 else -1;
    }
    var i, j := |lhs.bits| - 1, |rhs.bits| - 1;
    var end := i - j;
    if end < 0 {
      end := 0;
    }
    assert SameAbove(lhs.bits, i, rhs.bits, j) by { SameAtTop(lhs.bits, rhs.bits); }
    while i >= end
      invariant i - j == |lhs.bits| - |rhs.bits| && end - 1 <= i < |lhs.bits| && -1 <= j < |rhs.bits|
      invariant SameAbove(lhs.bits, i, rhs.bits, j)
    {
      if lhs.bits[i] != rhs.bits[j] {
        FirstDifference(lhs.bits, lhs.exp, i, rhs.bits, rhs.exp, j);
        return if lhs.bits[i] > rhs.bits[j] then 1 else -1;
      }
      SameStep(lhs.bits, i, rhs.bits, j);
      i, j := i - 1, j - 1;
    }
    AllCommon(lhs.bits, lhs.exp, i, rhs.bits, rhs.exp, j);
    if i != j {
      return if i > j then 1 else -1;
    }
    return 0;
  }

  /** The sign of lhs1 + lhs2 - rhs, without forming the sum. */
  method AddCompare(lhs1: Bigint, lhs2: Bigint, rhs: Bigint) returns (c: int)
    requires lhs1.Valid() && lhs2.Valid() && rhs.Valid()
    ensures c == Sign(lhs1.Value() + lhs2.Value() - rhs.Value()) <==>
              AddCompares(lhs1.bits, lhs1.exp, lhs2.bits, lhs2.exp, rhs.bits, rhs.exp)
    ensures !AddComparable(lhs1.bits, lhs1.exp, lhs2.bits, lhs2.exp, rhs.bits, rhs.exp) ==>
              c == if rhs.NumBigits() > lhs1.NumBigits() && rhs.NumBigits() > lhs2.NumBigits() then -1 else 1
  {
    hide Val, Up, Times;
    ghost var a, ea, b, eb, r, er := lhs1.bits, lhs1.exp, lhs2.bits, lhs2.exp, rhs.bits, rhs.exp;
    var max := if lhs1.NumBigits() > lhs2.NumBigits() then lhs1.NumBigits() else lhs2.NumBigits();
    var num := rhs.NumBigits();
    if !AddComparable(a, ea, b, eb, r, er) {
      ZeroCounts(a, ea, b, eb, r, er);
    }
    CountsDecide(a, ea, b, eb, r, er);
    if max + 1 < num {
      return -1;
    }
    if max > num {
      return 1;
    }
    c := AddCompareLoop(lhs1, lhs2, rhs);
  }

  /** The borrow from the top bigit down; more than one unit cannot be made up by lower bigits. */
  method AddCompareLoop(lhs1: Bigint, lhs2: Bigint, rhs: Bigint) returns (c: int)
    requires lhs1.Valid() && lhs2.Valid() && rhs.Valid()
    requires lhs1.NumBigits() <= rhs.NumBigits() && lhs2.NumBigits() <= rhs.NumBigits()
    ensures c == Sign(lhs1.Value() + lhs2.Value() - rhs.Value())
  {
    hide Val, Up, Gap, GetBigit;
    ghost var a, ea, b, eb, r, er := lhs1.bits, lhs1.exp, lhs2.bits, lhs2.exp, rhs.bits, rhs.exp;
    var num := rhs.NumBigits();
    var borrow: uint64 := 0;
    var min := if lhs1.exp < lhs2.exp then lhs1.exp else lhs2.exp;
    min := if rhs.exp < min then rhs.exp else min;
    var i := num - 1;
    ghost var gap := 0;
    GapAbove(a, ea, b, eb, r, er, num);
    while i >= min
      invariant min - 1 <= i < num
      invariant gap == Gap(a, ea, b, eb, r, er, i + 1)
      invariant borrow == BASE * gap && 0 <= gap <= 1
    {
      gap := Gap(a, ea, b, eb, r, er, i);
      GapStep(a, ea, b, eb, r, er, i, gap);
      var sum := GetBigit(lhs1.bits, lhs1.exp, i) + GetBigit(lhs2.bits, lhs2.exp, i);
      var bigit := GetBigit(rhs.bits, rhs.exp, i);
      if sum > bigit + borrow {
        return 1;
      }
      borrow := bigit + borrow - sum;
      if borrow > 1 {
        return -1;
      }
      borrow := borrow * BASE;
      i := i - 1;
    }
    GapDecides(a, ea, b, eb, r, er, min);
    return if borrow != 0 then -1 else 0;
  }
}
