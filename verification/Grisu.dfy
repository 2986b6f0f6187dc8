/** Fast digit generation with a known error bound: done only when the digits are right. */
module Grisu {
  import opened Arith
  import opened Limbs
  import opened BigintClass
  import opened Digits
  import opened Decimal

  datatype RoundDirection = Unknown | Up | Down
  datatype Result = More | Done | Error

  /** A binary floating-point number f * 2^e with a 64-bit significand. */
  datatype Fp = Fp(f: uint64, e: int)

  /** Which way everything within error of the remainder rounds, if all of it rounds one way. */
  function GetRoundDirection(divisor: uint64, remainder: uint64, error: uint64): (dir: RoundDirection)
    requires remainder < divisor && error < divisor && error < divisor - error
    ensures dir == Down <==> 2 * (remainder + error) <= divisor
    ensures dir == Up <==> 2 * (remainder + error) > divisor && 2 * (remainder - error) >= divisor
  {
    if remainder <= divisor - remainder && Twice(error) <= divisor - Twice(remainder) then Down
    else if remainder >= error && remainder - error >= divisor - (remainder - error) then Up
    else Unknown
  }

  /** A doubled 64-bit word; exact below half the range. */
  function Twice(x: uint64): (r: uint64)
    ensures 2 * x < TWO64 ==> r == 2 * x
  {
    (x * 2) % TWO64
  }

  // ---- What a digit prefix means ----

  /** For exponent exp the value is compared at the scale 10^Down; one unit of the last digit is Unit. */
  ghost function Down10(exp: int): nat { if exp < 0 then Pow(10, -exp) else 1 }

  ghost function Unit(exp: int, one: nat): nat { if exp < 0 then one else Pow(10, exp) * one }

  /** The digits so far denote d; r is what they leave of the value f / one, scaled. */
  ghost predicate Emitted(d: int, exp: int, one: nat, f: nat, r: int) {
    f * Down10(exp) == d * Unit(exp, one) + r
  }

  /** d units of 10^exp lie within half a unit of everything within one of f. */
  ghost predicate NearHalf(d: int, exp: int, one: nat, f: nat) {
    var down, unit := Down10(exp), Unit(exp, one);
    && 2 * (d * unit - f * down) + 2 * down <= unit
    && 2 * (f * down - d * unit) + 2 * down <= unit
  }

  /** The digits cannot be trusted: a digit boundary or the midpoint of the last unit is within reach. */
  ghost predicate Undecided(d: int, exp: int, one: nat, f: nat) {
    var down, unit := Down10(exp), Unit(exp, one);
    var r := f * down - d * unit;
    && 0 <= r < unit
    && ((exp < 0 && r <= down) || (2 * (r + down) > unit && 2 * (r - down) < unit))
  }

  /** What done means, for every real number the computed value may stand for. */
  lemma NearHalfOfReals(d: int, exp: int, one: nat, f: nat, t: real)
    requires NearHalf(d, exp, one, f) && f as real - 1.0 <= t <= f as real + 1.0
    ensures var down, unit := Down10(exp) as real, Unit(exp, one) as real;
            -unit <= 2.0 * (d as real * unit - t * down) <= unit
  {
    hide Down10, Unit;
    NearInReals(d, Unit(exp, one), f, Down10(exp), t);
  }

  lemma NearInReals(d: int, unit: nat, f: nat, down: nat, t: real)
    requires 2 * (d * unit - f * down) + 2 * down <= unit && 2 * (f * down - d * unit) + 2 * down <= unit
    requires f as real - 1.0 <= t <= f as real + 1.0
    ensures -(unit as real) <= 2.0 * (d as real * unit as real - t * down as real) <= unit as real
  {
    RealProduct(d, unit);
    RealProduct(f, down);
    var a, b, dr, fr := d * unit, f * down, d as real * unit as real, f as real * down as real;
    assert dr == a as real && fr == b as real;
    RealBounds(t, f as real, down as real, fr);
    LinearInReals(a, b, down, unit, dr, fr, t * down as real);
  }

  lemma LinearInReals(a: int, b: int, down: int, unit: int, dr: real, fr: real, x: real)
    requires 2 * (a - b) + 2 * down <= unit && 2 * (b - a) + 2 * down <= unit
    requires dr == a as real && fr == b as real && fr - down as real <= x <= fr + down as real
    ensures -(unit as real) <= 2.0 * (dr - x) <= unit as real
  {}

  /** The integer product is the real one. */
  lemma {:induction false} RealProduct(a: int, b: nat)
    ensures (a * b) as real == a as real * b as real
  {
    if b > 0 {
      RealProduct(a, b - 1);
      assert a * b == a * (b - 1) + a;
      RealDistrib(a as real, (b - 1) as real);
    }
  }

  lemma RealDistrib(a: real, b: real)
    ensures a * (b + 1.0) == a * b + a
  {}

  lemma RealBounds(t: real, f: real, x: real, fx: real)
    requires f - 1.0 <= t <= f + 1.0 && x >= 0.0 && fx == f * x
    ensures fx - x <= t * x <= fx + x
  {
    RealNonNegative(t - f + 1.0, x);
    RealNonNegative(f + 1.0 - t, x);
    RealExpand(t, f, x);
  }

  lemma RealNonNegative(a: real, x: real)
    requires a >= 0.0 && x >= 0.0
    ensures a * x >= 0.0
  {}

  lemma RealExpand(t: real, f: real, x: real)
    ensures (t - f + 1.0) * x == t * x - f * x + x
    ensures (f + 1.0 - t) * x == f * x + x - t * x
  {}

  lemma EmittedNear(d: int, exp: int, one: nat, f: nat, r: int)
    requires Emitted(d, exp, one, f, r) && 0 <= r < Unit(exp, one)
    ensures 2 * (r + Down10(exp)) <= Unit(exp, one) ==> NearHalf(d, exp, one, f)
    ensures 2 * (r - Down10(exp)) >= Unit(exp, one) ==> NearHalf(d + 1, exp, one, f)
    ensures (exp < 0 && r <= Down10(exp)) ==> Undecided(d, exp, one, f)
    ensures 2 * (r + Down10(exp)) > Unit(exp, one) && 2 * (r - Down10(exp)) < Unit(exp, one) ==>
              Undecided(d, exp, one, f)
  {
    hide Down10, Unit;
    MulDistrib(d, 1, Unit(exp, one));
  }

  lemma IntegralDigit(d: int, exp: nat, one: nat, f: nat, integral: nat, frac: nat, digit: nat, integral': nat)
    requires exp > 0 && Emitted(d, exp, one, f, integral * one + frac)
    requires integral == digit * Pow(10, exp - 1) + integral'
    ensures Emitted(10 * d + digit, exp - 1, one, f, integral' * one + frac)
  {
    hide Pow;
    PowNext(10, exp - 1);
    var p := Pow(10, exp - 1);
    assert d * (10 * p * one) == (10 * d) * (p * one);
    MulDistrib(digit * p, integral', one);
    MulAssoc(digit, p, one);
    MulDistrib(10 * d, digit, p * one);
  }

  lemma FractionDigit(d: int, exp: int, one: nat, f: nat, frac: nat, digit: nat, frac': nat)
    requires exp <= 0 && Emitted(d, exp, one, f, frac) && 10 * frac == digit * one + frac'
    ensures Emitted(10 * d + digit, exp - 1, one, f, frac')
    ensures Down10(exp - 1) == 10 * Down10(exp)
  {
    hide Pow;
    PowNext(10, 0);
    PowNext(10, -exp);
    assert f * (10 * Pow(10, -exp)) == 10 * (f * Pow(10, -exp));
    assert 10 * (d * one) == (10 * d) * one;
    MulDistrib(10 * d, digit, one);
  }

  // ---- The fixed-precision handler ----

  class FixedHandler {
    const buf: array<char>
    var size: nat
    var precision: int
    var exp10: int
    const fixed: bool

    constructor (buf: array<char>, precision: int, exp10: int, fixed: bool)
      ensures this.buf == buf && this.fixed == fixed
      ensures size == 0 && this.precision == precision && this.exp10 == exp10
    {
      this.buf := buf;
      this.fixed := fixed;
      this.size := 0;
      this.precision := precision;
      this.exp10 := exp10;
    }

    ghost predicate Valid()
      reads this, buf
    {
      size <= buf.Length && AllDigits(buf[..size])
    }

    /** The digits written. */
    ghost function Text(): string
      reads this, buf
      requires size <= buf.Length
    {
      buf[..size]
    }

    /** The digits as a number of units of the exponent the caller will see. */
    ghost function Units(before: int): int
      reads this, buf
      requires size <= buf.Length
    {
      if exp10 == before then Denotes(Text()) else 10 * Denotes(Text())
    }

    /** Settles a precision of zero or less, which is counted from the decimal point. */
    method OnStart(divisor: uint64, remainder: uint64, error: uint64, exp: int) returns (r: Result)
      requires Valid() && size == 0 && buf.Length > 0
      requires remainder < divisor && error < divisor && error < divisor - error
      modifies this`size, this`precision, buf
      ensures Valid() && precision == (if fixed then old(precision) + exp + exp10 else old(precision))
      ensures r == More <==> !fixed || precision > 0
      ensures r == More || precision < 0 ==> size == 0
      ensures fixed && precision < 0 ==> r == Done
      ensures fixed && precision == 0 ==>
                match GetRoundDirection(divisor, remainder, error)
                case Unknown => r == Error && size == 0
                case Up => r == Done && Text() == ['1']
                case Down => r == Done && Text() == ['0']
    {
      if !fixed {
        return More;
      }
      precision := precision + exp + exp10;
      if precision > 0 {
        return More;
      }
      if precision < 0 {
        return Done;
      }
      var dir := GetRoundDirection(divisor, remainder, error);
      if dir == Unknown {
        return Error;
      }
      buf[size] := if dir == Up then '1' else '0';
      size := size + 1;
      assert buf[..1] == [buf[0]];
      return Done;
    }

    /** Takes a digit and what is left below it; decides whether to stop, and rounds. */
    method OnDigit(digit: char, divisor: uint64, remainder: uint64, error: uint64, integral: bool) returns (r: Result)
      requires Valid() && IsDigit(digit) && size + 2 <= buf.Length
      requires remainder < divisor && error > 0 && (integral ==> error == 1 && divisor > 2)
      modifies this`size, this`exp10, buf
      ensures Valid()
      ensures r == More ==> Text() == old(Text()) + [digit] && exp10 == old(exp10) && size < precision
      ensures r == More && !integral ==> error < remainder
      ensures r == Error ==> Text() == old(Text()) + [digit] && exp10 == old(exp10)
      ensures r == Error ==>
                || (!integral && remainder <= error)
                || (2 * (remainder + error) > divisor && 2 * (remainder - error) < divisor)
      ensures r == Done ==> old(size) + 1 >= precision
      ensures old(size) < size <= old(size) + 2
      ensures r == Done ==>
                if 2 * (remainder + error) <= divisor then Text() == old(Text()) + [digit] && exp10 == old(exp10)
                else
                  && 2 * (remainder - error) >= divisor
                  && (exp10 == old(exp10) || (!fixed && exp10 == old(exp10) + 1))
                  && Units(old(exp10)) == 10 * old(Denotes(Text())) + DigitOf(digit) + 1
                  && (size == old(size) + 1
                      || (fixed && size == old(size) + 2 && Denotes(Text()) == Pow(10, old(size) + 1)))
      ensures exp10 != old(exp10) || size == old(size) + 2 ==>
                AllNines(old(Text()) + [digit]) && IsPowerOfTen(Text())
      ensures (old(Text()) + [digit])[0] != '0' ==> Text()[0] != '0'
    {
      hide Denotes, Pow, AllNines, IsPowerOfTen;
      ghost var text := Text();
      buf[size] := digit;
      size := size + 1;
      assert Text() == text + [digit];
      if !integral && error >= remainder {
        return Error;
      }
      if size < precision {
        return More;
      }
      if !integral {
        if error >= divisor || error >= divisor - error {
          return Error;
        }
      }
      var dir := GetRoundDirection(divisor, remainder, error);
      if dir != Up {
        return if dir == Down then Done else Error;
      }
      DenotesPush(text, digit);
      RoundUp();
      return Done;
    }

    /** Moves a carry towards the front as long as it meets nines. */
    method CarryOn(ghost text: string, ghost value: int) returns (ghost place: nat)
      requires 0 < size <= buf.Length
      requires CarryAt(buf[..size], size - 1, value) && CarriedTo(text, buf[..size], size - 1)
      modifies buf
      ensures place < size && CarryAt(buf[..size], place, value) && CarriedTo(text, buf[..size], place)
      ensures place == 0 || buf[place] <= '9'
    {
      hide CarryAt, CarriedTo;
      var i := size - 1;
      while i > 0 && buf[i] > '9'
        invariant 0 <= i < size && CarryAt(buf[..size], i, value) && CarriedTo(text, buf[..size], i)
      {
        ghost var now := buf[..size];
        CarrySettled(now, i, value);
        CarryMoves(now, i, value);
        CarriedOn(text, now, i);
        buf[i] := '0';
        buf[i - 1] := buf[i - 1] + 1 as char;
        assert buf[..size] == now[i := '0'][i - 1 := now[i - 1] + 1 as char];
        i := i - 1;
      }
      place := i;
    }

    /** Adds one to the last digit and carries. */
    method RoundUp()
      requires Valid() && 0 < size < buf.Length
      modifies this`size, this`exp10, buf
      ensures Valid()
      ensures exp10 == old(exp10) || (!fixed && exp10 == old(exp10) + 1)
      ensures Units(old(exp10)) == old(Denotes(Text())) + 1
      ensures size == old(size) || (fixed && size == old(size) + 1 && Denotes(Text()) == Pow(10, old(size)))
      ensures exp10 > old(exp10) || size > old(size) <==> AllNines(old(Text()))
      ensures AllNines(old(Text())) ==> IsPowerOfTen(Text())
      ensures old(Text())[0] != '0' ==> Text()[0] != '0'
    {
      hide Denotes, Pow, CarryAt, CarriedTo, AllNines;
      ghost var text := Text();
      ghost var value := Denotes(text) + 1;
      buf[size - 1] := buf[size - 1] + 1 as char;
      LastPlusOne(text);
      CarriedStart(text);
      assert buf[..size] == text[size - 1 := text[size - 1] + 1 as char];
      ghost var i := CarryOn(text, value);
      CarrySettled(buf[..size], i, value);
      CarriedOut(text, buf[..size], i);
      if buf[0] > '9' {
        ghost var now := buf[..size];
        CarryOut(now, value);
        buf[0] := '1';
        assert buf[..size] == now[0 := '1'];
        ghost var ones := buf[..size];
        if fixed {
          buf[size] := '0';
          size := size + 1;
          assert buf[..size] == ones + ['0'];
          DenotesPush(ones, '0');
          OneAndZeros(ones);
          PowNext(10, |ones| - 1);
        } else {
          exp10 := exp10 + 1;
        }
      }
    }
  }

  lemma LastPlusOne(s: string)
    requires |s| > 0 && AllDigits(s)
    ensures CarryAt(s[|s| - 1 := s[|s| - 1] + 1 as char], |s| - 1, Denotes(s) + 1)
  {
    DenotesUpdate(s, |s| - 1, s[|s| - 1] + 1 as char);
  }

  lemma OneAndZeros(s: string)
    requires |s| > 0 && s[0] == '1' && forall k :: 0 < k < |s| ==> s[k] == '0'
    ensures Denotes(s) == Pow(10, |s| - 1)
  {
    DenotesAppend([s[0]], s[1..]);
    assert s == [s[0]] + s[1..];
    DenotesZeros(s[1..]);
    DenotesPush([], s[0]);
    assert [] + [s[0]] == [s[0]];
  }

  // ---- The digit generator ----

  /** How many digits a done result has: the precision, at least one, and one more when fixed output
      carried out of its first digit. */
  ghost predicate DigitCount(text: string, precision: int, fixed: bool) {
    var n := if precision > 1 then precision else 1;
    |text| == n || (fixed && |text| == n + 1 && Denotes(text) == Pow(10, n))
  }

  /** The decision before any digit fails: the midpoint is within ten of a tenth of the value, that is within
      about a hundred units where the error is one. */
  ghost predicate StartUndecided(kappa: int, one: nat, f: nat) {
    var d := Unit(kappa - 1, one);
    2 * (f / 10 + 10) > d && 2 * (f / 10 - 10) < d
  }

  /** Even so the midpoint of the first place is not far off. */
  lemma StartUndecidedNear(kappa: nat, one: nat, f: nat)
    requires kappa >= 1 && StartUndecided(kappa, one, f)
    ensures -220 < 2 * f - Unit(kappa, one) < 220
  {
    hide Pow;
    PowNext(10, kappa - 1);
    MulAssoc(10, Pow(10, kappa - 1), one);
  }

  /** Giving up is needed exactly when neither 0 nor 1 is near every number within one unit. */
  lemma NeededExactly(kappa: nat, one: nat, f: nat)
    requires kappa >= 1 && f < Unit(kappa, one)
    ensures Undecided(0, kappa, one, f) <==> !NearHalf(0, kappa, one, f) && !NearHalf(1, kappa, one, f)
  {
    hide Unit;
  }

  /** Five and 50 units in 2^-60: given up, though every number within one unit rounds up. */
  lemma NeedlessError()
    ensures var one, f := 0x1000_0000_0000_0000, 5 * 0x1000_0000_0000_0000 + 50;
            StartUndecided(1, one, f) && NearHalf(1, 1, one, f) && !Undecided(0, 1, one, f)
  {
    PowNext(10, 0);
  }

  /** The generator's verdict on the text it wrote, exp being the exponent of the last digit. */
  ghost predicate Verdict(result: Result, text: string, units: int, exp: int, precision: int, fixed: bool,
      one: nat, f: nat) {
    match result
    case More => false
    case Done =>
      if text == [] then fixed && precision < 0 && NearHalf(0, exp - precision, one, f)
      else NearHalf(units, exp, one, f) && DigitCount(text, precision, fixed)
    case Error =>
      if text == [] then fixed && precision == 0 && StartUndecided(exp, one, f)
      else Undecided(Denotes(text), exp, one, f)
  }

  /** The value's integral part: what is above the binary point. */
  function IntegralPart(f: nat, q: nat): nat {
    Shr(f, q)
  }

  /** Splitting the value at the binary point. */
  lemma BinaryPoint(f: uint64, q: nat)
    requires 32 <= q <= 60 && f >= Pow(2, q)
    ensures var one := Pow(2, q);
            && 0x1_0000_0000 <= one <= 0x1000_0000_0000_0000
            && 0 < f / one < BASE && f == (f / one) * one + f % one && IntegralPart(f, q) == f / one
  {
    hide Pow;
    TwoPowers();
    PowMonotone(2, 32, q);
    PowMonotone(2, q, 60);
    BelowWord(f, Pow(2, q));
  }

  lemma BelowWord(f: uint64, one: nat)
    requires BASE <= one <= f
    ensures 0 < f / one < BASE && f == (f / one) * one + f % one
  {
    assert f == (f / one) * one + f % one;
    MulCancelLess(f / one, BASE, one);
  }

  /** The integral part has kappa digits, so the value lies between the two powers. */
  lemma LeadingPower(integral: nat, one: nat, frac: nat, f: uint64, kappa: nat)
    requires 0 < integral < BASE && frac < one && f == integral * one + frac && kappa == NumDigits(integral)
    ensures 1 <= kappa <= 10 && Pow(10, kappa - 1) <= integral < Pow(10, kappa)
    ensures one <= Pow(10, kappa - 1) * one <= f < Pow(10, kappa) * one
  {
    hide Pow;
    NumDigitsBounds(integral);
    TenPowers();
    if kappa > 10 { PowMonotone(10, 10, kappa - 1); }
    PowPositive(10, kappa - 1);
    MulMonotone(1, Pow(10, kappa - 1), one);
    MulMonotone(Pow(10, kappa - 1), integral, one);
    MulMonotone(integral + 1, Pow(10, kappa), one);
    MulDistrib(integral, 1, one);
  }

  /** The coarse decision taken before any digit, at a tenth of the scale and ten times the error. */
  lemma StartDecides(f: uint64, one: nat, kappa: nat)
    requires kappa >= 1 && Pow(10, kappa - 1) * one <= f < Pow(10, kappa) * one
    requires BASE <= one && Pow(10, kappa - 1) * one >= BASE
    ensures f / 10 < Pow(10, kappa - 1) * one
    ensures 2 * (f / 10 + 10) <= Pow(10, kappa - 1) * one ==> NearHalf(0, kappa, one, f)
    ensures 2 * (f / 10 - 10) >= Pow(10, kappa - 1) * one ==> NearHalf(1, kappa, one, f)
    ensures 2 * (f / 10 + 10) > Pow(10, kappa - 1) * one && 2 * (f / 10 - 10) < Pow(10, kappa - 1) * one <==>
              StartUndecided(kappa, one, f)
  {
    hide Pow;
    PowNext(10, kappa - 1);
    MulAssoc(10, Pow(10, kappa - 1), one);
  }

  /** Nothing printed: the value is at most half a unit of a place above its first digit. */
  lemma NothingNear(f: uint64, one: nat, kappa: nat, precision: int)
    requires f < Pow(10, kappa) * one && one > 0 && precision < 0
    ensures NearHalf(0, kappa - precision, one, f)
  {
    hide Pow;
    PowNext(10, kappa);
    PowMonotone(10, kappa + 1, kappa - precision);
    MulAssoc(10, Pow(10, kappa), one);
    MulMonotone(Pow(10, kappa + 1), Pow(10, kappa - precision), one);
  }

  /** What the handler's answer to a digit means for the value. */
  lemma DigitVerdict(result: Result, text: string, digit: char, exp10: int, after: string, exp10': int, units: int,
                     exp: int, precision: int, fixed: bool, one: nat, f: nat, remainder: int)
    requires Emitted(10 * Denotes(text) + DigitOf(digit), exp, one, f, remainder) && 0 <= remainder < Unit(exp, one)
    requires |text| == 0 || |text| < precision
    requires units == (if exp10' == exp10 then Denotes(after) else 10 * Denotes(after))
    requires result == Error ==> after == text + [digit]
    requires result == Error ==>
               || (exp < 0 && remainder <= Down10(exp))
               || (2 * (remainder + Down10(exp)) > Unit(exp, one) && 2 * (remainder - Down10(exp)) < Unit(exp, one))
    requires result == Done ==> |text| + 1 >= precision
    requires result == Done ==>
               if 2 * (remainder + Down10(exp)) <= Unit(exp, one) then after == text + [digit] && exp10' == exp10
               else
                 && 2 * (remainder - Down10(exp)) >= Unit(exp, one)
                 && units == 10 * Denotes(text) + DigitOf(digit) + 1
                 && (|after| == |text| + 1 || (fixed && |after| == |text| + 2 && Denotes(after) == Pow(10, |text| + 1)))
    requires result != More
    ensures Verdict(result, after, units, exp, precision, fixed, one, f)
  {
    hide Pow, Emitted, Down10, Unit, NearHalf, Undecided, Denotes;
    DenotesPush(text, digit);
    EmittedNear(10 * Denotes(text) + DigitOf(digit), exp, one, f, remainder);
  }

  /** What holds before a digit of the integral part: exp digits of it are still to come. */
  ghost predicate InIntegral(handler: FixedHandler, exp: int, one: nat, f: nat, integral: nat, frac: nat, e10: int)
    reads handler, handler.buf
  {
    && handler.Valid() && handler.exp10 == e10
    && (handler.size == 0 || handler.size < handler.precision)
    && 0 <= exp && handler.size + exp <= 10 && integral < Pow(10, exp) && frac < one
    && (if handler.size == 0 then exp > 0 && integral >= Pow(10, exp - 1) else handler.Text()[0] != '0')
    && Emitted(Denotes(handler.Text()), exp, one, f, integral * one + frac)
  }

  /** What holds before a digit of the fractional part. */
  ghost predicate InFraction(handler: FixedHandler, exp: int, one: nat, f: nat, frac: nat, error: nat, e10: int)
    reads handler, handler.buf
  {
    && handler.Valid() && handler.exp10 == e10
    && (handler.size == 0 || handler.size < handler.precision)
    && exp <= 0 && handler.size + exp <= 10 && frac < one && error == Down10(exp) < one
    && handler.size > 0 && handler.Text()[0] != '0'
    && Emitted(Denotes(handler.Text()), exp, one, f, frac)
  }

  /** The exponent moves by at most one, and then the text is one and zeros. */
  ghost predicate OneMore(handler: FixedHandler, e10: int)
    requires handler.size <= handler.buf.Length
    reads handler, handler.buf
  {
    handler.exp10 == e10 || (!handler.fixed && handler.exp10 == e10 + 1 && IsPowerOfTen(handler.Text()))
  }

  /** One digit of the integral part. */
  method IntegralRound(handler: FixedHandler, exp: nat, one: uint64, ghost f: nat, integral: uint32, frac: uint64,
      ghost e10: int)
    returns (result: Result, integral': uint32)
    requires handler.buf.Length >= 32 && exp > 0 && BASE <= one
    requires InIntegral(handler, exp, one, f, integral, frac, e10) && integral * one + frac < TWO64
    requires Pow(10, exp - 1) * one < TWO64
    modifies handler`size, handler`exp10, handler.buf
    ensures result == More ==> InIntegral(handler, exp - 1, one, f, integral', frac, e10) && integral' <= integral
    ensures result == More ==> integral' * one + frac < TWO64
    ensures handler.size <= 11
    ensures handler.size > 0 && handler.Valid() && handler.Text()[0] != '0' && OneMore(handler, e10)
    ensures result != More ==>
              handler.Valid()
              && Verdict(result, handler.Text(), handler.Units(e10), exp - 1, handler.precision, handler.fixed, one, f)
  {
    hide Pow, Emitted, Denotes, Verdict;
    PowPositive(10, exp - 1);
    var divisor := Pow(10, exp - 1);
    ghost var text := handler.Text();
    DigitOfIntegral(integral, exp);
    var digit := integral / divisor;
    integral' := integral % divisor;
    IntegralDigit(Denotes(text), exp, one, f, integral, frac, digit, integral');
    RemainderBelow(integral', divisor, frac, one, integral);
    DivisorBig(divisor, one);
    result := handler.OnDigit(DigitChar(digit), divisor * one, integral' * one + frac, 1, true);
    if result == More {
      DenotesPush(text, DigitChar(digit));
    } else {
      DigitVerdict(result, text, DigitChar(digit), e10, handler.Text(), handler.exp10, handler.Units(e10),
                   exp - 1, handler.precision, handler.fixed, one, f, integral' * one + frac);
    }
  }

  lemma DigitOfIntegral(integral: nat, exp: nat)
    requires exp > 0 && integral < Pow(10, exp) && Pow(10, exp - 1) > 0
    ensures var d := Pow(10, exp - 1);
            0 <= integral / d < 10 && 0 <= integral % d <= integral && integral == (integral / d) * d + integral % d
  {
    hide Pow;
    PowNext(10, exp - 1);
    var d := Pow(10, exp - 1);
    assert integral == (integral / d) * d + integral % d;
    MulMonotone(0, integral / d, d);
    MulCancelLess(integral / d, 10, d);
  }

  lemma RemainderBelow(r: nat, d: nat, frac: nat, one: nat, whole: nat)
    requires r < d && frac < one && r <= whole && whole * one + frac < TWO64
    ensures 0 <= r * one + frac < d * one && r * one + frac < TWO64
  {
    MulMonotone(r + 1, d, one);
    MulDistrib(r, 1, one);
    MulMonotone(r, whole, one);
    MulMonotone(0, r, one);
  }

  lemma DivisorBig(d: nat, one: nat)
    requires d > 0 && one > 2
    ensures d * one > 2
  {
    MulMonotone(1, d, one);
  }

  /** One digit of the fractional part; remainder and error grow tenfold. */
  method FractionRound(handler: FixedHandler, exp: int, one: uint64, ghost f: nat, frac: uint64, error: uint64,
      ghost e10: int)
    returns (result: Result, frac': uint64, error': uint64)
    requires handler.buf.Length >= 32 && 0 < one <= 0x1000_0000_0000_0000
    requires InFraction(handler, exp, one, f, frac, error, e10)
    modifies handler`size, handler`exp10, handler.buf
    ensures result == More ==> InFraction(handler, exp - 1, one, f, frac', error', e10) && error' > error
    ensures handler.size <= 30
    ensures handler.size > 0 && handler.Valid() && handler.Text()[0] != '0' && OneMore(handler, e10)
    ensures result != More ==>
              handler.Valid()
              && Verdict(result, handler.Text(), handler.Units(e10), exp - 1, handler.precision, handler.fixed, one, f)
  {
    hide Pow, Emitted, Denotes, Verdict, Down10;
    ghost var text := handler.Text();
    ErrorBound(exp, error, one);
    var digit;
    digit, frac', error' := TenfoldSplit(frac, error, one);
    FractionDigit(Denotes(text), exp, one, f, frac, digit, frac');
    result := handler.OnDigit(DigitChar(digit), one, frac', error', false);
    if result == More {
      DenotesPush(text, DigitChar(digit));
    } else {
      UnitOfFraction(exp - 1, one);
      DigitVerdict(result, text, DigitChar(digit), e10, handler.Text(), handler.exp10, handler.Units(e10),
                   exp - 1, handler.precision, handler.fixed, one, f, frac');
    }
  }

  lemma UnitOfFraction(exp: int, one: nat)
    requires exp < 0
    ensures Unit(exp, one) == one
  {}

  /** Scales by ten and cuts at the binary point; nothing overflows. */
  method TenfoldSplit(frac: uint64, error: uint64, one: uint64) returns (digit: nat, frac': uint64, error': uint64)
    requires 0 < one <= 0x1000_0000_0000_0000 && frac < one && error < one
    ensures digit < 10 && frac' < one && 10 * frac == digit * one + frac' && error' == 10 * error
  {
    var scaled := (frac * 10) % TWO64;
    error' := (error * 10) % TWO64;
    FractionSplit(10 * frac, one);
    digit := scaled / one;
    frac' := scaled % one;
  }

  lemma FractionSplit(x: nat, one: nat)
    requires one > 0 && x < 10 * one
    ensures 0 <= x / one < 10 && 0 <= x % one < one && x == (x / one) * one + x % one
  {
    MulMonotone(0, x / one, one);
    MulCancelLess(x / one, 10, one);
  }

  /** An error still below one unit has been scaled at most eighteen times. */
  lemma ErrorBound(exp: int, error: nat, one: nat)
    requires exp <= 0 && error == Down10(exp) < one <= 0x1000_0000_0000_0000
    ensures error >= 1 && exp >= -18
  {
    hide Pow;
    TenPowers();
    PowPositive(10, -exp);
    if exp < -18 { PowMonotone(10, 19, -exp); }
  }

  /** The answers OnStart can give other than More. */
  lemma StartVerdict(result: Result, text: string, kappa: nat, precision: int, fixed: bool, one: nat, f: uint64)
    requires 1 <= kappa && fixed && precision <= 0
    requires BASE <= Pow(10, kappa - 1) * one <= f < Pow(10, kappa) * one && BASE <= one
    requires f / 10 < Pow(10, kappa - 1) * one < TWO64
    requires precision < 0 ==> result == Done && text == []
    requires precision == 0 ==>
               match GetRoundDirection(Pow(10, kappa - 1) * one, f / 10, 10)
               case Unknown => result == Error && text == []
               case Up => result == Done && text == ['1']
               case Down => result == Done && text == ['0']
    ensures Verdict(result, text, Denotes(text), kappa, precision, fixed, one, f)
    ensures precision == 0 ==> (result == Error <==> StartUndecided(kappa, one, f))
  {
    hide Pow, NearHalf, Unit, StartUndecided;
    DenotesPush([], '0');
    DenotesPush([], '1');
    assert [] + ['0'] == ['0'] && [] + ['1'] == ['1'];
    if precision < 0 {
      NothingNear(f, one, kappa, precision);
    } else {
      StartDecides(f, one, kappa);
    }
  }

  lemma NothingEmitted(handler: FixedHandler, kappa: nat, one: nat, f: nat, integral: nat, frac: nat)
    requires handler.Valid() && handler.Text() == [] && 0 < kappa <= 10 && frac < one
    requires Pow(10, kappa - 1) <= integral < Pow(10, kappa)
    requires f == integral * one + frac
    ensures InIntegral(handler, kappa, one, f, integral, frac, handler.exp10)
  {
    hide Pow;
    MulMonotone(0, 0, Unit(kappa, one));
  }

  lemma PlaceFits(exp: nat, kappa: nat, one: nat, f: uint64)
    requires 0 < exp <= kappa && Pow(10, kappa - 1) * one <= f
    ensures Pow(10, exp - 1) * one < TWO64
  {
    hide Pow;
    PowMonotone(10, exp - 1, kappa - 1);
    MulMonotone(Pow(10, exp - 1), Pow(10, kappa - 1), one);
  }

  lemma IntegralDone(handler: FixedHandler, one: nat, f: nat, integral: nat, frac: nat, e10: int)
    requires InIntegral(handler, 0, one, f, integral, frac, e10) && one > 1
    ensures InFraction(handler, 0, one, f, frac, 1, e10)
  {
    PowNext(10, 0);
  }

  /** Generates digits until the handler is satisfied or gives up. */
  method GrisuGenDigits(value: Fp, handler: FixedHandler) returns (result: Result, exp: int)
    requires -60 <= value.e <= -32 && value.f >= Pow(2, -value.e)
    requires handler.Valid() && handler.size == 0 && handler.buf.Length >= 32
    modifies handler, handler.buf
    ensures handler.Valid()
    ensures handler.precision == old(handler.precision) +
              if handler.fixed then NumDigits(IntegralPart(value.f, -value.e)) + old(handler.exp10) else 0
    ensures Verdict(result, handler.Text(), handler.Units(old(handler.exp10)), exp, handler.precision, handler.fixed,
                    Pow(2, -value.e), value.f)
    ensures handler.fixed && handler.precision == 0 ==>
              (result == Error <==> StartUndecided(exp, Pow(2, -value.e), value.f))
    ensures handler.size <= 30 && OneMore(handler, old(handler.exp10))
    ensures !(handler.fixed && handler.precision <= 0) ==> handler.size > 0 && handler.Text()[0] != '0'
  {
    hide Pow, Emitted, Denotes, Verdict, NumDigits, NearHalf, Undecided, Down10, Unit, StartUndecided;
    ghost var e10 := handler.exp10;
    BinaryPoint(value.f, -value.e);
    var one: uint64 := Pow(2, -value.e);
    var integral: uint32 := value.f / one;
    var fractional: uint64 := value.f % one;
    CountDigits32Exact(integral);
    exp := CountDigits32(integral);
    LeadingPower(integral, one, fractional, value.f, exp);
    ghost var kappa := exp;
    StartDecides(value.f, one, kappa);
    result := handler.OnStart(Pow(10, exp - 1) * one, value.f / 10, 10, exp);
    if result != More {
      StartVerdict(result, handler.Text(), kappa, handler.precision, handler.fixed, one, value.f);
      return;
    }
    assert handler.Text() == [];
    NothingEmitted(handler, kappa, one, value.f, integral, fractional);
    while exp > 0
      invariant 0 <= exp <= kappa && InIntegral(handler, exp, one, value.f, integral, fractional, e10)
      invariant integral * one + fractional < TWO64
      invariant handler.precision == old(handler.precision) + (if handler.fixed then kappa + e10 else 0)
      decreases exp
    {
      PlaceFits(exp, kappa, one, value.f);
      result, integral := IntegralRound(handler, exp, one, value.f, integral, fractional, e10);
      exp := exp - 1;
      if result != More {
        return;
      }
    }
    IntegralDone(handler, one, value.f, integral, fractional, e10);
    var error: uint64 := 1;
    while true
      invariant InFraction(handler, exp, one, value.f, fractional, error, e10)
      invariant handler.precision == old(handler.precision) + (if handler.fixed then kappa + e10 else 0)
      decreases one - error
    {
      result, fractional, error := FractionRound(handler, exp, one, value.f, fractional, error, e10);
      exp := exp - 1;
      if result != More {
        return;
      }
    }
  }
}
